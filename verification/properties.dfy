/** Properties of the middleware as a whole: what construction options
    switch off, precedence of caller MIME types, the cache copy, repeated
    requests, and the behaviour the PHPUnit test
    `testMiddlewareServesFileIfFound` checks. */
module Properties {
  import opened Wrappers
  import opened Strings
  import opened Files
  import opened Http
  import opened Mime
  import opened Assets

  /** A fresh response as a framework hands it in: 200, no headers, an
      empty seekable and writable body. */
  const FreshResponse: Response := Response(200, "", map[], Stream([], 0, true, true))

  /** Without a `paths` option nothing is ever found: every request goes to
      `next` (or gets a 404) and the filesystem is left alone. */
  lemma NoPathsNeverServes(options: Options, fs0: FileSystem, fs: FileSystem, sniffer: Sniffer, req: Request, res: Response, next: Next)
    requires options.paths.NoPaths?
    ensures Handle(Construct(options, fs0), fs, sniffer, req, res, next) == Outcome(Delegate(req, res, next), fs)
  {
    var am := Construct(options, fs0);
    assert FindFile(am.paths, req.path, fs.readable).None?;
  }

  /** Without a `web_dir` that is a directory at construction time, no
      request ever changes the filesystem. */
  lemma NoWebDirNeverWrites(options: Options, fs0: FileSystem, fs: FileSystem, sniffer: Sniffer, req: Request, res: Response, next: Next)
    requires options.webDir.None? || options.webDir.value !in fs0.dirs
    ensures Handle(Construct(options, fs0), fs, sniffer, req, res, next).fs == fs
  {
  }

  /** Whatever the request, the handler changes at most one file, the copy
      `webDir . uriPath`, and only by giving it the served contents. */
  lemma HandleChangesOnlyTheCopy(am: AssetsManager, fs: FileSystem, sniffer: Sniffer, req: Request, res: Response, next: Next)
    ensures var o := Handle(am, fs, sniffer, req, res, next);
            || o.fs.files == fs.files
            || (&& IsHit(am, fs, req) && am.webDir.Some?
                && o.fs.files == fs.files[am.webDir.value + req.path := ReadFile(fs, Resolve(am, fs, req).value)])
  {
  }

  /** A hit with caching enabled and a reachable destination leaves a
      byte-identical copy of the served file at `webDir . uriPath`, whether
      or not the response body could be written. */
  lemma CacheCopyMatchesSource(am: AssetsManager, fs: FileSystem, sniffer: Sniffer, req: Request, res: Response, next: Next)
    requires IsHit(am, fs, req)
    requires CacheEnabled(am.webDir, fs) && CacheWriteLands(am.webDir.value, fs, req.path)
    ensures var o := Handle(am, fs, sniffer, req, res, next);
            var dest := am.webDir.value + req.path;
            dest in o.fs.files && o.fs.files[dest] == ReadFile(fs, Resolve(am, fs, req).value)
  {
  }

  /** Requesting `/sub/test.css` with web directory `/w` creates the missing
      `sub` directory and copies the file to `/w/sub/test.css`. */
  lemma CacheCreatesSubdirectory(am: AssetsManager, fs: FileSystem, sniffer: Sniffer, res: Response, next: Next)
    requires am.webDir == Some("/w") && "/w" in fs.dirs && "/w" in fs.writable
    requires "/w/sub" !in fs.dirs && "/w/sub" !in fs.files && "/w/sub/test.css" !in fs.dirs
    requires IsHit(am, fs, Request("/sub/test.css"))
    ensures var o := Handle(am, fs, sniffer, Request("/sub/test.css"), res, next);
            && "/w/sub" in o.fs.dirs
            && "/w/sub/test.css" in o.fs.files
            && o.fs.files["/w/sub/test.css"] == ReadFile(fs, Resolve(am, fs, Request("/sub/test.css")).value)
  {
    var req := Request("/sub/test.css");
    SubdirectoryCopyLands(fs);
    assert CacheEnabled(am.webDir, fs);
    var o := Handle(am, fs, sniffer, req, res, next);
    assert o.fs == WriteToWebDir(am.webDir, fs, req.path, ReadFile(fs, Resolve(am, fs, req).value));
  }

  /** The destination `/w/sub/test.css` has parent `/w/sub`, whose own
      parent `/w` exists, so the copy lands after one `mkdir`. */
  lemma SubdirectoryCopyLands(fs: FileSystem)
    requires "/w" in fs.dirs
    requires "/w/sub" !in fs.dirs && "/w/sub" !in fs.files && "/w/sub/test.css" !in fs.dirs
    ensures Dirname("/w" + "/sub/test.css") == "/w/sub"
    ensures "/w" + "/sub/test.css" == "/w/sub/test.css"
    ensures CacheWriteLands("/w", fs, "/sub/test.css")
  {
    assert "/w" + "/sub/test.css" == "/w/sub/test.css" == "/w/sub" + "/" + "test.css";
    DirnameOfChild("/w/sub", "test.css");
    assert "/w/sub" == "/w" + "/" + "sub";
    DirnameOfChild("/w", "sub");
  }

  /** Repeating a request rewrites the same copy: when the copy and its
      directory are not themselves candidates of the search, handling the
      request again leaves the filesystem exactly as the first time. */
  lemma RepeatedRequestSameFilesystem(am: AssetsManager, fs: FileSystem, sniffer: Sniffer, req: Request, res1: Response, res2: Response, next: Next)
    requires am.webDir.Some? ==>
               var dest := am.webDir.value + req.path;
               forall j :: 0 <= j < |am.paths| ==>
                 am.paths[j] + req.path != dest && am.paths[j] + req.path != Dirname(dest)
    ensures var once := Handle(am, fs, sniffer, req, res1, next).fs;
            Handle(am, once, sniffer, req, res2, next).fs == once
  {
    var once := Handle(am, fs, sniffer, req, res1, next).fs;
    if IsHit(am, fs, req) {
      var contents := ReadFile(fs, Resolve(am, fs, req).value);
      assert once == WriteToWebDir(am.webDir, fs, req.path, contents);
      CopyInvisibleToSearch(am, fs, req, contents);
      WriteToWebDirIdempotent(am.webDir, fs, req.path, contents);
    }
  }

  /** When neither the copy nor its directory is a candidate of the search,
      the copy does not change what the request resolves to, nor the
      contents of the resolved file. */
  lemma CopyInvisibleToSearch(am: AssetsManager, fs: FileSystem, req: Request, contents: Bytes)
    requires am.webDir.Some? ==>
               var dest := am.webDir.value + req.path;
               forall j :: 0 <= j < |am.paths| ==>
                 am.paths[j] + req.path != dest && am.paths[j] + req.path != Dirname(dest)
    requires Resolve(am, fs, req).Some?
    ensures var once := WriteToWebDir(am.webDir, fs, req.path, contents);
            && Resolve(am, once, req) == Resolve(am, fs, req)
            && ReadFile(once, Resolve(am, fs, req).value) == ReadFile(fs, Resolve(am, fs, req).value)
  {
    var once := WriteToWebDir(am.webDir, fs, req.path, contents);
    if CacheEnabled(am.webDir, fs) {
      var dest := am.webDir.value + req.path;
      var file := Resolve(am, fs, req).value;
      assert forall j :: 0 <= j < |am.paths| ==>
               (am.paths[j] + req.path in fs.readable <==> am.paths[j] + req.path in once.readable);
      FindFromCandidatesOnly(None, am.paths, req.path, fs.readable, once.readable);
      var i :| IsFirstMatch(am.paths, req.path, fs.readable, i) && file == am.paths[i] + req.path;
      assert file != dest;
      WriteToWebDirReadsElsewhere(am.webDir, fs, req.path, contents, file);
    }
  }

  /** A served `name.ext` whose lower-cased extension is in the middleware's
      table is labelled with the table's type, whatever the sniffer says. */
  lemma ServedTypeFollowsExtension(am: AssetsManager, fs: FileSystem, sniffer: Sniffer, name: string, ext: string, res: Response, next: Next)
    requires '.' !in ext && ToLower(ext) in am.mimeTypes
    requires IsHit(am, fs, Request(name + "." + ext))
    requires res.body.seekable && res.body.writable
    ensures var o := Handle(am, fs, sniffer, Request(name + "." + ext), res, next);
            && o.response.status == 200
            && "Content-Type" in o.response.headers
            && o.response.headers["Content-Type"] == am.mimeTypes[ToLower(ext)]
  {
    var req := Request(name + "." + ext);
    var file := Resolve(am, fs, req).value;
    var i :| IsFirstMatch(am.paths, req.path, fs.readable, i) && file == am.paths[i] + req.path;
    assert file == (am.paths[i] + name) + "." + ext;
    ExtensionWins(am.mimeTypes, am.paths[i] + name, ext, sniffer, sniffer);
  }

  /** An entry the caller passes in `mime_types` is the middleware's type
      for that extension, whatever the built-in table says. */
  lemma CallerEntryWins(options: Options, fs: FileSystem, ext: string)
    requires options.mimeTypes.MimeArray? && ext in options.mimeTypes.entries
    ensures ext in Construct(options, fs).mimeTypes
    ensures Construct(options, fs).mimeTypes[ext] == options.mimeTypes.entries[ext]
  {
  }

  /** Caller MIME entries override the built-in table: with
      `mime_types => ['js' => 'mime/type']`, say, a served `name.js` is
      labelled `mime/type` although the built-in table says
      `application/javascript`. */
  lemma CustomMimeTypeOverrides(paths: PathsOption, webDir: Option<string>, caller: map<string, string>, fs0: FileSystem, fs: FileSystem, sniffer: Sniffer, name: string, ext: string, next: Next)
    requires '.' !in ext && ToLower(ext) in caller
    requires IsHit(Construct(Options(paths, webDir, MimeArray(caller)), fs0), fs, Request(name + "." + ext))
    ensures var am := Construct(Options(paths, webDir, MimeArray(caller)), fs0);
            var o := Handle(am, fs, sniffer, Request(name + "." + ext), FreshResponse, next);
            o.response.status == 200 && o.response.headers["Content-Type"] == caller[ToLower(ext)]
  {
    var am := Construct(Options(paths, webDir, MimeArray(caller)), fs0);
    CallerEntryWins(Options(paths, webDir, MimeArray(caller)), fs0, ToLower(ext));
    ServedTypeFollowsExtension(am, fs, sniffer, name, ext, FreshResponse, next);
  }

  /** The PHPUnit test `testMiddlewareServesFileIfFound`: with `paths => <dir>` (a single string) and
      `<dir>/test.js` readable, a request for `/test.js` with a fresh
      response answers 200, `application/javascript`, and the file's
      contents as the body, and `next` is not called. */
  lemma ServesJavaScriptAsset(dir: string, fs0: FileSystem, fs: FileSystem, sniffer: Sniffer, contents: Bytes)
    requires dir + "/test.js" in fs.readable
    requires dir + "/test.js" in fs.files && fs.files[dir + "/test.js"] == contents
    ensures var am := Construct(Options(OnePath(dir), None, NoMimeTypes), fs0);
            var next: Next := Some((q: Request, r: Response) => r.WithStatus(404, ""));
            var o := Handle(am, fs, sniffer, Request("/test.js"), FreshResponse, next);
            && o.response.status == 200
            && o.response.headers["Content-Type"] == "application/javascript"
            && o.response.body.bytes == contents
  {
    var am := Construct(Options(OnePath(dir), None, NoMimeTypes), fs0);
    assert am.paths == [dir] && am.mimeTypes == DefaultMimeTypes;
    var req := Request("/test.js");
    var file := dir + "/test.js";
    assert IsFirstMatch(am.paths, req.path, fs.readable, 0);
    assert Resolve(am, fs, req) == Some(file);
    assert Truthy(file);
    assert ReadFile(fs, file) == contents;
    assert file == (dir + "/test") + ".js";
    ScriptsAreJavaScript(dir + "/test", sniffer);
  }

  /** A request for a file no root holds, with no `next`, answers 404 with
      the reason "<path> not found". */
  lemma MissingAssetIsNotFound(am: AssetsManager, fs: FileSystem, sniffer: Sniffer, path: string, res: Response)
    requires forall j :: 0 <= j < |am.paths| ==> am.paths[j] + path !in fs.readable
    ensures var o := Handle(am, fs, sniffer, Request(path), res, None);
            && o.response.status == 404
            && o.response.reason == path + " not found"
            && o.fs == fs
  {
  }

  /** First match wins: with roots `[a, b]` and the file readable under
      both, the file under `a` is served, with `a`'s contents. */
  lemma FirstRootWins(a: string, b: string, webDir: Option<string>, mimeTypes: map<string, string>, fs: FileSystem, uriPath: string)
    requires a + uriPath in fs.readable && b + uriPath in fs.readable
    ensures FindFile([a, b], uriPath, fs.readable) == Some(a + uriPath)
    ensures var am := AssetsManager([a, b], webDir, mimeTypes);
            Truthy(a + uriPath) ==>
              Handle(am, fs, NoFileInfo, Request(uriPath), FreshResponse, None).response.body.bytes == ReadFile(fs, a + uriPath)
  {
    assert IsFirstMatch([a, b], uriPath, fs.readable, 0);
  }
}
