/** The `AssetsManager` middleware: construction from options, the search
    over the asset roots, the copy into the web directory, and the request
    handler with its hit, miss and body-write-failure paths. */
module Assets {
  import opened Wrappers
  import opened Strings
  import opened Files
  import opened Http
  import opened Mime

  // ---------------------------------------------------------------------------
  // Construction
  // ---------------------------------------------------------------------------

  /** The `paths` option: unset (or null), a single non-array value, or an array. */
  datatype PathsOption = NoPaths | OnePath(path: string) | PathList(paths: seq<string>)

  /** The `mime_types` option: unset (or null), set to a non-array, or an array. */
  datatype MimeTypesOption = NoMimeTypes | NotAnArray | MimeArray(entries: map<string, string>)

  /** The constructor's `$options` array. */
  datatype Options = Options(paths: PathsOption, webDir: Option<string>, mimeTypes: MimeTypesOption)

  /** A constructed middleware. Nothing in it changes after construction. */
  datatype AssetsManager = AssetsManager(
    paths: seq<string>,             // the roots searched, in order
    webDir: Option<string>,         // where found assets are copied, if anywhere
    mimeTypes: map<string, string>) // extension -> MIME type

  /** `new AssetsManager($options)`, with the filesystem as it is at
      construction time (only `is_dir` of `web_dir` is consulted). */
  function Construct(options: Options, fs: FileSystem): (am: AssetsManager)
    ensures options.paths.NoPaths? ==> am.paths == []
    ensures options.paths.OnePath? ==> am.paths == [options.paths.path]
    ensures options.paths.PathList? ==> am.paths == options.paths.paths
    ensures am.webDir.Some? <==> options.webDir.Some? && options.webDir.value in fs.dirs
    ensures am.webDir.Some? ==> am.webDir == options.webDir
    ensures !options.mimeTypes.MimeArray? ==> am.mimeTypes == DefaultMimeTypes
    ensures options.mimeTypes.MimeArray? ==>
              var caller := options.mimeTypes.entries;
              && am.mimeTypes.Keys == DefaultMimeTypes.Keys + caller.Keys
              && (forall k :: k in caller ==> am.mimeTypes[k] == caller[k])
              && (forall k :: k in DefaultMimeTypes && k !in caller ==> am.mimeTypes[k] == DefaultMimeTypes[k])
  {
    var paths := match options.paths
      case NoPaths => []
      case OnePath(p) => [p]
      case PathList(ps) => ps;
    var webDir := if options.webDir.Some? && options.webDir.value in fs.dirs then options.webDir else None;
    var mimeTypes := match options.mimeTypes
      case MimeArray(entries) => Merge(DefaultMimeTypes, entries)
      case _ => DefaultMimeTypes;
    AssetsManager(paths, webDir, mimeTypes)
  }

  // ---------------------------------------------------------------------------
  // findFile
  // ---------------------------------------------------------------------------

  /** Root `roots[i]` is the first whose `root . uriPath` is readable. */
  ghost predicate IsFirstMatch(roots: seq<string>, uriPath: string, readable: set<string>, i: int) {
    && 0 <= i < |roots|
    && roots[i] + uriPath in readable
    && forall j :: 0 <= j < i ==> roots[j] + uriPath !in readable
  }

  /** The `array_reduce` callback: keep a file already found (compared
      strictly with `false`), else try this root. */
  function FindStep(found: Option<string>, root: string, uriPath: string, readable: set<string>): Option<string> {
    if found.Some? then found
    else if root + uriPath in readable then Some(root + uriPath)
    else None
  }

  /** `array_reduce($roots, callback, $found)`: a left fold. Once something
      is found it is carried to the end; otherwise the result is the first
      root that yields a readable file, and None when none does. */
  function FindFrom(found: Option<string>, roots: seq<string>, uriPath: string, readable: set<string>): (r: Option<string>)
    ensures found.Some? ==> r == found
    ensures found.None? ==> (r.None? <==> forall i :: 0 <= i < |roots| ==> roots[i] + uriPath !in readable)
    ensures found.None? ==> forall i :: IsFirstMatch(roots, uriPath, readable, i) ==> r == Some(roots[i] + uriPath)
    decreases |roots|
  {
    if |roots| == 0 then found
    else
      var r := FindFrom(FindStep(found, roots[0], uriPath, readable), roots[1..], uriPath, readable);
      assert forall i :: 1 <= i < |roots| ==> roots[i] == roots[1..][i - 1];
      assert forall i :: IsFirstMatch(roots, uriPath, readable, i) && i > 0 ==>
               IsFirstMatch(roots[1..], uriPath, readable, i - 1);
      r
  }

  /** `findFile($uriPath)`: None is PHP's `false`. */
  function FindFile(roots: seq<string>, uriPath: string, readable: set<string>): (r: Option<string>)
    ensures r.None? <==> forall i :: 0 <= i < |roots| ==> roots[i] + uriPath !in readable
    ensures forall i :: IsFirstMatch(roots, uriPath, readable, i) ==> r == Some(roots[i] + uriPath)
    ensures r.Some? ==> exists i :: IsFirstMatch(roots, uriPath, readable, i) && r.value == roots[i] + uriPath
  {
    var r := FindFrom(None, roots, uriPath, readable);
    if r.Some? then
      FirstMatchExists(roots, uriPath, readable);
      r
    else r
  }

  /** When some root yields a readable file, a first such root exists. */
  lemma {:induction false} FirstMatchExists(roots: seq<string>, uriPath: string, readable: set<string>)
    requires exists i :: 0 <= i < |roots| && roots[i] + uriPath in readable
    ensures exists i :: IsFirstMatch(roots, uriPath, readable, i)
    decreases |roots|
  {
    if roots[0] + uriPath in readable {
      assert IsFirstMatch(roots, uriPath, readable, 0);
    } else {
      var k :| 0 <= k < |roots| && roots[k] + uriPath in readable;
      assert roots[1..][k - 1] == roots[k];
      FirstMatchExists(roots[1..], uriPath, readable);
      var i :| IsFirstMatch(roots[1..], uriPath, readable, i);
      assert forall j :: 1 <= j <= i ==> roots[j] == roots[1..][j - 1];
      assert IsFirstMatch(roots, uriPath, readable, i + 1);
    }
  }

  /** The search depends only on which candidate paths `root . uriPath`
      are readable. */
  lemma {:induction false} FindFromCandidatesOnly(found: Option<string>, roots: seq<string>, uriPath: string, r1: set<string>, r2: set<string>)
    requires forall j :: 0 <= j < |roots| ==> (roots[j] + uriPath in r1 <==> roots[j] + uriPath in r2)
    ensures FindFrom(found, roots, uriPath, r1) == FindFrom(found, roots, uriPath, r2)
    decreases |roots|
  {
    if |roots| > 0 {
      assert roots[0] + uriPath in r1 <==> roots[0] + uriPath in r2;
      assert forall j :: 0 <= j < |roots| - 1 ==> roots[1..][j] == roots[j + 1];
      FindFromCandidatesOnly(FindStep(found, roots[0], uriPath, r1), roots[1..], uriPath, r1, r2);
    }
  }

  /** Roots after a match are never consulted: appending roots to a list
      that already resolves the path changes nothing. */
  lemma {:induction false} LaterRootsIrrelevant(found: Option<string>, roots: seq<string>, more: seq<string>, uriPath: string, readable: set<string>)
    requires FindFrom(found, roots, uriPath, readable).Some?
    ensures FindFrom(found, roots + more, uriPath, readable) == FindFrom(found, roots, uriPath, readable)
    decreases |roots|
  {
    if |roots| == 0 {
      assert roots + more == more;
    } else {
      assert (roots + more)[1..] == roots[1..] + more;
      LaterRootsIrrelevant(FindStep(found, roots[0], uriPath, readable), roots[1..], more, uriPath, readable);
    }
  }

  // ---------------------------------------------------------------------------
  // writeToWebDir
  // ---------------------------------------------------------------------------

  /** Whether `writeToWebDir` gets past its two guards: a web directory that
      is set (and truthy) and writable. */
  predicate CacheEnabled(webDir: Option<string>, fs: FileSystem): (c: bool)
    ensures c ==> webDir.Some? && webDir.value in fs.writable
    ensures webDir.Some? && |webDir.value| >= 2 && webDir.value in fs.writable ==> c
    ensures webDir == Some("0") || webDir == Some("") ==> !c
  {
    webDir.Some? && Truthy(webDir.value) && webDir.value in fs.writable
  }

  /** Whether, once past the guards, the copy lands: the destination is not
      a directory, and its parent either exists or can be created by a
      single non-recursive `mkdir`. */
  predicate CacheWriteLands(webDir: string, fs: FileSystem, uriPath: string) {
    var dest := webDir + uriPath;
    var d := Dirname(dest);
    && dest !in fs.dirs
    && (d in fs.dirs || (d !in fs.files && Dirname(d) in fs.dirs))
  }

  /** `writeToWebDir($uriPath, $contents)`: a best-effort copy to
      `webDir . uriPath` that creates at most the one missing parent
      directory and overwrites the destination unconditionally. Nothing but
      that directory and that file ever changes. */
  function WriteToWebDir(webDir: Option<string>, fs: FileSystem, uriPath: string, contents: Bytes): (fs': FileSystem)
    ensures !CacheEnabled(webDir, fs) ==> fs' == fs
    ensures CacheEnabled(webDir, fs) ==>
              var dest := webDir.value + uriPath;
              var d := Dirname(dest);
              && fs'.writable == fs.writable
              && (fs'.dirs == fs.dirs || fs'.dirs == fs.dirs + {d})
              && fs.readable <= fs'.readable <= fs.readable + {d, dest}
              && (CacheWriteLands(webDir.value, fs, uriPath) ==> fs'.files == fs.files[dest := contents] && d in fs'.dirs)
              && (!CacheWriteLands(webDir.value, fs, uriPath) ==> fs'.files == fs.files)
    ensures Valid(fs) ==> Valid(fs')
  {
    if !(webDir.Some? && Truthy(webDir.value)) then fs
    else if webDir.value !in fs.writable then fs
    else
      var dest := webDir.value + uriPath;
      var destDir := Dirname(dest);
      var fs1 := if destDir !in fs.dirs then MakeDir(fs, destDir) else fs;
      PutContents(fs1, dest, contents)
  }

  /** Every path other than the destination reads as before the copy. */
  lemma WriteToWebDirReadsElsewhere(webDir: Option<string>, fs: FileSystem, uriPath: string, contents: Bytes, path: string)
    requires webDir.Some? ==> path != webDir.value + uriPath
    ensures ReadFile(WriteToWebDir(webDir, fs, uriPath, contents), path) == ReadFile(fs, path)
  {
  }

  /** Writing the same copy twice leaves the filesystem as writing it once. */
  lemma WriteToWebDirIdempotent(webDir: Option<string>, fs: FileSystem, uriPath: string, contents: Bytes)
    ensures var once := WriteToWebDir(webDir, fs, uriPath, contents);
            WriteToWebDir(webDir, once, uriPath, contents) == once
  {
    var once := WriteToWebDir(webDir, fs, uriPath, contents);
    if CacheEnabled(webDir, fs) {
      var dest := webDir.value + uriPath;
      var d := Dirname(dest);
      var fs1 := if d !in fs.dirs then MakeDir(fs, d) else fs;
      var once1 := if d !in once.dirs then MakeDir(once, d) else once;
      if d in fs1.dirs {
        assert once1 == once;
      }
    }
  }

  // ---------------------------------------------------------------------------
  // __invoke
  // ---------------------------------------------------------------------------

  /** The next middleware, if any. */
  type Next = Option<(Request, Response) -> Response>

  /** What the handler returns: the response, and the filesystem after its
      side effects. */
  datatype Outcome = Outcome(response: Response, fs: FileSystem)

  /** The file `findFile` resolves the request to, if any. */
  function Resolve(am: AssetsManager, fs: FileSystem, req: Request): Option<string> {
    FindFile(am.paths, req.path, fs.readable)
  }

  /** The hit path is taken when `findFile` returns a truthy path. */
  predicate IsHit(am: AssetsManager, fs: FileSystem, req: Request): (h: bool)
    ensures h <==> exists i :: IsFirstMatch(am.paths, req.path, fs.readable, i) && Truthy(am.paths[i] + req.path)
  {
    var found := Resolve(am, fs, req);
    found.Some? && Truthy(found.value)
  }

  /** The miss path: hand over to `next`, or answer 404 "<path> not found". */
  function Delegate(req: Request, res: Response, next: Next): (r: Response)
    ensures next.Some? ==> r == next.value(req, res)
    ensures next.None? ==>
              && r.status == 404 && r.reason == req.path + " not found"
              && r.headers == res.headers && r.body == res.body
  {
    match next
    case Some(handler) => handler(req, res)
    case None => res.WithStatus(404, req.path + " not found")
  }

  /** The body stream after the failed attempt to serve: rewound when the
      rewind itself succeeded (PSR-7 streams are shared, so the rewind
      stays visible to whoever handles the response next). */
  function AfterFailedServe(body: Stream): Stream {
    if body.seekable then body.(pos := 0) else body
  }

  /** The attempt to serve a found file (a `try` block): rewind the body,
      write the contents from its start, set status 200 and `Content-Type`.
      `Failed` is the `RuntimeException` a stream that cannot be rewound or
      written throws; it carries the response as the failure left it. */
  datatype Served = Served(response: Response) | Failed(response: Response)

  function ServeBody(res: Response, contents: Bytes, mime: string): (s: Served)
    ensures s.Served? <==> res.body.seekable && res.body.writable
    ensures s.Failed? ==> s.response == res.(body := AfterFailedServe(res.body))
    ensures s.Served? ==>
              && s.response.status == 200 && s.response.reason == ""
              && s.response.headers == res.headers["Content-Type" := mime]
              && |s.response.body.bytes| >= |contents|
              && s.response.body.bytes[..|contents|] == contents
              && (|res.body.bytes| <= |contents| ==> s.response.body.bytes == contents)
              && s.response.body.pos == |contents|
  {
    match Rewind(res.body)
    case None => Failed(res)
    case Some(rewound) =>
      match Write(rewound, contents)
      case None => Failed(res.(body := rewound))
      case Some(written) =>
        WriteAfterRewind(res.body, contents);
        Served(res.(body := written).WithStatus(200, "").WithHeader("Content-Type", mime))
  }

  /** `__invoke($req, $res, $next)`. */
  function Handle(am: AssetsManager, fs: FileSystem, sniffer: Sniffer, req: Request, res: Response, next: Next): (o: Outcome)
    // a miss delegates to `next` (or answers 404) and writes nothing
    ensures !IsHit(am, fs, req) ==> o == Outcome(Delegate(req, res, next), fs)
    // a hit copies the file to the web directory, whatever happens next
    ensures IsHit(am, fs, req) ==>
              o.fs == WriteToWebDir(am.webDir, fs, req.path, ReadFile(fs, Resolve(am, fs, req).value))
    // a hit whose body can be written answers 200 with the file and its type
    ensures IsHit(am, fs, req) && res.body.seekable && res.body.writable ==>
              var file := Resolve(am, fs, req).value;
              var contents := ReadFile(fs, file);
              && o.response.status == 200 && o.response.reason == ""
              && o.response.headers == res.headers["Content-Type" := DetectMimeType(am.mimeTypes, file, sniffer)]
              && |o.response.body.bytes| >= |contents|
              && o.response.body.bytes[..|contents|] == contents
              && (|res.body.bytes| <= |contents| ==> o.response.body.bytes == contents)
    // a hit whose body cannot be written falls through to the miss path
    ensures IsHit(am, fs, req) && !(res.body.seekable && res.body.writable) ==>
              o.response == Delegate(req, res.(body := AfterFailedServe(res.body)), next)
  {
    var uriPath := req.path;
    var found := FindFile(am.paths, uriPath, fs.readable);
    if found.Some? && Truthy(found.value) then
      var file := found.value;
      var contents := ReadFile(fs, file);
      var fs' := WriteToWebDir(am.webDir, fs, uriPath, contents);
      match ServeBody(res, contents, DetectMimeType(am.mimeTypes, file, sniffer))
      case Served(served) => Outcome(served, fs')
      case Failed(left) => Outcome(Delegate(req, left, next), fs')
    else
      Outcome(Delegate(req, res, next), fs)
  }
}
