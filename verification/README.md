# AssetsManager middleware — a Dafny model

A model of `Knlv\Middleware\AssetsManager`, a PSR-7 middleware that serves
static assets kept outside the web server's document root. It models:

- construction from an options array (`paths`, `web_dir`, `mime_types`);
- the first-match search over the asset roots (`findFile`, an
  `array_reduce` fold);
- MIME detection: a lookup by lower-cased extension, then content
  sniffing, then `application/octet-stream`;
- the best-effort copy of a served asset into the web directory
  (`writeToWebDir`);
- the request handler `__invoke`, with its hit, miss and
  body-write-failure paths.

The filesystem is an immutable value:

- the set of readable paths;
- the set of directories;
- the set of writable paths;
- a map from regular files to their bytes.

Every filesystem call of the source is a pure function over this value:
`is_readable`, `is_dir`, `is_writable`, `file_get_contents`, `mkdir` and
`file_put_contents`.

A response carries its body as a stream value with a position. The stream
can refuse `rewind` (not seekable) or `write` (not writable); PSR-7 throws
`RuntimeException` in those cases. The handler returns the response together
with the filesystem after its side effects.

Modules:

| module | file | contents |
|---|---|---|
| `Wrappers` | `wrappers.dfy` | `Option`, standing for PHP's `false` / `null` |
| `Strings` | `strings.dfy` | PHP truthiness, `strtolower`, `explode`/`implode` on `.`, the extension, `dirname` |
| `Files` | `files.dfy` | the filesystem value, `mkdir`, `file_put_contents` |
| `Http` | `http.dfy` | request, body stream, response, `rewind`, `write` |
| `Mime` | `mime.dfy` | the built-in table, `array_merge` of tables, `detectMimeType` |
| `Assets` | `assets.dfy` | options, construction, `findFile`, `writeToWebDir`, `__invoke` |
| `Properties` | `properties.dfy` | whole-middleware properties and the PHPUnit test `testMiddlewareServesFileIfFound` |

Facts about the code that shape the model:

- **Extension.** The extension is taken from the whole resolved path, not
  only the file name: `explode('.', $file)` (src/AssetsManager.php:209-211).
  So a dot in a directory name counts, and a path with no dot at all uses
  the whole path, lower-cased, as its "extension". `Strings.Extension`
  computes that. `Mime.DotInDirectoryName` shows the consequence.
- **Directory creation.** `mkdir` is called without the recursive flag
  (src/AssetsManager.php:250-252). `Assets.CacheWriteLands` holds exactly
  when the destination is not a directory and either its parent is a
  directory, or that parent is not a regular file and the parent's own
  parent is a directory. The copy lands exactly under that condition.
- **The `svg` key.** The built-in table lists `svg` twice (lines 55 and
  92) with the same value. The model keeps both entries, one in each of the
  two parts of `Mime.DefaultMimeTypes`, and `Mime.SvgListedTwiceAgrees`
  states that they agree.

## Model

| member | source | states |
|---|---|---|
| Assets.Construct | src/AssetsManager.php:121-135 | `paths` unset gives no roots, a single value gives a one-root list, an array is kept as given; `webDir` is set exactly when `web_dir` was given and is a directory at construction; `mime_types` given as an array is merged over the defaults with the caller's entries winning, otherwise the defaults are used unchanged |
| Mime.Merge | src/AssetsManager.php:131-134 | the merged table has the keys of both tables; on a shared key the caller's value wins; every other default is kept |
| Assets.FindFrom | src/AssetsManager.php:185-199 | the fold carries a file already found to the end; from nothing found, it finds nothing exactly when no `root . uriPath` is readable, and otherwise yields the candidate of the first root whose candidate is readable; each step is the `array_reduce` callback, `Assets.FindStep` (lines 188-197) |
| Assets.FindFile | src/AssetsManager.php:185-199 | `false` exactly when no candidate is readable; otherwise the candidate of the first matching root, and a result always comes from such a root |
| Assets.FindFromCandidatesOnly | src/AssetsManager.php:187-198 | the search depends only on whether each candidate `root . uriPath` is readable, not on any other path |
| Assets.LaterRootsIrrelevant | src/AssetsManager.php:187-198 | once some root matches, appending further roots does not change the result (first match wins) |
| Properties.FirstRootWins | src/AssetsManager.php:155-166 | with roots `[a, b]` both holding the file, the file under `a` is found, and (its path being a truthy string) `a`'s contents are the body served into a fresh response |
| Properties.NoPathsNeverServes | src/AssetsManager.php:123-125 | without a `paths` option every request is delegated and the filesystem is untouched |
| Mime.DefaultKeysArePlain | src/AssetsManager.php:33-94 | every key of the built-in table is made of small ASCII letters and digits only |
| Mime.DefaultKeysAreExtensions | src/AssetsManager.php:33-94 | every key of the built-in table holds no `/` and is the extension computed for any `name.key`, so no entry is unreachable |
| Mime.SvgListedTwiceAgrees | src/AssetsManager.php:55-92 | `svg`, listed twice, has the same type in both places, and the built-in table maps it to `image/svg+xml` |
| Mime.DetectMimeType | src/AssetsManager.php:207-226 | the lower-cased text after the last `.` of the whole path selects the table entry when present; otherwise the sniffer's answer when the fileinfo extension exists; otherwise `application/octet-stream` |
| Mime.ExtensionWins | src/AssetsManager.php:209-215 | a file `name.ext` whose lower-cased extension is a table key gets the table's type, whatever the sniffer would say about its contents |
| Mime.ScriptsAreJavaScript | src/AssetsManager.php:209-214 | under the built-in table, whose `js` entry is `application/javascript` (line 39), every `name.js` and also every `name.JS` gets that type, since the extension is lower-cased before the lookup |
| Mime.DotInDirectoryName | src/AssetsManager.php:209-222 | for a table whose keys hold no `/`, a file `dir.x/name` with a dot-free name misses the table and is left to the sniffer |
| Strings.Extension | src/AssetsManager.php:209-211 | the extension is the last piece of `explode('.')` lower-cased: the lower-cased text after the last dot of the whole path, dot-free, or the whole path lower-cased when there is no dot |
| Strings.ExtensionOfDotted | src/AssetsManager.php:209-211 | for `prefix.ext` with a dot-free `ext`, the extension is `ext` lower-cased, whatever dots the prefix holds |
| Strings.Explode | src/AssetsManager.php:209-210 | `explode('.')` yields at least one piece, every piece is dot-free, and the last piece (the one `array_pop` takes) is the text after the last dot |
| Strings.ImplodeExplode | src/AssetsManager.php:209 | joining the pieces of `explode('.')` with dots gives back the path |
| Strings.ExplodeImplode | src/AssetsManager.php:209 | `explode('.')` inverts the join on dot-free pieces, so the decomposition is unique |
| Strings.AfterLastDotIsSuffix | src/AssetsManager.php:209-210 | the popped piece is a dot-free suffix of the path, preceded by a dot unless it is the whole path, which happens exactly when the path has no dot |
| Strings.Dirname | src/AssetsManager.php:248 | `dirname` is empty exactly for the empty path; any other result besides `/` and `.` is a proper prefix of the path that is followed by a `/` in it and does not itself end in `/` |
| Strings.ToLower | src/AssetsManager.php:211 | `strtolower` keeps the length, replaces each ASCII capital by its small letter and keeps every other character in place |
| Strings.Truthy | src/AssetsManager.php:157 | PHP truthiness of a string: the empty string and `"0"` are false, every other one-character string and every longer string is true |
| Strings.DirnameOfChild | src/AssetsManager.php:248 | `dirname` of `dir/name`, for a slash-free name and a dir without a trailing slash, is `dir` |
| Files.ReadFile | src/AssetsManager.php:158 | `file_get_contents` gives a regular file's bytes, and no bytes for a path that is not a regular file |
| Files.ReadAfterPut | src/AssetsManager.php:254 | after `file_put_contents`, the target reads as the data exactly when the write could land (not a directory, parent a directory) and as before otherwise; every other path reads as before |
| Files.ReadAfterMakeDir | src/AssetsManager.php:251 | `mkdir` does not change what any path reads as |
| Files.MakeDir | src/AssetsManager.php:250-252 | non-recursive `mkdir`: the directory exists afterwards exactly when it existed before, or when it was not a file and its parent was a directory; files and writability are unchanged |
| Files.PutContents | src/AssetsManager.php:254 | `file_put_contents`: either no file changes, or exactly the target gets the data; the write happens exactly when the target is not a directory and its parent is one |
| Assets.WriteToWebDir | src/AssetsManager.php:235-255 | no change without a truthy web directory or when it is not writable; otherwise only the destination's parent can be added to the directories, only the destination changes among the files, and it receives the contents exactly when `Assets.CacheWriteLands` holds; the filesystem stays well formed |
| Assets.CacheEnabled | src/AssetsManager.php:237-245 | caching needs a web directory that is writable; `"0"` and `""` switch it off, and any writable web directory of two or more characters switches it on |
| Assets.WriteToWebDirReadsElsewhere | src/AssetsManager.php:247-254 | the copy changes what no path other than `webDir . uriPath` reads as |
| Assets.WriteToWebDirIdempotent | src/AssetsManager.php:235-255 | writing the same copy twice leaves the filesystem as writing it once |
| Http.Rewind | src/AssetsManager.php:162 | `rewind` succeeds exactly on a seekable stream and moves the position to 0 |
| Http.Write | src/AssetsManager.php:163 | `write` succeeds exactly on a writable stream, splices the data in at the position and advances the position past it |
| Http.Splice | src/AssetsManager.php:163 | the written bytes sit at the write position; bytes before and after the written range are kept; the stream grows only as far as the write needs |
| Http.WriteAfterRewind | src/AssetsManager.php:162-163 | after rewind and write the body starts with the written bytes, and a body no longer than them holds exactly them |
| Assets.IsHit | src/AssetsManager.php:156-157 | a request is served from disk exactly when some root is the first whose candidate `root . uriPath` is readable, and that candidate is a truthy string |
| Assets.Delegate | src/AssetsManager.php:172-176 | with `next` the answer is `next(req, res)`; without it the answer is status 404 with reason "<path> not found" and the headers and body of the given response |
| Http.Response.WithStatus | src/AssetsManager.php:164 | `withStatus` (here and at line 176) gives a response with the new status and reason phrase, and the same headers and body |
| Http.Response.WithHeader | src/AssetsManager.php:166 | `withHeader` sets the named header to the value, replacing any earlier value, and keeps every other header, the status, the reason and the body |
| Assets.ServeBody | src/AssetsManager.php:161-169 | serving succeeds exactly when the body is seekable and writable, and then gives status 200, the `Content-Type` header and a body starting with the contents; a failure leaves the response as it was except for a rewind that already happened, which `Assets.AfterFailedServe` gives as the stream left after the `catch` (lines 167-169) |
| Assets.Handle | src/AssetsManager.php:150-177 | a miss delegates to `next`, or answers 404 "<path> not found", and writes nothing; a hit always runs the copy first; a hit with a writable body answers 200 with the detected type and the file's bytes from position 0; a hit whose body cannot be written falls through to the miss path with the rewound body |
| Properties.NoWebDirNeverWrites | src/AssetsManager.php:127-129 | without a `web_dir` that is a directory at construction, no request changes the filesystem |
| Properties.HandleChangesOnlyTheCopy | src/AssetsManager.php:157-159 | a request either leaves every file as it was or changes only `webDir . uriPath`, which then holds the served file's contents |
| Properties.CacheCopyMatchesSource | src/AssetsManager.php:158-159 | on a hit with caching enabled and a reachable destination, the copy is byte-identical to the served file, whether or not the body could be written |
| Properties.CacheCreatesSubdirectory | src/AssetsManager.php:247-254 | a request for `/sub/test.css` with web directory `/w` creates the missing `/w/sub` and puts the copy at `/w/sub/test.css` |
| Properties.SubdirectoryCopyLands | src/AssetsManager.php:247-252 | `/w/sub/test.css` has parent `/w/sub`, whose parent `/w` exists, so one `mkdir` suffices for the copy |
| Properties.RepeatedRequestSameFilesystem | src/AssetsManager.php:156-159 | repeating a request whose roots do not overlap the copy leaves the filesystem as the first request left it |
| Properties.CopyInvisibleToSearch | src/AssetsManager.php:156-159 | a copy that is not itself a search candidate changes neither what the request resolves to nor the resolved file's contents |
| Properties.ServedTypeFollowsExtension | src/AssetsManager.php:164-166 | a served `name.ext` with a known extension gets status 200 and the table's type as `Content-Type` |
| Properties.CallerEntryWins | src/AssetsManager.php:132-134 | every entry of a `mime_types` array given at construction is in the middleware's table with the caller's value, whatever the built-in table says |
| Properties.CustomMimeTypeOverrides | src/AssetsManager.php:132-134 | for any caller table given as `mime_types` (such as `['js' => 'mime/type']`), a served `name.ext` whose lower-cased extension the caller lists gets status 200 and the caller's type, not the built-in one |
| Properties.ServesJavaScriptAsset | tests/AssetsManagerTest.php:34-49 | with `paths` a single directory holding `test.js`, a request for `/test.js` answers 200, `application/javascript`, and exactly the file's bytes, without calling `next` |
| Properties.MissingAssetIsNotFound | src/AssetsManager.php:172-176 | with no readable candidate and no `next`, the answer is 404 with reason "<path> not found" and nothing is written |

## Left out

- Real filesystem semantics are left out: permissions beyond `is_writable`
  of the web directory, symbolic links, and races between the checks and
  the writes. The filesystem is a value; `mkdir` and `file_put_contents`
  succeed or fail by the structural conditions in `Files`.
- `file_get_contents` of a readable path that is not a regular file (a
  directory, say) is modelled as reading no bytes. PHP yields no bytes: an empty
  string, or `false`, which is then written as an empty string.
- `finfo_open` / `finfo_file` are an oracle: the `Sniffer` parameter either
  says the fileinfo extension is missing or maps each path to a type.
  `finfo_file` returning `false` is not modelled.
- Mime.DetectMimeType: the returned type is a `string`, so a sniffer result
  of `false` cannot occur.
- `trigger_error` calls (the unwritable web directory and the failed serve)
  only log a notice and are left out. The control flow after them is
  modelled.
- `array_merge` renumbers integer-like keys (e.g. `"123"`). The model's
  `Mime.Merge` treats every key as a string key. Extensions are never
  numeric in practice.
- Non-string option values and PHP's `(string)` cast of `web_dir` are left
  out: options are typed values here.
- `strtolower` is modelled for ASCII letters only. Under a non-C locale,
  PHP before 8.2 also maps some non-ASCII bytes.
- PSR-7 header names are case-insensitive; the model's header map is
  case-sensitive. Only `Content-Type` is ever set.
- `withStatus(200)` with no reason phrase is modelled with reason `""`,
  which stands for the framework's standard phrase.
- An invalid header value making `withHeader` throw
  `InvalidArgumentException` is not modelled. The value is always a MIME
  type string.
- The URI parsing behind `$req->getUri()->getPath()` is not modelled; a
  request is its path.
- Paths are compared as strings. Spellings such as `//`, `/./` or `..` are
  not normalised, so two spellings of one file count as different paths;
  this is what the non-overlap requires of
  `Properties.CopyInvisibleToSearch` and
  `Properties.RepeatedRequestSameFilesystem` compare.
- The caller's own `$res` object is not modelled. In PHP, `rewind()` and
  `write()` (src/AssetsManager.php:162-163) change the body stream that the
  caller's response shares. The model shows the changed stream only in the
  returned response, and on the fallback path through
  `Assets.AfterFailedServe`.
- `callable $next` is a total function value. Exceptions thrown by `next`
  are not modelled.
