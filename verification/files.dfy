/** An abstract filesystem: the few facts the middleware asks of PHP's
    filesystem functions, held as sets and a map. */
module Files {
  import opened Strings

  newtype byte = b: int | 0 <= b < 256

  /** File contents: PHP strings are byte strings. */
  type Bytes = seq<byte>

  datatype FileSystem = FileSystem(
    readable: set<string>,      // paths for which `is_readable` holds
    dirs: set<string>,          // paths for which `is_dir` holds
    writable: set<string>,      // paths for which `is_writable` holds
    files: map<string, Bytes>   // regular files and their contents
  )

  /** No path is both a regular file and a directory. */
  predicate Valid(fs: FileSystem) {
    fs.files.Keys !! fs.dirs
  }

  /** `file_get_contents` of a path already known to be readable. A readable
      path that is not a regular file reads as empty. */
  function ReadFile(fs: FileSystem, path: string): (data: Bytes)
    ensures path in fs.files ==> data == fs.files[path]
    ensures path !in fs.files ==> data == []
  {
    if path in fs.files then fs.files[path] else []
  }

  /** `mkdir($d)`, non-recursive: it succeeds only when nothing exists at `d`
      and the parent of `d` is a directory; on failure nothing changes. */
  function MakeDir(fs: FileSystem, d: string): (fs': FileSystem)
    ensures fs'.files == fs.files && fs'.writable == fs.writable
    ensures fs'.dirs == fs.dirs || fs'.dirs == fs.dirs + {d}
    ensures fs'.readable <= fs.readable + {d}
    ensures d in fs'.dirs <==> d in fs.dirs || (d !in fs.files && Dirname(d) in fs.dirs)
    ensures Valid(fs) ==> Valid(fs')
  {
    if d !in fs.dirs && d !in fs.files && Dirname(d) in fs.dirs then
      fs.(dirs := fs.dirs + {d}, readable := fs.readable + {d})
    else fs
  }

  /** `file_put_contents($path, $data)`: it succeeds when the parent of
      `path` is a directory and `path` is not one; the file is created or
      truncated and holds exactly `data`. On failure nothing changes. */
  function PutContents(fs: FileSystem, path: string, data: Bytes): (fs': FileSystem)
    ensures fs'.dirs == fs.dirs && fs'.writable == fs.writable
    ensures fs'.readable <= fs.readable + {path}
    ensures fs'.files == fs.files || fs'.files == fs.files[path := data]
    ensures path in fs'.files && fs'.files[path] == data <==>
              (path !in fs.dirs && Dirname(path) in fs.dirs) ||
              (path in fs.files && fs.files[path] == data)
    ensures Valid(fs) ==> Valid(fs')
  {
    if path !in fs.dirs && Dirname(path) in fs.dirs then
      fs.(files := fs.files[path := data], readable := fs.readable + {path})
    else fs
  }

  /** Reading after `file_put_contents`: the target reads as the data when
      the write landed and as before otherwise; every other path reads as
      before. */
  lemma ReadAfterPut(fs: FileSystem, path: string, data: Bytes, other: string)
    ensures ReadFile(PutContents(fs, path, data), path) ==
              if path !in fs.dirs && Dirname(path) in fs.dirs then data else ReadFile(fs, path)
    ensures other != path ==> ReadFile(PutContents(fs, path, data), other) == ReadFile(fs, other)
  {
  }

  /** `mkdir` never changes what any path reads as. */
  lemma ReadAfterMakeDir(fs: FileSystem, d: string, path: string)
    ensures ReadFile(MakeDir(fs, d), path) == ReadFile(fs, path)
  {
  }
}
