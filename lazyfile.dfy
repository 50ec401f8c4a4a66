/** `LazyFile`: a path whose text is read on first request and kept. */
module LazyFiles {
  import opened Wrappers
  import opened Errors

  /** The readable text files: the text of each path that can be read. A
      path that is not a key cannot be read. */
  type FileSystem = map<string, string>

  /** Reading `path` from `fs` directly, without any cache. */
  function ReadFs(fs: FileSystem, path: string): (r: Result<string, Error>)
    ensures r.Ok? <==> path in fs
    ensures r.Ok? ==> r.value == fs[path]
    ensures r.Err? ==> r.error == ReadFailed(path)
  {
    if path in fs then Ok(fs[path]) else Err(ReadFailed(path))
  }

  class LazyFile {
    /** File path to read from, stored as given. */
    const path: string
    /** The text read by the first successful `content` access. */
    var cache: Option<string>

    /** Checking whether the file exists has no effect: the constructor never
        fails and reads nothing. */
    constructor(path: string)
      ensures this.path == path && cache == None
    {
      this.path := path;
      cache := None;
    }

    /** What a `content` access yields in file system `fs`: the cached text
        if there is one, otherwise the result of reading `path`. */
    function Current(fs: FileSystem): Result<string, Error>
      reads this
    {
      match cache
      case Some(text) => Ok(text)
      case None => ReadFs(fs, path)
    }

    /** The `content` getter. The file is read only while nothing is cached;
        once a read succeeds its text is returned by every later access,
        whatever the file system then holds. A failed read caches nothing. */
    method Content(fs: FileSystem) returns (r: Result<string, Error>)
      modifies this
      ensures r == old(Current(fs))
      ensures old(cache).Some? ==> cache == old(cache)
      ensures old(cache).None? ==> cache == (if path in fs then Some(fs[path]) else None)
      ensures r.Ok? ==> cache == Some(r.value)
      ensures Current(fs) == old(Current(fs))
    {
      if cache.None? {
        if path !in fs {
          return Err(ReadFailed(path));
        }
        cache := Some(fs[path]);
      }
      r := Ok(cache.value);
    }
  }

  /** Reading twice: the second access returns what the first returned,
      even if the file changed on disk in between. */
  method ReadTwice(f: LazyFile, before: FileSystem, after: FileSystem) returns (first: Result<string, Error>, second: Result<string, Error>)
    modifies f
    ensures first == old(f.Current(before))
    ensures first.Ok? ==> second == first
    ensures first.Err? ==> second == f.Current(after)
  {
    first := f.Content(before);
    second := f.Content(after);
  }
}
