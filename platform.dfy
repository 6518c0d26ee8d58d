/**
 * The machine the bot runs on, reduced to what the core observes of it: the
 * local files it writes and how many browser sessions it has launched.
 */
module Platform {

  newtype byte = x: int | 0 <= x < 256

  /**
   * The paths at which `open(path, 'wb')` can create a regular file. The empty
   * name, `.` and `..` never can, and a NUL character makes `open` raise.
   */
  predicate CanOpenForWrite(path: string)
  {
    path != "" && path != "." && path != ".." && '\0' !in path
  }

  class Host {
    var files: map<string, seq<byte>>
    var browsersLaunched: nat

    constructor (files: map<string, seq<byte>>)
      ensures this.files == files && browsersLaunched == 0
    {
      this.files := files;
      browsersLaunched := 0;
    }

    /** `setup_browser()`: one more browser session exists. */
    method SetupBrowser()
      modifies this
      ensures browsersLaunched == old(browsersLaunched) + 1
      ensures files == old(files)
    {
      browsersLaunched := browsersLaunched + 1;
    }

    /** `open(path, 'wb')`: creates the file or truncates it to nothing. */
    method OpenForWrite(path: string) returns (ok: bool)
      modifies this
      ensures ok == CanOpenForWrite(path)
      ensures files == if ok then old(files)[path := []] else old(files)
      ensures browsersLaunched == old(browsersLaunched)
    {
      ok := CanOpenForWrite(path);
      if ok {
        files := files[path := []];
      }
    }

    /** `f.write(data)` on a binary file: appends all of `data` and returns its length. */
    method Write(path: string, data: seq<byte>) returns (size: nat)
      requires path in files
      modifies this
      ensures size == |data|
      ensures files == old(files)[path := old(files)[path] + data]
      ensures browsersLaunched == old(browsersLaunched)
    {
      files := files[path := files[path] + data];
      size := |data|;
    }
  }
}
