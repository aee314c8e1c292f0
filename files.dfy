/** The output directory as the downloader sees it through `std::fs` and the
    `filetime` crate: files addressed by directory and name, each with its
    content and modification time. */
module FileSystem {

  newtype Byte = b: int | 0 <= b < 256

  /** A modification time, as `filetime::FileTime`: seconds and nanoseconds
      since the Unix epoch. */
  datatype Time = Time(seconds: int, nanos: nat)

  datatype FileEntry = FileEntry(content: seq<Byte>, mtime: Time)

  /** A file inside a directory. `Path::join(dir, name)` and
      `format!("{dir}/{name}")` both name `FilePath(dir, name)`; separator
      rules are not modelled. */
  datatype FilePath = FilePath(dir: string, name: string)

  type Files = map<FilePath, FileEntry>

  function Join(base: string, name: string): FilePath {
    FilePath(base, name)
  }

  /** `format!("{path}{suffix}")`: the suffix goes on the file name. */
  function WithSuffix(p: FilePath, suffix: string): FilePath {
    p.(name := p.name + suffix)
  }

  /** The file system the client writes to. A file written during a run gets
      `clock` as its modification time until the time is set explicitly. */
  class Disk {
    var files: Files
    const clock: Time

    constructor (files: Files, clock: Time)
      ensures this.files == files && this.clock == clock
    {
      this.files := files;
      this.clock := clock;
    }

    /** `Path::exists`. */
    predicate Exists(p: FilePath)
      reads this
    {
      p in files
    }

    /** `std::fs::write`: creates or truncates `p`. */
    method Write(p: FilePath, content: seq<Byte>)
      modifies this
      ensures files == old(files)[p := FileEntry(content, clock)]
    {
      files := files[p := FileEntry(content, clock)];
    }

    /** `filetime::set_file_mtime` on an existing file. */
    method SetMtime(p: FilePath, t: Time)
      requires p in files
      modifies this
      ensures files == old(files)[p := old(files)[p].(mtime := t)]
    {
      files := files[p := files[p].(mtime := t)];
    }

    /** `std::fs::remove_file`. */
    method Remove(p: FilePath)
      modifies this
      ensures files == old(files) - {p}
    {
      files := files - {p};
    }
  }
}
