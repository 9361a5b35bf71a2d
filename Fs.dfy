/** The part of the file system that the converters read and change: text files by
    path and a set of directories. Paths are the strings the programs pass to the
    operating system; the empty directory name stands for the working directory,
    which always exists. */
module Fs {
  import opened PyPath

  datatype FileSystem = FileSystem(files: map<string, string>, dirs: set<string>)

  /** The result of a call that may raise an exception. */
  datatype Raise<T> = Ok(value: T) | Raised

  /** `os.path.exists(p)`. */
  predicate Exists(fs: FileSystem, p: string) {
    p in fs.files || p in fs.dirs
  }

  /** Whether the directory a new entry `p` would go into exists. */
  predicate ParentIsDir(fs: FileSystem, p: string) {
    Dirname(p) == "" || Dirname(p) in fs.dirs
  }

  /** `open(p, 'r').read()`: only a regular file can be read. */
  function ReadText(fs: FileSystem, p: string): Raise<string> {
    if p in fs.files then Ok(fs.files[p]) else Raised
  }

  /** Whether `open(p, 'wb')` succeeds: `p` is not a directory and its parent is. */
  predicate CanOpenForWrite(fs: FileSystem, p: string) {
    p !in fs.dirs && ParentIsDir(fs, p)
  }

  /** The file system after `p` has been given the content `data`. */
  function WriteFile(fs: FileSystem, p: string, data: string): FileSystem {
    fs.(files := fs.files[p := data])
  }

  /** Writing a file again replaces what the first write left. */
  lemma {:induction false} WriteFileTwice(fs: FileSystem, p: string, a: string, b: string)
    ensures WriteFile(WriteFile(fs, p, a), p, b) == WriteFile(fs, p, b)
  {
    assert fs.files[p := a][p := b] == fs.files[p := b];
  }

  /** `os.mkdir(d)`: fails when `d` exists, is empty, or its parent is no directory. */
  function Mkdir(fs: FileSystem, d: string): (r: Raise<FileSystem>)
    ensures r.Ok? <==> d != "" && !Exists(fs, d) && ParentIsDir(fs, d)
    ensures r.Ok? ==> r.value == fs.(dirs := fs.dirs + {d})
  {
    if d == "" || Exists(fs, d) || !ParentIsDir(fs, d) then Raised
    else Ok(fs.(dirs := fs.dirs + {d}))
  }

  /** A directory `os.mkdir` has created cannot be created again, and creating it
      touched no file. */
  lemma {:induction false} MkdirOnce(fs: FileSystem, d: string)
    requires Mkdir(fs, d).Ok?
    ensures Mkdir(Mkdir(fs, d).value, d) == Raised
    ensures Mkdir(fs, d).value.files == fs.files
    ensures d in Mkdir(fs, d).value.dirs && fs.dirs <= Mkdir(fs, d).value.dirs
  {
  }

  /** `os.makedirs(d, exist_ok=existOk)`: missing ancestors are created first, then
      `d`; an existing directory is an error unless `existOk`. */
  function MakeDirs(fs: FileSystem, d: string, existOk: bool): Raise<FileSystem>
    decreases |d|
  {
    var head := Dirname(d);
    if d in fs.dirs then (if existOk then Ok(fs) else Raised)
    else if head != "" && head != d && !Exists(fs, head) then
      match MakeDirs(fs, head, existOk)
      case Raised => Raised
      case Ok(fs1) => Mkdir(fs1, d)
    else Mkdir(fs, d)
  }

  /** `Path(d).mkdir(exist_ok=existOk)` without `parents`: only `d` itself is
      created. */
  function PathMkdir(fs: FileSystem, d: string, existOk: bool): Raise<FileSystem> {
    if d in fs.dirs then (if existOk then Ok(fs) else Raised) else Mkdir(fs, d)
  }

  /** `os.makedirs` only ever adds directories: on success `d` is a directory,
      no file changes and no directory disappears. */
  lemma {:induction false} MakeDirsGrows(fs: FileSystem, d: string, existOk: bool)
    requires MakeDirs(fs, d, existOk).Ok?
    ensures var fs1 := MakeDirs(fs, d, existOk).value;
      fs1.files == fs.files && fs.dirs <= fs1.dirs && d in fs1.dirs
    decreases |d|
  {
    var head := Dirname(d);
    if d !in fs.dirs && head != "" && head != d && !Exists(fs, head) {
      MakeDirsGrows(fs, head, existOk);
    }
  }

  /** With `exist_ok=True` an existing directory is accepted and nothing changes,
      and a missing one whose parent exists is created; so calling it twice is the
      same as calling it once. */
  lemma {:induction false} MakeDirsExistOk(fs: FileSystem, d: string)
    ensures d in fs.dirs ==> MakeDirs(fs, d, true) == Ok(fs)
    ensures d != "" && !Exists(fs, d) && ParentIsDir(fs, d) ==>
      MakeDirs(fs, d, true) == Ok(fs.(dirs := fs.dirs + {d}))
    ensures MakeDirs(fs, d, true).Ok? ==>
      MakeDirs(MakeDirs(fs, d, true).value, d, true) == MakeDirs(fs, d, true)
  {
    if MakeDirs(fs, d, true).Ok? {
      MakeDirsGrows(fs, d, true);
    }
  }

  /** Without `exist_ok`, an existing directory is an error. */
  lemma {:induction false} MakeDirsExisting(fs: FileSystem, d: string)
    requires d in fs.dirs
    ensures MakeDirs(fs, d, false) == Raised
  {
  }

  /** `Path.mkdir(exist_ok=True)` accepts an existing directory, creates a missing
      one whose parent exists, and is idempotent. */
  lemma {:induction false} PathMkdirExistOk(fs: FileSystem, d: string)
    ensures d in fs.dirs ==> PathMkdir(fs, d, true) == Ok(fs)
    ensures d != "" && !Exists(fs, d) && ParentIsDir(fs, d) ==>
      PathMkdir(fs, d, true) == Ok(fs.(dirs := fs.dirs + {d}))
    ensures PathMkdir(fs, d, true).Ok? ==>
      var fs1 := PathMkdir(fs, d, true).value;
      fs1.files == fs.files && d in fs1.dirs && PathMkdir(fs1, d, true) == Ok(fs1)
  {
  }
}
