/**
 * The part of the host filesystem the remover touches, as a value: the set of
 * file paths and the set of directory paths. `fs.readdir`, `fs.stat`,
 * `fs.unlinkSync` and `fs.rmdirSync` become queries and updates on it.
 */
module Fs {
  import opened Paths

  /** Why a filesystem call fails (ENOENT, ENOTDIR, EISDIR, ENOTEMPTY). */
  datatype FsError = NoEntry | NotDirectory | IsDirectory | NotEmpty

  datatype Result<T> = Ok(value: T) | Err(error: FsError)

  datatype FileSystem = FileSystem(files: set<Path>, dirs: set<Path>)
  {
    function Entries(): set<Path> {
      files + dirs
    }
  }

  /**
   * A filesystem shaped like a tree: nothing is both a file and a directory,
   * and every entry whose path has a '/' has a proper name and sits inside an
   * existing directory.
   */
  ghost predicate WellFormed(fs: FileSystem) {
    && fs.files !! fs.dirs
    && forall p | p in fs.Entries() && HasParent(p) :: IsName(BaseName(p)) && Parent(p) in fs.dirs
  }

  /** The names of the entries directly inside `d`. */
  function Names(fs: FileSystem, d: Path): set<string> {
    set p | p in fs.Entries() && HasParent(p) && Parent(p) == d && IsName(BaseName(p)) :: BaseName(p)
  }

  /** `fs.readdir(d)`: the names of `d`'s entries, or why it cannot be listed. */
  function ReadDir(fs: FileSystem, d: Path): (r: Result<set<string>>)
    ensures r.Ok? <==> d in fs.dirs
    ensures r.Err? ==> (r.error == NotDirectory <==> d in fs.files)
  {
    if d in fs.dirs then Ok(Names(fs, d))
    else if d in fs.files then Err(NotDirectory)
    else Err(NoEntry)
  }

  /** `fs.stat(p)` followed by `stats.isDirectory()`. */
  function Stat(fs: FileSystem, p: Path): (r: Result<bool>)
    ensures r == Ok(true) <==> p in fs.dirs
    ensures r == Ok(false) <==> p in fs.files && p !in fs.dirs
  {
    if p in fs.dirs then Ok(true)
    else if p in fs.files then Ok(false)
    else Err(NoEntry)
  }

  /** `fs.unlinkSync(p)`: only a file can be unlinked, and only it disappears. */
  function Unlink(fs: FileSystem, p: Path): (r: Result<FileSystem>)
    ensures r.Ok? <==> p in fs.files
    ensures r.Ok? ==> r.value.files == fs.files - {p} && r.value.dirs == fs.dirs
  {
    if p in fs.files then Ok(fs.(files := fs.files - {p}))
    else if p in fs.dirs then Err(IsDirectory)
    else Err(NoEntry)
  }

  /**
   * `fs.rmdirSync(d)`: succeeds exactly when a listing of `d` would come back
   * empty, and then removes `d` alone.
   */
  function Rmdir(fs: FileSystem, d: Path): (r: Result<FileSystem>)
    ensures r.Ok? <==> ReadDir(fs, d) == Ok({})
    ensures r.Err? && d in fs.dirs ==> r.error == NotEmpty
    ensures r.Ok? ==> r.value.files == fs.files && r.value.dirs == fs.dirs - {d}
  {
    if d !in fs.dirs then (if d in fs.files then Err(NotDirectory) else Err(NoEntry))
    else if Names(fs, d) != {} then Err(NotEmpty)
    else Ok(fs.(dirs := fs.dirs - {d}))
  }

  /** A listing names exactly the entries whose path is `d + "/" + name`. */
  lemma ListingIsExact(fs: FileSystem, d: Path)
    ensures forall n {:trigger n in Names(fs, d)} :: n in Names(fs, d) <==> IsName(n) && Join(d, n) in fs.Entries()
  {
    forall n | n in Names(fs, d)
      ensures IsName(n) && Join(d, n) in fs.Entries()
    {
      var p :| p in fs.Entries() && HasParent(p) && Parent(p) == d && IsName(BaseName(p)) && BaseName(p) == n;
      SplitJoins(p);
    }
    forall n | IsName(n) && Join(d, n) in fs.Entries()
      ensures n in Names(fs, d)
    {
      JoinSplits(d, n);
    }
  }

  /** In a tree, a directory lists nothing exactly when nothing lies below it. */
  lemma {:induction false} EmptyIffNothingBelow(fs: FileSystem, d: Path)
    requires WellFormed(fs)
    ensures Names(fs, d) == {} <==> forall p :: p in fs.Entries() ==> !Below(p, d)
  {
    if Names(fs, d) == {} {
      forall p | p in fs.Entries()
        ensures !Below(p, d)
      {
        if Below(p, d) {
          NothingBelowEmpty(fs, d, p);
        }
      }
    } else {
      var n :| n in Names(fs, d);
      ListingIsExact(fs, d);
      JoinBelow(d, n, d);
    }
  }

  /** Helper: an entry below `d` forces some entry directly inside `d`. */
  lemma {:induction false} NothingBelowEmpty(fs: FileSystem, d: Path, p: Path)
    requires WellFormed(fs)
    requires p in fs.Entries() && Below(p, d)
    ensures Names(fs, d) != {}
    decreases |p|
  {
    ParentBelow(p, d);
    if Parent(p) == d {
      assert BaseName(p) in Names(fs, d);
    } else {
      NothingBelowEmpty(fs, d, Parent(p));
    }
  }

  /** Removing an empty directory keeps the filesystem a tree. */
  lemma RmdirKeepsWellFormed(fs: FileSystem, d: Path)
    requires WellFormed(fs) && Rmdir(fs, d).Ok?
    ensures WellFormed(Rmdir(fs, d).value)
  {
    var fs' := Rmdir(fs, d).value;
    forall p | p in fs'.Entries() && HasParent(p)
      ensures IsName(BaseName(p)) && Parent(p) in fs'.dirs
    {
      assert p in fs.Entries();
      assert BaseName(p) in Names(fs, Parent(p));
    }
  }
}
