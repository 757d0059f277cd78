/**
 * The state of one DependencyRemover (module-remover.js:90-256) as a value,
 * and the effect of each of its asynchronous callbacks as a function on it.
 *
 * Every `fs.readdir` / `fs.stat` call the remover issues leaves an Event in
 * `pending`; the host later runs its callback, which is one step here. Any
 * pending event may fire next, and the filesystem the callback sees is a
 * parameter of the step, so other removers working on the same disk are
 * covered by passing whatever filesystem they left behind.
 */
module DependencyRemoval {
  import opened Paths
  import opened Fs
  import opened Lists

  datatype Event =
    | ListDir(dir: Path)                 // readdir callback of getDirectoryContents(dir)
    | StatEntry(dir: Path, name: string) // stat callback of getFileType(dir, name) and its `.then`
    | CheckEmpty(index: nat)             // readdir callback of removeDirectories(index)

  /** The three rejections the remover's promise can end in. */
  datatype Rejection =
    | MissingDirectory(path: Path, cause: FsError)      // a directory of the tree could not be listed
    | UnreadableEntry(name: string, cause: FsError)     // a stat failed, or a file could not be unlinked
    | EmptinessCheckFailed(path: Path, cause: FsError)  // a collected directory could not be listed

  /** The remover's promise. */
  datatype Status = Pending | Resolved | Rejected(reason: Rejection)

  datatype Option<T> = None | Some(value: T)

  /** A promise settles once: later calls to resolve or reject are ignored. */
  function Settle(status: Status, outcome: Status): (r: Status)
    ensures status.Pending? ==> r == outcome
    ensures !status.Pending? ==> r == status
  {
    if status.Pending? then outcome else status
  }

  datatype Snapshot = Snapshot(
    root: Path,                       // the dependency folder, node_modules/<name>
    worklist: seq<Path>,              // directoriesBeingSearched
    directories: seq<Path>,           // directories found below root, in discovery order
    files: seq<Path>,                 // files found below root, in discovery order
    counts: map<Path, int>,           // each listed directory's `count` of unclassified entries
    listed: map<Path, set<string>>,   // what each directory's listing returned
    pending: set<Event>,              // callbacks the host still owes
    status: Status,
    blocked: set<Path>,               // directories whose search can never finish
    removing: bool)                   // removeFiles has run

  /** `new DependencyRemover(path)`: empty lists, and the search of `path` started. */
  function Initial(root: Path): (s: Snapshot)
    ensures s.worklist == [root] && s.pending == {ListDir(root)}
    ensures s.directories == [] && s.files == [] && s.status == Pending
  {
    Snapshot(root, [root], [], [], map[], map[], {ListDir(root)}, Pending, {}, false)
  }

  /** One stat request per listed entry. */
  function StatEvents(d: Path, names: set<string>): (r: set<Event>)
    ensures forall n :: StatEntry(d, n) in r <==> n in names
    ensures forall e :: e in r ==> e.StatEntry? && e.dir == d
  {
    set n | n in names :: StatEntry(d, n)
  }

  /**
   * The readdir callback of getDirectoryContents(d): on failure the promise is
   * rejected; otherwise `count` is the number of entries and each entry is
   * stat'ed. A directory with no entries is never taken off the worklist.
   */
  function OnListDir(s: Snapshot, d: Path, fs: FileSystem): (r: Snapshot)
    requires ListDir(d) in s.pending
    ensures r.root == s.root && r.removing == s.removing
    ensures r.worklist == s.worklist && r.directories == s.directories && r.files == s.files
    ensures ListDir(d) !in r.pending
    ensures ReadDir(fs, d).Err? ==>
      d in r.blocked && r.status == Settle(s.status, Rejected(MissingDirectory(d, ReadDir(fs, d).error)))
    ensures ReadDir(fs, d).Ok? ==>
      && r.status == s.status
      && r.counts == s.counts[d := |ReadDir(fs, d).value|]
      && r.listed == s.listed[d := ReadDir(fs, d).value]
      && (forall n :: StatEntry(d, n) in r.pending <==> n in ReadDir(fs, d).value || StatEntry(d, n) in s.pending)
    ensures ReadDir(fs, d) == Ok({}) ==> d in r.blocked
  {
    var pending := s.pending - {ListDir(d)};
    match ReadDir(fs, d)
    case Err(e) =>
      s.(pending := pending,
         status := Settle(s.status, Rejected(MissingDirectory(d, e))),
         blocked := s.blocked + {d})
    case Ok(names) =>
      s.(pending := pending + StatEvents(d, names),
         counts := s.counts[d := |names|],
         listed := s.listed[d := names],
         blocked := if names == {} then s.blocked + {d} else s.blocked)
  }

  /**
   * The stat callback of getFileType(d, n) together with the `.then` of
   * getDirectoryContents that consumes its answer: a directory is pushed on
   * the worklist (and its search started) before `count` goes down; the entry
   * joins `directories` or `files`; at zero, `d` leaves the worklist.
   */
  function Classify(s: Snapshot, d: Path, n: string, fs: FileSystem): (r: Snapshot)
    requires StatEntry(d, n) in s.pending && d in s.counts
    ensures StatEntry(d, n) !in r.pending
    ensures r.root == s.root && r.removing == s.removing && r.listed == s.listed
    ensures Stat(fs, Join(d, n)).Err? ==>
      && d in r.blocked
      && r.status == Settle(s.status, Rejected(UnreadableEntry(n, Stat(fs, Join(d, n)).error)))
      && r.worklist == s.worklist && r.directories == s.directories && r.files == s.files
    ensures Stat(fs, Join(d, n)).Ok? ==> r.status == s.status && r.counts == s.counts[d := s.counts[d] - 1]
    ensures Stat(fs, Join(d, n)) == Ok(true) ==>
      && r.directories == s.directories + [Join(d, n)] && r.files == s.files
      && ListDir(Join(d, n)) in r.pending
    ensures Stat(fs, Join(d, n)) == Ok(false) ==>
      r.files == s.files + [Join(d, n)] && r.directories == s.directories
  {
    var p := Join(d, n);
    var pending := s.pending - {StatEntry(d, n)};
    match Stat(fs, p)
    case Err(e) =>
      s.(pending := pending,
         status := Settle(s.status, Rejected(UnreadableEntry(n, e))),
         blocked := s.blocked + {d})
    case Ok(isDirectory) =>
      var worklist := if isDirectory then s.worklist + [p] else s.worklist;
      var count := s.counts[d] - 1;
      s.(worklist := if count == 0 then SpliceOne(worklist, IndexOf(worklist, d)) else worklist,
         directories := if isDirectory then s.directories + [p] else s.directories,
         files := if isDirectory then s.files else s.files + [p],
         counts := s.counts[d := count],
         pending := if isDirectory then pending + {ListDir(p)} else pending)
  }

  /** The forEach of removeFiles: unlink in order, stopping at the first failure. */
  function UnlinkAll(fs: FileSystem, files: seq<Path>): (r: (FileSystem, Option<FsError>))
    ensures r.0.dirs == fs.dirs && r.0.files <= fs.files
    ensures fs.files - (set p | p in files) <= r.0.files
    ensures r.1.None? ==> r.0.files == fs.files - set p | p in files
    ensures Distinct(files) && (forall p :: p in files ==> p in fs.files) ==> r.1.None?
    decreases |files|
  {
    if files == [] then (fs, None)
    else match Unlink(fs, files[0])
      case Err(e) => (fs, Some(e))
      case Ok(fs') =>
        var r := UnlinkAll(fs', files[1..]);
        assert forall p :: p in files <==> p == files[0] || p in files[1..];
        r
  }

  /**
   * removeFiles: every collected file is unlinked before any directory is
   * looked at; then the promise resolves if no directory was found, and
   * removeDirectories(0) starts otherwise. An unlink that throws lands in the
   * `.catch` of the entry `n` whose callback called removeFiles.
   */
  function StartRemoval(s: Snapshot, fs: FileSystem, n: string): (r: (Snapshot, FileSystem))
    ensures r.0.removing && r.0.root == s.root && r.0.worklist == s.worklist
    ensures r.0.directories == s.directories && r.0.files == s.files
    // only collected files are deleted, and no directory is
    ensures r.1.dirs == fs.dirs
    ensures forall p :: p in fs.files && p !in r.1.files ==> p in s.files
    // the directory pass starts only once every collected file is gone
    ensures CheckEmpty(0) in r.0.pending - s.pending ==> forall p :: p in s.files ==> p !in r.1.files
    ensures r.0.pending <= s.pending + {CheckEmpty(0)}
    ensures s.status.Pending? && r.0.status.Rejected? ==> r.0.status.reason == UnreadableEntry(n, r.0.status.reason.cause)
    // collected files that are all still there are all deleted, and the outcome depends on directories alone
    ensures s.status.Pending? && Distinct(s.files) && (forall p :: p in s.files ==> p in fs.files) ==>
      && !r.0.status.Rejected?
      && (r.0.status.Resolved? <==> s.directories == [])
      && (CheckEmpty(0) in r.0.pending <==> s.directories != [] || CheckEmpty(0) in s.pending)
  {
    var (fs', failure) := UnlinkAll(fs, s.files);
    var s' := s.(removing := true);
    if failure.Some? then
      (s'.(status := Settle(s.status, Rejected(UnreadableEntry(n, failure.value)))), fs')
    else if s.directories == [] then
      (s'.(status := Settle(s.status, Resolved)), fs')
    else
      (s'.(pending := s.pending + {CheckEmpty(0)}), fs')
  }

  /** A stat callback, including the removeFiles it triggers once the worklist is empty. */
  function OnStat(s: Snapshot, d: Path, n: string, fs: FileSystem): (r: (Snapshot, FileSystem))
    requires StatEntry(d, n) in s.pending && d in s.counts
    ensures r.0.root == s.root
    ensures Stat(fs, Join(d, n)).Err? ==> r == (Classify(s, d, n, fs), fs)
    // removal starts on the stat that empties the worklist, and deletes nothing before
    ensures r.0.removing <==>
      s.removing || (Stat(fs, Join(d, n)).Ok? && s.counts[d] == 1 && Classify(s, d, n, fs).worklist == [])
    ensures r.1 != fs ==> r.0.worklist == [] && r.0.removing
    ensures r.1.dirs == fs.dirs
    ensures forall p :: p in fs.files && p !in r.1.files ==> p in r.0.files
  {
    var s' := Classify(s, d, n, fs);
    if Stat(fs, Join(d, n)).Ok? && s'.counts[d] == 0 && s'.worklist == [] then StartRemoval(s', fs, n)
    else (s', fs)
  }

  /**
   * checkIfEmptyDirectory(d): whether a listing of `d` is empty, or the
   * reason it cannot be listed.
   */
  function CheckIfEmptyDirectory(fs: FileSystem, d: Path): (r: Result<bool>)
    ensures r.Ok? <==> d in fs.dirs
    ensures r == Ok(true) <==> ReadDir(fs, d) == Ok({})
    ensures r == Ok(true) <==> Rmdir(fs, d).Ok?
  {
    match ReadDir(fs, d)
    case Err(e) => Err(e)
    case Ok(names) => Ok(|names| == 0)
  }

  /**
   * The readdir callback of removeDirectories(i): an empty directory is
   * removed and spliced out, and the pass restarts at 0 (or the promise
   * resolves when none is left); a non-empty one is skipped, wrapping to 0
   * at the end of the list. The rmdirSync runs in the same step as the
   * listing that found the directory empty, so on this disk it succeeds.
   */
  function OnCheckEmpty(s: Snapshot, i: nat, fs: FileSystem): (r: (Snapshot, FileSystem))
    requires CheckEmpty(i) in s.pending && i < |s.directories|
    ensures r.0.root == s.root && r.0.worklist == s.worklist && r.0.files == s.files
    ensures r.0.removing == s.removing
    // no file is touched; the only directory removed is the one checked, and only when it was empty
    ensures r.1.files == fs.files && r.1.dirs <= fs.dirs
    ensures forall q :: q in fs.dirs && q !in r.1.dirs ==> q == s.directories[i] && ReadDir(fs, q) == Ok({})
    ensures r.0.directories == if r.1 == fs then s.directories else SpliceOne(s.directories, i)
    ensures s.status.Pending? ==> (r.0.status.Rejected? <==> s.directories[i] !in fs.dirs)
    ensures s.status.Pending? && r.0.status.Resolved? ==> r.0.directories == []
  {
    var d := s.directories[i];
    var pending := s.pending - {CheckEmpty(i)};
    match CheckIfEmptyDirectory(fs, d)
    case Err(e) =>
      (s.(pending := pending, status := Settle(s.status, Rejected(EmptinessCheckFailed(d, e)))), fs)
    case Ok(isEmpty) =>
      if isEmpty then
        var fs' := Rmdir(fs, d).value;
        var rest := SpliceOne(s.directories, i);
        if rest != [] then (s.(directories := rest, pending := pending + {CheckEmpty(0)}), fs')
        else (s.(directories := rest, pending := pending, status := Settle(s.status, Resolved)), fs')
      else
        var next := i + 1;
        (s.(pending := pending + {CheckEmpty(if next == |s.directories| then 0 else next)}), fs)
  }
}
