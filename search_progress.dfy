/**
 * The search of a DependencyRemover (module-remover.js:108-187) keeps going
 * while no directory is blocked: every unblocked directory on the worklist
 * still has a callback owed. On a disk nobody else changes, each callback
 * does one unit of the work left, so on a tree without empty directories
 * every order of callbacks reaches removeFiles, and the remover then
 * resolves with everything below its folder gone.
 */
module SearchProgress {
  import opened Paths
  import opened Fs
  import opened DependencyRemoval
  import opened ScanInvariant
  import opened RemovalInvariant
  import opened DirectoryPass
  import opened SearchOutcome

  /**
   * A directory on the worklist that is not blocked still has its callbacks
   * owed: its listing, or one stat for each unsorted entry; and a directory
   * with a non-empty listing stays on the worklist only while some of its
   * entries are unsorted.
   */
  ghost predicate Owed(s: Snapshot) {
    ListingsOwed(s) && StatsOwed(s) && UnsortedLeft(s)
  }

  ghost predicate ListingsOwed(s: Snapshot) {
    forall d :: d in s.worklist && d !in s.listed && d !in s.blocked ==> ListDir(d) in s.pending
  }

  ghost predicate StatsOwed(s: Snapshot) {
    forall d :: d in s.worklist && d in s.listed && d !in s.blocked ==>
      PendingNames(s.pending, d) == Unclassified(s, d)
  }

  ghost predicate UnsortedLeft(s: Snapshot) {
    forall d :: d in s.worklist && d in s.listed && s.listed[d] != {} ==> Unclassified(s, d) != {}
  }

  lemma InitialOwed(root: Path)
    ensures Owed(Initial(root))
  {
  }

  /** An unblocked directory on the worklist always has a callback owed. */
  lemma UnblockedDirectoryOwesCallback(s: Snapshot, d: Path)
    requires ScanInv(s) && Owed(s) && d in s.worklist && d !in s.blocked
    ensures s.pending != {}
  {
    if d in s.listed {
      assert s.listed[d] != {};
      var m :| m in Unclassified(s, d);
      assert m in PendingNames(s.pending, d);
    } else {
      assert ListDir(d) in s.pending;
    }
  }

  /**
   * A search that owes no callback and has nothing blocked has emptied its
   * worklist: it can only be waiting because of a failure or an empty
   * directory.
   */
  lemma QuietSearchIsDone(s: Snapshot)
    requires ScanInv(s) && Owed(s) && s.pending == {} && s.blocked == {}
    ensures s.worklist == []
  {
    if s.worklist != [] {
      UnblockedDirectoryOwesCallback(s, s.worklist[0]);
    }
  }

  /** The readdir callback keeps the owed callbacks in step, on any disk. */
  lemma ListDirKeepsOwed(s: Snapshot, d: Path, fs: FileSystem)
    requires ScanInv(s) && Owed(s) && ListDir(d) in s.pending
    ensures Owed(OnListDir(s, d, fs))
  {
    var r := OnListDir(s, d, fs);
    assert d in s.worklist && d !in s.listed && d !in s.blocked;
    assert PendingNames(s.pending, d) == {};
    match ReadDir(fs, d)
    case Err(_) =>
      forall q
        ensures PendingNames(r.pending, q) == PendingNames(s.pending, q)
      {
      }
      forall q | q in s.listed
        ensures Unclassified(r, q) == Unclassified(s, q)
      {
      }
    case Ok(names) =>
      forall n | n in names
        ensures !Classified(s, Join(d, n))
      {
        ListingIsExact(fs, d);
        JoinSplits(d, n);
      }
      ListDirOwed(s, r, d, names);
  }

  /** Helper: a successful listing owes one stat per listed name. */
  lemma ListDirOwed(s: Snapshot, r: Snapshot, d: Path, names: set<string>)
    requires Owed(s) && d in s.worklist && d !in s.listed && d !in s.blocked
    requires PendingNames(s.pending, d) == {}
    requires forall n :: n in names ==> !Classified(s, Join(d, n))
    requires r == s.(pending := s.pending - {ListDir(d)} + StatEvents(d, names),
                     counts := s.counts[d := |names|],
                     listed := s.listed[d := names],
                     blocked := if names == {} then s.blocked + {d} else s.blocked)
    ensures Owed(r)
  {
    forall q
      ensures PendingNames(r.pending, q) == if q == d then names else PendingNames(s.pending, q)
    {
      PendingNamesAfterListing(s.pending, d, names, q);
    }
    forall q | q in s.listed
      ensures Unclassified(r, q) == Unclassified(s, q)
    {
    }
    assert Unclassified(r, d) == names;
  }

  /** Helper: a listing of `d` adds exactly its names to the stats owed for `d`. */
  lemma PendingNamesAfterListing(pending: set<Event>, d: Path, names: set<string>, q: Path)
    ensures PendingNames(pending - {ListDir(d)} + StatEvents(d, names), q)
         == PendingNames(pending, q) + (if q == d then names else {})
  {
    var pending' := pending - {ListDir(d)} + StatEvents(d, names);
    forall m | m in PendingNames(pending', q)
      ensures m in PendingNames(pending, q) + (if q == d then names else {})
    {
      var e :| e in pending' && e.StatEntry? && e.dir == q && e.name == m;
      if e !in pending {
        assert e in StatEvents(d, names);
      }
    }
    forall m | m in PendingNames(pending, q) + (if q == d then names else {})
      ensures m in PendingNames(pending', q)
    {
      if m in PendingNames(pending, q) {
        var e :| e in pending && e.StatEntry? && e.dir == q && e.name == m;
        assert e in pending';
      } else {
        assert StatEntry(d, m) in pending';
      }
    }
  }

  /** A stat callback keeps the owed callbacks in step, on any disk. */
  lemma ClassifyKeepsOwed(s: Snapshot, d: Path, n: string, fs: FileSystem)
    requires ScanInv(s) && Owed(s) && StatEntry(d, n) in s.pending
    ensures Owed(Classify(s, d, n, fs))
  {
    var r := Classify(s, d, n, fs);
    var p := Join(d, n);
    ClassifyFacts(s, d, n);
    if Stat(fs, p).Err? {
      PendingAfterSort(s.pending, r.pending, d, n, {});
      ClassifyFailureOwed(s, r, d, n);
    } else {
      StatSuccessShape(s, d, n, fs);
      UnclassifiedAfterSort(s, r, d, n);
      PendingAfterSort(s.pending, r.pending, d, n, if Stat(fs, p).value then {ListDir(p)} else {});
      ClassifyOwed(s, r, d, n, Stat(fs, p).value);
    }
  }

  /** Helper: a failed stat blocks `d`, so only `d` may lose an owed stat. */
  lemma ClassifyFailureOwed(s: Snapshot, r: Snapshot, d: Path, n: string)
    requires Owed(s)
    requires r.worklist == s.worklist && r.listed == s.listed && r.blocked == s.blocked + {d}
    requires r.directories == s.directories && r.files == s.files
    requires forall q :: PendingNames(r.pending, q) == if q == d then PendingNames(s.pending, q) - {n} else PendingNames(s.pending, q)
    requires forall q :: ListDir(q) in s.pending ==> ListDir(q) in r.pending
    ensures Owed(r)
  {
    forall q | q in s.listed
      ensures Unclassified(r, q) == Unclassified(s, q)
    {
    }
  }

  /** Helper: sorting `d/n` owes the listing of a new directory and one stat fewer for `d`. */
  lemma ClassifyOwed(s: Snapshot, r: Snapshot, d: Path, n: string, isDirectory: bool)
    requires Owed(s) && CountsMatch(s) && BlockedStuck(s) && d in s.listed && n in Unclassified(s, d)
    requires Join(d, n) !in s.worklist && Join(d, n) !in s.listed
    requires r.listed == s.listed && r.blocked == s.blocked
    requires r.pending == s.pending - {StatEntry(d, n)} + (if isDirectory then {ListDir(Join(d, n))} else {})
    requires forall q :: q in r.worklist <==> (q in s.worklist || (isDirectory && q == Join(d, n))) && (q != d || s.counts[d] - 1 != 0)
    requires forall q :: q in s.listed ==> Unclassified(r, q) == if q == d then Unclassified(s, q) - {n} else Unclassified(s, q)
    requires forall q :: PendingNames(r.pending, q) == if q == d then PendingNames(s.pending, q) - {n} else PendingNames(s.pending, q)
    ensures Owed(r)
  {
    assert ListingsOwed(r);
    assert StatsOwed(r);
    SortLeavesUnsorted(s, r, d, n, Join(d, n));
  }

  /** Helper: `d` stays on the worklist only while its count, the number of unsorted entries, is not zero. */
  lemma SortLeavesUnsorted(s: Snapshot, r: Snapshot, d: Path, n: string, p: Path)
    requires UnsortedLeft(s) && d in s.listed && n in Unclassified(s, d)
    requires d in s.counts && s.counts[d] == |Unclassified(s, d)|
    requires p !in s.listed && r.listed == s.listed
    requires forall q :: q in r.worklist ==> q in s.worklist || q == p
    requires d in r.worklist ==> s.counts[d] - 1 != 0
    requires forall q :: q in s.listed ==> Unclassified(r, q) == if q == d then Unclassified(s, q) - {n} else Unclassified(s, q)
    ensures UnsortedLeft(r)
  {
    if d in r.worklist {
      assert Unclassified(s, d) == Unclassified(r, d) + {n};
      assert |Unclassified(r, d)| == s.counts[d] - 1;
    }
  }

  /** Every directory at or below the folder lists something. */
  ghost predicate NoEmptyDirectory(fs: FileSystem, root: Path) {
    forall e :: e in fs.dirs && (e == root || Below(e, root)) ==> Names(fs, e) != {}
  }

  /** What a search on the undisturbed disk `fs` carries from one callback to the next. */
  ghost predicate SearchReady(s: Snapshot, fs: FileSystem) {
    && ScanInv(s) && Owed(s) && Agrees(s, fs) && WellFormed(fs)
    && s.root in fs.dirs && NoEmptyDirectory(fs, s.root)
    && s.blocked == {} && s.worklist != []
  }

  /** The entries below the folder that are not sorted yet. */
  ghost function Unsorted(s: Snapshot, fs: FileSystem): set<Path> {
    set p | p in fs.Entries() && Below(p, s.root) && !Classified(s, p)
  }

  /** The directories at or below the folder that are not listed yet. */
  ghost function Unlisted(s: Snapshot, fs: FileSystem): set<Path> {
    set p | p in fs.dirs && (p == s.root || Below(p, s.root)) && p !in s.listed
  }

  /** The search work left: every callback of an undisturbed search does one unit of it. */
  ghost function SearchLeft(s: Snapshot, fs: FileSystem): nat {
    |Unsorted(s, fs)| + |Unlisted(s, fs)|
  }

  /** Helper: a set that loses a member gets smaller. */
  lemma LoseOne<T>(a: set<T>, b: set<T>, x: T)
    requires x in a && b == a - {x}
    ensures |b| < |a|
  {
    assert a == b + {x};
  }

  /** Helper: an unblocked directory on the worklist exists on the disk, at or below the folder. */
  lemma WorklistOnDisk(s: Snapshot, fs: FileSystem, d: Path)
    requires ScanInv(s) && Agrees(s, fs) && s.root in fs.dirs && d in s.worklist
    ensures d in fs.dirs && (d == s.root || Below(d, s.root))
  {
    if d != s.root {
      assert Classified(s, d);
    }
  }

  /** On an undisturbed disk a readdir callback of the search does one unit of work. */
  lemma ListDirProgresses(s: Snapshot, d: Path, fs: FileSystem)
    requires SearchReady(s, fs) && ListDir(d) in s.pending
    ensures SearchReady(OnListDir(s, d, fs), fs)
    ensures SearchLeft(OnListDir(s, d, fs), fs) < SearchLeft(s, fs)
  {
    assert d in s.worklist && d !in s.listed;
    WorklistOnDisk(s, fs, d);
    ListDirKeepsReady(s, d, fs);
    ListShrinks(s, OnListDir(s, d, fs), d, Names(fs, d), fs);
  }

  /** Helper: on an undisturbed tree without empty directories, a listing blocks nothing. */
  lemma ListDirKeepsReady(s: Snapshot, d: Path, fs: FileSystem)
    requires SearchReady(s, fs) && ListDir(d) in s.pending
    requires d in fs.dirs && (d == s.root || Below(d, s.root))
    ensures SearchReady(OnListDir(s, d, fs), fs)
    ensures OnListDir(s, d, fs).listed == s.listed[d := Names(fs, d)]
  {
    assert ReadDir(fs, d) == Ok(Names(fs, d)) && Names(fs, d) != {};
    OnListDirKeepsScanInv(s, d, fs);
    ListDirKeepsOwed(s, d, fs);
    OnListDirKeepsAgreement(s, d, fs);
  }

  /** Helper: listing a directory at or below the folder takes one unit off the work left. */
  lemma ListShrinks(s: Snapshot, r: Snapshot, d: Path, names: set<string>, fs: FileSystem)
    requires d in fs.dirs && (d == s.root || Below(d, s.root)) && d !in s.listed
    requires r.root == s.root && r.directories == s.directories && r.files == s.files
    requires r.listed == s.listed[d := names]
    ensures SearchLeft(r, fs) < SearchLeft(s, fs)
  {
    assert Unsorted(r, fs) == Unsorted(s, fs);
    assert Unlisted(r, fs) == Unlisted(s, fs) - {d};
    LoseOne(Unlisted(s, fs), Unlisted(r, fs), d);
  }

  /**
   * On an undisturbed disk a stat callback of the search does one unit of
   * work, unless it is the one that hands over to removeFiles.
   */
  lemma StatProgresses(s: Snapshot, d: Path, n: string, fs: FileSystem)
    requires SearchReady(s, fs) && StatEntry(d, n) in s.pending
    ensures d in s.counts
    ensures var (r, fs') := OnStat(s, d, n, fs);
      r.removing || (fs' == fs && SearchReady(r, fs) && SearchLeft(r, fs) < SearchLeft(s, fs))
  {
    ClassifyFacts(s, d, n);
    StatFindsEntry(s, d, n, fs);
    if !OnStat(s, d, n, fs).0.removing {
      StatKeepsReady(s, d, n, fs);
      StatSuccessShape(s, d, n, fs);
      SortShrinks(s, Classify(s, d, n, fs), Join(d, n), fs);
    }
  }

  /** Helper: on an undisturbed disk, every owed stat finds its entry. */
  lemma StatFindsEntry(s: Snapshot, d: Path, n: string, fs: FileSystem)
    requires ScanInv(s) && Agrees(s, fs) && StatEntry(d, n) in s.pending
    ensures Join(d, n) in fs.Entries() && Stat(fs, Join(d, n)).Ok?
  {
    ClassifyFacts(s, d, n);
    ListingIsExact(fs, d);
  }

  /** Helper: a stat callback that does not hand over leaves the search ready. */
  lemma StatKeepsReady(s: Snapshot, d: Path, n: string, fs: FileSystem)
    requires SearchReady(s, fs) && StatEntry(d, n) in s.pending && Stat(fs, Join(d, n)).Ok?
    requires d in s.counts && !OnStat(s, d, n, fs).0.removing
    ensures SearchReady(Classify(s, d, n, fs), fs)
  {
    var c := Classify(s, d, n, fs);
    StatSuccessKeepsScanInv(s, d, n, fs);
    ClassifyKeepsOwed(s, d, n, fs);
    ClassifyKeepsAgreement(s, d, n, fs);
    StatSuccessShape(s, d, n, fs);
    assert c.worklist != [] by {
      if c.counts[d] != 0 {
        assert d in c.worklist;
      }
    }
  }

  /** Helper: sorting an entry below the folder takes one unit off the work left. */
  lemma SortShrinks(s: Snapshot, c: Snapshot, p: Path, fs: FileSystem)
    requires p in fs.Entries() && Below(p, s.root) && !Classified(s, p)
    requires c.root == s.root && c.listed == s.listed
    requires forall q :: Classified(c, q) <==> Classified(s, q) || q == p
    ensures SearchLeft(c, fs) < SearchLeft(s, fs)
  {
    assert Unlisted(c, fs) == Unlisted(s, fs);
    assert Unsorted(c, fs) == Unsorted(s, fs) - {p};
    LoseOne(Unsorted(s, fs), Unsorted(c, fs), p);
  }

  /**
   * Removal started on the disk `fs'` by a search of the undisturbed disk
   * `fs`: it resolves at once or through the directory pass, and either
   * way leaves `fs` minus everything below the folder.
   */
  ghost predicate HandedOver(r: Snapshot, fs': FileSystem, fs: FileSystem) {
    && RemovalInv(r)
    && (r.status.Resolved? ==> fs' == Prune(fs, r.root))
    && (!r.status.Resolved? ==> r.status.Pending? && DrainReady(r, 0, fs') && Drain(r, 0, fs').1 == Prune(fs, r.root))
  }

  /**
   * Whichever callback the host runs next on an undisturbed disk, it either
   * hands over to a removal that empties the folder, or leaves the search
   * ready for the next one with strictly less work left: every order of
   * callbacks reaches removeFiles.
   */
  lemma SearchStepProgresses(s: Snapshot, e: Event, fs: FileSystem)
    requires SearchReady(s, fs) && e in s.pending
    ensures var (r, fs') := Step(s, e, fs);
      if r.removing then HandedOver(r, fs', fs)
      else fs' == fs && SearchReady(r, fs) && SearchLeft(r, fs) < SearchLeft(s, fs)
  {
    match e
    case ListDir(d) =>
      ListDirProgresses(s, d, fs);
    case StatEntry(d, n) =>
      StatProgresses(s, d, n, fs);
      if OnStat(s, d, n, fs).0.removing {
        UndisturbedRunEmptiesFolder(s, d, n, fs);
      }
    case CheckEmpty(_) =>
      assert false;
  }

  /**
   * The rest of an undisturbed search, running the owed callbacks in some
   * order until removeFiles has run.
   */
  ghost function Search(s: Snapshot, fs: FileSystem): (r: (Snapshot, FileSystem))
    requires SearchReady(s, fs)
    ensures r.0.removing && r.0.root == s.root && HandedOver(r.0, r.1, fs)
    decreases SearchLeft(s, fs)
  {
    UnblockedDirectoryOwesCallback(s, s.worklist[0]);
    var e :| e in s.pending;
    SearchStepProgresses(s, e, fs);
    var next := Step(s, e, fs);
    if next.0.removing then next else Search(next.0, fs)
  }

  /** A new remover on an undisturbed tree without empty directories is ready to search. */
  lemma InitialReady(root: Path, fs: FileSystem)
    requires WellFormed(fs) && root in fs.dirs && NoEmptyDirectory(fs, root)
    ensures SearchReady(Initial(root), fs)
  {
    InitialScanInv(root);
    InitialOwed(root);
    InitialAgrees(root, fs);
  }

  /**
   * End to end, the converse of EmptyDirectoryHangsSearch: on a disk nobody
   * else changes, a remover whose folder tree holds no empty directory
   * resolves, leaving exactly the disk minus everything below its folder,
   * with the folder itself present and empty.
   */
  ghost function Run(root: Path, fs: FileSystem): (r: (Snapshot, FileSystem))
    requires WellFormed(fs) && root in fs.dirs && NoEmptyDirectory(fs, root)
    ensures r.0.status == Resolved && r.0.directories == [] && r.0.pending == {}
    ensures r.1 == Prune(fs, root) && ReadDir(r.1, root) == Ok({})
  {
    InitialReady(root, fs);
    PrunedFolderIsEmpty(fs, root);
    var (s, fs') := Search(Initial(root), fs);
    if s.status.Resolved? then (s, fs') else Drain(s, 0, fs')
  }
}
