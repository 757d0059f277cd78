/**
 * What stays true of a DependencyRemover while it searches its folder tree
 * (getDirectoryContents / getFileType / haveAllDirectoriesBeenChecked,
 * module-remover.js:108-187), and the proof that every callback keeps it.
 */
module ScanInvariant {
  import opened Paths
  import opened Fs
  import opened Lists
  import opened DependencyRemoval

  ghost predicate Classified(s: Snapshot, p: Path) {
    p in s.directories || p in s.files
  }

  /** The entries of listed directory `d` that no stat callback has sorted yet. */
  ghost function Unclassified(s: Snapshot, d: Path): set<string>
    requires d in s.listed
  {
    set m | m in s.listed[d] && !Classified(s, Join(d, m))
  }

  /** The entries of `d` whose stat callback is still owed. */
  ghost function PendingNames(pending: set<Event>, d: Path): set<string> {
    set e | e in pending && e.StatEntry? && e.dir == d :: e.name
  }

  /** No list repeats a path, and no path is both a file and a directory. */
  ghost predicate ListsDistinct(s: Snapshot) {
    && Distinct(s.worklist) && Distinct(s.directories) && Distinct(s.files)
    && forall p :: p in s.directories ==> p !in s.files
  }

  /** Only the root and found directories are ever searched. */
  ghost predicate WorklistDiscovered(s: Snapshot) {
    forall p :: p in s.worklist ==> p == s.root || p in s.directories
  }

  /** Every sorted path is a listed entry `dir + "/" + name` strictly below the root. */
  ghost predicate EntriesListed(s: Snapshot) {
    forall p :: Classified(s, p) ==>
      && Below(p, s.root) && HasParent(p)
      && Parent(p) in s.listed && BaseName(p) in s.listed[Parent(p)]
  }

  /** Only discovered directories are listed, and listings hold proper names. */
  ghost predicate ListingsWellFormed(s: Snapshot) {
    && s.counts.Keys == s.listed.Keys
    && (forall d :: d in s.listed ==> d == s.root || d in s.directories)
    && (forall d, n :: d in s.listed && n in s.listed[d] ==> IsName(n))
  }

  /** Each owed callback belongs to a directory still on the worklist. */
  ghost predicate EventsTracked(s: Snapshot) {
    forall e :: e in s.pending ==>
      match e
      case ListDir(d) => d in s.worklist && d !in s.listed
      case StatEntry(d, n) => d in s.worklist && d in s.listed && n in Unclassified(s, d)
      case CheckEmpty(_) => false
  }

  /** A discovered directory leaves the worklist only after it has been listed. */
  ghost predicate DiscoveredProgress(s: Snapshot) {
    && (s.root in s.worklist || s.root in s.listed)
    && forall d :: d in s.directories ==> d in s.worklist || d in s.listed
  }

  /** `count` is the number of unsorted entries; off the worklist, none is left. */
  ghost predicate CountsMatch(s: Snapshot) {
    && (forall d :: d in s.listed ==> d in s.counts && s.counts[d] == |Unclassified(s, d)|)
    && (forall d :: d in s.listed && d !in s.worklist ==> Unclassified(s, d) == {})
  }

  /**
   * A blocked directory stays on the worklist for good: its listing failed,
   * it had no entries, or one of its entries' callbacks was lost to a failure.
   */
  ghost predicate BlockedStuck(s: Snapshot) {
    && (forall d :: d in s.blocked ==>
          && d in s.worklist && ListDir(d) !in s.pending
          && (d !in s.listed || s.listed[d] == {} || PendingNames(s.pending, d) < Unclassified(s, d)))
    && (forall d :: d in s.listed && s.listed[d] == {} ==> d in s.blocked)
  }

  /** While searching, the promise has not resolved, and a rejection leaves a blocked directory. */
  ghost predicate StatusScanning(s: Snapshot) {
    && !s.status.Resolved?
    && (s.status.Rejected? ==> s.blocked != {})
  }

  ghost predicate ScanInv(s: Snapshot) {
    && !s.removing
    && ListsDistinct(s)
    && WorklistDiscovered(s)
    && EntriesListed(s)
    && ListingsWellFormed(s)
    && EventsTracked(s)
    && DiscoveredProgress(s)
    && CountsMatch(s)
    && BlockedStuck(s)
    && StatusScanning(s)
  }

  /** A fresh remover satisfies the invariant. */
  lemma InitialScanInv(root: Path)
    ensures ScanInv(Initial(root))
  {
  }

  // ---------------------------------------------------------------- readdir

  /**
   * The readdir callback of a search keeps the invariant, and never unblocks
   * a directory. A failed listing rejects the promise and blocks `d`, which
   * then never leaves the worklist.
   */
  lemma OnListDirKeepsScanInv(s: Snapshot, d: Path, fs: FileSystem)
    requires ScanInv(s) && ListDir(d) in s.pending
    ensures ScanInv(OnListDir(s, d, fs))
    ensures s.blocked <= OnListDir(s, d, fs).blocked
    ensures ReadDir(fs, d).Err? ==>
      && d in OnListDir(s, d, fs).blocked
      && OnListDir(s, d, fs).status == Settle(s.status, Rejected(MissingDirectory(d, ReadDir(fs, d).error)))
  {
    match ReadDir(fs, d)
    case Err(e) =>
      ListDirFailureKeepsScanInv(s, d, e);
    case Ok(names) =>
      forall n | n in names
        ensures IsName(n) && !Classified(s, Join(d, n))
      {
        ListingIsExact(fs, d);
        JoinSplits(d, n);
      }
      ListDirSuccessKeepsScanInv(s, d, names);
  }

  lemma ListDirFailureKeepsScanInv(s: Snapshot, d: Path, e: FsError)
    requires ScanInv(s) && ListDir(d) in s.pending
    ensures ScanInv(s.(pending := s.pending - {ListDir(d)},
                       status := Settle(s.status, Rejected(MissingDirectory(d, e))),
                       blocked := s.blocked + {d}))
  {
    var r := s.(pending := s.pending - {ListDir(d)},
                status := Settle(s.status, Rejected(MissingDirectory(d, e))),
                blocked := s.blocked + {d});
    assert d in s.worklist && d !in s.listed;
    forall q | q in s.listed
      ensures Unclassified(r, q) == Unclassified(s, q)
    {
    }
    forall q
      ensures PendingNames(r.pending, q) == PendingNames(s.pending, q)
    {
    }
    assert EventsTracked(r);
    assert CountsMatch(r);
    assert BlockedStuck(r);
  }

  lemma ListDirSuccessKeepsScanInv(s: Snapshot, d: Path, names: set<string>)
    requires ScanInv(s) && ListDir(d) in s.pending
    requires forall n :: n in names ==> IsName(n) && !Classified(s, Join(d, n))
    ensures ScanInv(s.(pending := s.pending - {ListDir(d)} + StatEvents(d, names),
                       counts := s.counts[d := |names|],
                       listed := s.listed[d := names],
                       blocked := if names == {} then s.blocked + {d} else s.blocked))
  {
    var r := s.(pending := s.pending - {ListDir(d)} + StatEvents(d, names),
                counts := s.counts[d := |names|],
                listed := s.listed[d := names],
                blocked := if names == {} then s.blocked + {d} else s.blocked);
    assert d in s.worklist && d !in s.listed;
    forall q | q in s.listed
      ensures Unclassified(r, q) == Unclassified(s, q)
    {
    }
    assert Unclassified(r, d) == names;
    ListDirSuccessEvents(s, r, d, names);
    ListDirSuccessCounts(s, r, d, names);
    ListDirSuccessBlocked(s, r, d, names);
    assert ListingsWellFormed(r);
    assert EntriesListed(r);
  }

  lemma ListDirSuccessCounts(s: Snapshot, r: Snapshot, d: Path, names: set<string>)
    requires CountsMatch(s) && d in s.worklist && d !in s.listed
    requires r.worklist == s.worklist && r.listed == s.listed[d := names] && r.counts == s.counts[d := |names|]
    requires forall q :: q in s.listed ==> Unclassified(r, q) == Unclassified(s, q)
    requires Unclassified(r, d) == names
    ensures CountsMatch(r)
  {
  }

  lemma ListDirSuccessBlocked(s: Snapshot, r: Snapshot, d: Path, names: set<string>)
    requires BlockedStuck(s) && EventsTracked(s) && ListDir(d) in s.pending
    requires r.worklist == s.worklist && r.listed == s.listed[d := names]
    requires r.pending == s.pending - {ListDir(d)} + StatEvents(d, names)
    requires r.blocked == if names == {} then s.blocked + {d} else s.blocked
    requires forall q :: q in s.listed ==> Unclassified(r, q) == Unclassified(s, q)
    ensures BlockedStuck(r)
  {
    assert d in s.worklist && d !in s.listed && d !in s.blocked;
    forall q | q in r.blocked
      ensures q in r.worklist && ListDir(q) !in r.pending
      ensures q !in r.listed || r.listed[q] == {} || PendingNames(r.pending, q) < Unclassified(r, q)
    {
      if q != d && q in s.listed && s.listed[q] != {} {
        assert PendingNames(r.pending, q) == PendingNames(s.pending, q);
      }
    }
  }

  lemma ListDirSuccessEvents(s: Snapshot, r: Snapshot, d: Path, names: set<string>)
    requires ScanInv(s) && ListDir(d) in s.pending
    requires r == s.(pending := s.pending - {ListDir(d)} + StatEvents(d, names),
                     counts := s.counts[d := |names|],
                     listed := s.listed[d := names],
                     blocked := if names == {} then s.blocked + {d} else s.blocked)
    requires forall q :: q in s.listed ==> Unclassified(r, q) == Unclassified(s, q)
    requires Unclassified(r, d) == names
    ensures EventsTracked(r)
  {
    forall e | e in r.pending
      ensures match e
        case ListDir(q) => q in r.worklist && q !in r.listed
        case StatEntry(q, m) => q in r.worklist && q in r.listed && m in Unclassified(r, q)
        case CheckEmpty(_) => false
    {
      if e !in StatEvents(d, names) {
        assert e in s.pending;
      }
    }
  }

  // ---------------------------------------------------------------- stat

  /** Facts about the entry a stat callback sorts, shared by the proofs below. */
  lemma ClassifyFacts(s: Snapshot, d: Path, n: string)
    requires ScanInv(s) && StatEntry(d, n) in s.pending
    ensures d in s.worklist && d in s.listed && n in Unclassified(s, d)
    ensures IsName(n) && !Classified(s, Join(d, n))
    ensures Below(Join(d, n), s.root)
    ensures Join(d, n) !in s.worklist && Join(d, n) !in s.listed && Join(d, n) != d
    ensures n in PendingNames(s.pending, d)
  {
    var p := Join(d, n);
    if d != s.root {
      assert Classified(s, d);
    }
    JoinBelow(d, n, s.root);
  }

  /** After sorting `p = d/n`, only `d` loses an unsorted entry, namely `n`. */
  lemma UnclassifiedAfterSort(s: Snapshot, r: Snapshot, d: Path, n: string)
    requires ScanInv(s) && StatEntry(d, n) in s.pending
    requires r.listed == s.listed
    requires forall q :: Classified(r, q) <==> Classified(s, q) || q == Join(d, n)
    ensures forall q :: q in s.listed ==>
      Unclassified(r, q) == if q == d then Unclassified(s, q) - {n} else Unclassified(s, q)
  {
    ClassifyFacts(s, d, n);
    forall q, m | q in s.listed && m in s.listed[q]
      ensures Classified(r, Join(q, m)) <==> Classified(s, Join(q, m)) || (q == d && m == n)
    {
      JoinInjective(q, m, d, n);
    }
  }

  /**
   * A failed stat rejects the promise, keeps the invariant and blocks the
   * entry's directory, which then never leaves the worklist.
   */
  lemma StatFailureKeepsScanInv(s: Snapshot, d: Path, n: string, fs: FileSystem)
    requires ScanInv(s) && StatEntry(d, n) in s.pending
    requires Stat(fs, Join(d, n)).Err?
    ensures ScanInv(Classify(s, d, n, fs))
    ensures s.blocked <= Classify(s, d, n, fs).blocked
    ensures d in Classify(s, d, n, fs).blocked
    ensures Classify(s, d, n, fs).status == Settle(s.status, Rejected(UnreadableEntry(n, Stat(fs, Join(d, n)).error)))
  {
    var r := Classify(s, d, n, fs);
    ClassifyFacts(s, d, n);
    forall q | q in s.listed
      ensures Unclassified(r, q) == Unclassified(s, q)
    {
    }
    forall q
      ensures PendingNames(r.pending, q) == if q == d then PendingNames(s.pending, q) - {n} else PendingNames(s.pending, q)
    {
    }
    assert PendingNames(r.pending, d) < Unclassified(r, d);
    assert EventsTracked(r);
    assert BlockedStuck(r);
  }

  /** A successful stat keeps the invariant; blocked directories stay blocked. */
  lemma StatSuccessKeepsScanInv(s: Snapshot, d: Path, n: string, fs: FileSystem)
    requires ScanInv(s) && StatEntry(d, n) in s.pending
    requires Stat(fs, Join(d, n)).Ok?
    ensures ScanInv(Classify(s, d, n, fs))
    ensures s.blocked == Classify(s, d, n, fs).blocked
  {
    StatSuccessShape(s, d, n, fs);
    StatSuccessListsPart(s, d, n, fs);
    StatSuccessEventsPart(s, d, n, fs);
    StatSuccessCountsPart(s, d, n, fs);
    StatSuccessBlockedPart(s, d, n, fs);
  }

  lemma StatSuccessListsPart(s: Snapshot, d: Path, n: string, fs: FileSystem)
    requires ScanInv(s) && StatEntry(d, n) in s.pending
    requires Stat(fs, Join(d, n)).Ok?
    ensures var r := Classify(s, d, n, fs);
      ListsDistinct(r) && WorklistDiscovered(r) && EntriesListed(r) && ListingsWellFormed(r) && DiscoveredProgress(r)
  {
    var r := Classify(s, d, n, fs);
    StatSuccessShape(s, d, n, fs);
    StatSuccessLists(s, r, d, n, Stat(fs, Join(d, n)).value, s.counts[d] - 1);
  }

  lemma StatSuccessEventsPart(s: Snapshot, d: Path, n: string, fs: FileSystem)
    requires ScanInv(s) && StatEntry(d, n) in s.pending
    requires Stat(fs, Join(d, n)).Ok?
    ensures EventsTracked(Classify(s, d, n, fs))
  {
    var r := Classify(s, d, n, fs);
    StatSuccessShape(s, d, n, fs);
    UnclassifiedAfterSort(s, r, d, n);
    StatSuccessEvents(s, r, d, n, fs, s.counts[d] - 1);
  }

  lemma StatSuccessCountsPart(s: Snapshot, d: Path, n: string, fs: FileSystem)
    requires ScanInv(s) && StatEntry(d, n) in s.pending
    requires Stat(fs, Join(d, n)).Ok?
    ensures CountsMatch(Classify(s, d, n, fs))
  {
    var r := Classify(s, d, n, fs);
    StatSuccessShape(s, d, n, fs);
    UnclassifiedAfterSort(s, r, d, n);
    StatSuccessCounts(s, r, d, n, Stat(fs, Join(d, n)).value, s.counts[d] - 1);
  }

  lemma StatSuccessBlockedPart(s: Snapshot, d: Path, n: string, fs: FileSystem)
    requires ScanInv(s) && StatEntry(d, n) in s.pending
    requires Stat(fs, Join(d, n)).Ok?
    ensures BlockedStuck(Classify(s, d, n, fs))
  {
    var r := Classify(s, d, n, fs);
    var p := Join(d, n);
    StatSuccessShape(s, d, n, fs);
    UnclassifiedAfterSort(s, r, d, n);
    PendingAfterSort(s.pending, r.pending, d, n, if Stat(fs, p).value then {ListDir(p)} else {});
    StatSuccessBlocked(s, r, d, n, s.counts[d] - 1);
  }

  /** How a successful stat callback changes each field. */
  lemma StatSuccessShape(s: Snapshot, d: Path, n: string, fs: FileSystem)
    requires ScanInv(s) && StatEntry(d, n) in s.pending
    requires Stat(fs, Join(d, n)).Ok?
    ensures var r := Classify(s, d, n, fs);
      var p := Join(d, n);
      var isDirectory := Stat(fs, p).value;
      var count := s.counts[d] - 1;
      && d in s.worklist && d in s.listed && n in Unclassified(s, d) && IsName(n)
      && !Classified(s, p) && Below(p, s.root) && p !in s.worklist && p !in s.listed
      && n in PendingNames(s.pending, d)
      && r.root == s.root && r.removing == s.removing && r.status == s.status
      && r.blocked == s.blocked && r.listed == s.listed
      && r.counts == s.counts[d := count]
      && r.directories == (if isDirectory then s.directories + [p] else s.directories)
      && r.files == (if isDirectory then s.files else s.files + [p])
      && r.pending == s.pending - {StatEntry(d, n)} + (if isDirectory then {ListDir(p)} else {})
      && Distinct(r.worklist)
      && (forall q :: q in r.worklist <==> (q in s.worklist || (isDirectory && q == p)) && (q != d || count != 0))
      && (forall q :: Classified(r, q) <==> Classified(s, q) || q == p)
  {
    var r := Classify(s, d, n, fs);
    var p := Join(d, n);
    var isDirectory := Stat(fs, p).value;
    ClassifyFacts(s, d, n);
    var w1 := if isDirectory then s.worklist + [p] else s.worklist;
    assert Distinct(w1);
    assert d in w1;
    var count := s.counts[d] - 1;
    assert r.worklist == if count == 0 then SpliceOne(w1, IndexOf(w1, d)) else w1;
    SpliceIndexOf(w1, d);
  }

  /** Consuming the stat event of `d/n` (and adding only ListDir events) removes `n` from `d`'s owed names. */
  lemma PendingAfterSort(pending: set<Event>, pending': set<Event>, d: Path, n: string, extra: set<Event>)
    requires StatEntry(d, n) in pending
    requires pending' == pending - {StatEntry(d, n)} + extra
    requires forall e :: e in extra ==> e.ListDir?
    ensures forall q :: PendingNames(pending', q) == if q == d then PendingNames(pending, q) - {n} else PendingNames(pending, q)
  {
    forall q
      ensures PendingNames(pending', q) == if q == d then PendingNames(pending, q) - {n} else PendingNames(pending, q)
    {
    }
  }

  lemma StatSuccessLists(s: Snapshot, r: Snapshot, d: Path, n: string, isDirectory: bool, count: int)
    requires ListsDistinct(s) && WorklistDiscovered(s) && EntriesListed(s) && ListingsWellFormed(s) && DiscoveredProgress(s)
    requires d in s.listed && n in s.listed[d] && IsName(n)
    requires !Classified(s, Join(d, n)) && Below(Join(d, n), s.root)
    requires r.root == s.root && r.listed == s.listed && r.counts == s.counts[d := count]
    requires r.directories == (if isDirectory then s.directories + [Join(d, n)] else s.directories)
    requires r.files == (if isDirectory then s.files else s.files + [Join(d, n)])
    requires Distinct(r.worklist)
    requires forall q :: q in r.worklist <==> (q in s.worklist || (isDirectory && q == Join(d, n))) && (q != d || count != 0)
    requires forall q :: Classified(r, q) <==> Classified(s, q) || q == Join(d, n)
    ensures ListsDistinct(r) && WorklistDiscovered(r) && EntriesListed(r) && ListingsWellFormed(r) && DiscoveredProgress(r)
  {
    JoinSplits(d, n);
  }

  lemma StatSuccessCounts(s: Snapshot, r: Snapshot, d: Path, n: string, isDirectory: bool, count: int)
    requires CountsMatch(s) && d in s.listed && n in Unclassified(s, d)
    requires count == s.counts[d] - 1
    requires r.listed == s.listed && r.counts == s.counts[d := count]
    requires forall q :: q in r.worklist ==> q in s.worklist || q == Join(d, n)
    requires forall q :: q in s.worklist && (q != d || count != 0) ==> q in r.worklist
    requires Join(d, n) !in s.listed
    requires forall q :: q in s.listed ==> Unclassified(r, q) == if q == d then Unclassified(s, q) - {n} else Unclassified(s, q)
    ensures CountsMatch(r)
  {
  }

  lemma StatSuccessEvents(s: Snapshot, r: Snapshot, d: Path, n: string, fs: FileSystem, count: int)
    requires ScanInv(s) && StatEntry(d, n) in s.pending && Stat(fs, Join(d, n)).Ok?
    requires r == Classify(s, d, n, fs) && count == s.counts[d] - 1
    requires d in s.listed && n in Unclassified(s, d) && Join(d, n) !in s.worklist && Join(d, n) !in s.listed
    requires forall q :: q in r.worklist <==> (q in s.worklist || (Stat(fs, Join(d, n)).value && q == Join(d, n))) && (q != d || count != 0)
    requires forall q :: q in s.listed ==> Unclassified(r, q) == if q == d then Unclassified(s, q) - {n} else Unclassified(s, q)
    requires count == |Unclassified(r, d)|
    ensures EventsTracked(r)
  {
    forall e | e in r.pending
      ensures match e
        case ListDir(q) => q in r.worklist && q !in r.listed
        case StatEntry(q, m) => q in r.worklist && q in r.listed && m in Unclassified(r, q)
        case CheckEmpty(_) => false
    {
      if e != ListDir(Join(d, n)) {
        assert e in s.pending;
      }
    }
  }

  lemma StatSuccessBlocked(s: Snapshot, r: Snapshot, d: Path, n: string, count: int)
    requires ScanInv(s) && StatEntry(d, n) in s.pending
    requires r.blocked == s.blocked && r.listed == s.listed
    requires d in s.listed && n in Unclassified(s, d) && n in PendingNames(s.pending, d)
    requires forall q :: q in s.worklist && (q != d || count != 0) ==> q in r.worklist
    requires forall q :: ListDir(q) in r.pending ==> ListDir(q) in s.pending || q == Join(d, n)
    requires Join(d, n) !in s.worklist
    requires forall q :: q in s.listed ==> Unclassified(r, q) == if q == d then Unclassified(s, q) - {n} else Unclassified(s, q)
    requires forall q :: PendingNames(r.pending, q) == if q == d then PendingNames(s.pending, q) - {n} else PendingNames(s.pending, q)
    requires count == |Unclassified(r, d)|
    ensures BlockedStuck(r)
  {
    forall q | q in r.blocked
      ensures q in r.worklist && ListDir(q) !in r.pending
      ensures q !in r.listed || r.listed[q] == {} || PendingNames(r.pending, q) < Unclassified(r, q)
    {
      if q == d {
        assert PendingNames(s.pending, d) < Unclassified(s, d);
        assert PendingNames(r.pending, d) < Unclassified(r, d);
        assert count != 0;
      }
    }
  }
}
