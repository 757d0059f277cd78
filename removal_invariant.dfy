/**
 * What stays true of a DependencyRemover once removeFiles has run
 * (removeDirectories / checkIfEmptyDirectory, module-remover.js:189-256),
 * the invariant of the whole life of a remover, and the proof that every
 * callback keeps it.
 */
module RemovalInvariant {
  import opened Paths
  import opened Fs
  import opened Lists
  import opened DependencyRemoval
  import opened ScanInvariant

  /**
   * During removal: the worklist is empty, at most one emptiness check is in
   * flight and it points into `directories`; the promise is pending exactly
   * while a check is in flight, and it resolves only once the list is empty.
   */
  ghost predicate RemovalInv(s: Snapshot) {
    && s.removing
    && s.worklist == []
    && Distinct(s.directories)
    && (forall p :: p in s.directories ==> Below(p, s.root))
    && (forall e :: e in s.pending ==> e.CheckEmpty? && e.index < |s.directories|)
    && (forall e1, e2 :: e1 in s.pending && e2 in s.pending ==> e1 == e2)
    && (s.status.Pending? <==> s.pending != {})
    && (s.status.Resolved? ==> s.directories == [])
  }

  /** The invariant of a remover over its whole life. */
  ghost predicate Inv(s: Snapshot) {
    if s.removing then RemovalInv(s) else ScanInv(s)
  }

  /** Search callbacks are owed only while searching, emptiness checks only while removing. */
  lemma EventMatchesPhase(s: Snapshot, e: Event)
    requires Inv(s) && e in s.pending
    ensures e.CheckEmpty? <==> s.removing
  {
  }

  lemma InitialInv(root: Path)
    ensures Inv(Initial(root))
  {
    InitialScanInv(root);
  }

  /**
   * When the worklist runs empty the search is over: no callback is owed,
   * the promise is still pending, and every found directory (and the root)
   * has been listed with each entry sorted, none of them empty.
   */
  lemma WorklistEmptyMeansScanComplete(s: Snapshot)
    requires ScanInv(s) && s.worklist == []
    ensures s.pending == {} && s.status.Pending? && s.blocked == {}
    ensures s.root in s.listed && s.root !in s.directories
    ensures forall d :: d in s.directories ==> d in s.listed
    ensures forall d :: d in s.listed ==> Unclassified(s, d) == {} && s.listed[d] != {}
  {
    forall e | e in s.pending
      ensures false
    {
      match e
      case ListDir(d) =>
      case StatEntry(d, n) =>
      case CheckEmpty(_) =>
    }
    assert s.root !in s.directories by {
      if s.root in s.directories {
        assert Classified(s, s.root);
      }
    }
  }

  /** removeFiles, started from a completed search, enters the removal invariant. */
  lemma StartRemovalEntersRemovalInv(s: Snapshot, fs: FileSystem, n: string)
    requires ScanInv(s) && s.worklist == []
    ensures RemovalInv(StartRemoval(s, fs, n).0)
  {
    WorklistEmptyMeansScanComplete(s);
    StartRemovalFromQuiet(s, fs, n);
  }

  /**
   * removeFiles at the end of a search: the directory pass is scheduled only
   * after every collected file is gone; the promise resolves exactly when all
   * unlinks succeed and no directory was found, and is rejected exactly when
   * an unlink fails; no directory is touched.
   */
  lemma StartRemovalOutcome(s: Snapshot, fs: FileSystem, n: string)
    requires ScanInv(s) && s.worklist == []
    ensures var (r, fs') := StartRemoval(s, fs, n);
      && (CheckEmpty(0) in r.pending ==> forall p :: p in s.files ==> p !in fs'.files)
      && (r.status.Resolved? <==> UnlinkAll(fs, s.files).1.None? && s.directories == [])
      && (r.status.Rejected? <==> UnlinkAll(fs, s.files).1.Some?)
      && (r.pending == {} || r.pending == {CheckEmpty(0)})
      && fs'.dirs == fs.dirs
  {
    WorklistEmptyMeansScanComplete(s);
    QuietStartRemovalOutcome(s, fs, n);
  }

  /** Helper: the outcome of removeFiles when no callback is owed and the promise is pending. */
  lemma QuietStartRemovalOutcome(s: Snapshot, fs: FileSystem, n: string)
    requires s.pending == {} && s.status.Pending?
    ensures var (r, fs') := StartRemoval(s, fs, n);
      && (CheckEmpty(0) in r.pending ==> forall p :: p in s.files ==> p !in fs'.files)
      && (r.status.Resolved? <==> UnlinkAll(fs, s.files).1.None? && s.directories == [])
      && (r.status.Rejected? <==> UnlinkAll(fs, s.files).1.Some?)
      && (r.pending == {} || r.pending == {CheckEmpty(0)})
      && fs'.dirs == fs.dirs
  {
  }

  /** Helper: removeFiles from a state that owes no callback and is still pending. */
  lemma StartRemovalFromQuiet(s: Snapshot, fs: FileSystem, n: string)
    requires s.worklist == [] && s.pending == {} && s.status.Pending? && Distinct(s.directories)
    requires forall p :: p in s.directories ==> Below(p, s.root)
    ensures RemovalInv(StartRemoval(s, fs, n).0)
  {
  }

  /**
   * A stat callback keeps the invariant; while some directory is blocked it
   * never reaches removeFiles.
   */
  lemma OnStatKeepsInv(s: Snapshot, d: Path, n: string, fs: FileSystem)
    requires ScanInv(s) && StatEntry(d, n) in s.pending
    ensures Inv(OnStat(s, d, n, fs).0)
    ensures s.blocked != {} ==> !OnStat(s, d, n, fs).0.removing
  {
    ClassifyFacts(s, d, n);
    var c := Classify(s, d, n, fs);
    if Stat(fs, Join(d, n)).Err? {
      StatFailureKeepsScanInv(s, d, n, fs);
    } else {
      StatSuccessKeepsScanInv(s, d, n, fs);
      if c.counts[d] == 0 && c.worklist == [] {
        StartRemovalEntersRemovalInv(c, fs, n);
        WorklistEmptyMeansScanComplete(c);
      }
    }
  }

  /** Helper: what a stat callback may assume and what it keeps, in one place. */
  lemma StatStepFacts(s: Snapshot, d: Path, n: string, fs: FileSystem)
    requires Inv(s) && StatEntry(d, n) in s.pending
    ensures !s.removing && d in s.counts
    ensures Inv(OnStat(s, d, n, fs).0)
    ensures Stat(fs, Join(d, n)).Ok? ==> Inv(Classify(s, d, n, fs)) && !Classify(s, d, n, fs).removing
  {
    EventMatchesPhase(s, StatEntry(d, n));
    ClassifyFacts(s, d, n);
    OnStatKeepsInv(s, d, n, fs);
    if Stat(fs, Join(d, n)).Ok? {
      StatSuccessKeepsScanInv(s, d, n, fs);
    }
  }

  /**
   * Once the search has been rejected it never reaches removeFiles: no
   * later stat callback unlinks anything or starts the directory pass.
   */
  lemma RejectedSearchNeverRemoves(s: Snapshot, d: Path, n: string, fs: FileSystem)
    requires ScanInv(s) && StatEntry(d, n) in s.pending && s.status.Rejected?
    ensures var (r, fs') := OnStat(s, d, n, fs); !r.removing && fs' == fs && r.status == s.status
  {
    OnStatKeepsInv(s, d, n, fs);
  }

  /** A readdir callback of the search keeps the invariant and never unblocks a directory. */
  lemma OnListDirKeepsInv(s: Snapshot, d: Path, fs: FileSystem)
    requires ScanInv(s) && ListDir(d) in s.pending
    ensures Inv(OnListDir(s, d, fs)) && !OnListDir(s, d, fs).removing
    ensures s.blocked <= OnListDir(s, d, fs).blocked
  {
    OnListDirKeepsScanInv(s, d, fs);
  }

  /**
   * An emptiness check keeps the invariant. The filesystem changes only by
   * the removal of the checked directory, and only when a fresh listing of
   * it came back empty; the list then loses exactly that entry.
   */
  lemma OnCheckEmptyKeepsInv(s: Snapshot, i: nat, fs: FileSystem)
    requires RemovalInv(s) && CheckEmpty(i) in s.pending
    ensures i < |s.directories|
    ensures var (r, fs') := OnCheckEmpty(s, i, fs);
      && RemovalInv(r)
      && (fs' == fs || (ReadDir(fs, s.directories[i]) == Ok({})
                        && fs'.files == fs.files && fs'.dirs == fs.dirs - {s.directories[i]}))
      && (r.directories == s.directories || r.directories == SpliceOne(s.directories, i))
  {
    var d := s.directories[i];
    var (r, fs') := OnCheckEmpty(s, i, fs);
    assert s.pending == {CheckEmpty(i)};
    if ReadDir(fs, d) == Ok({}) && Rmdir(fs, d).Ok? {
      SpliceAtDistinct(s.directories, i);
      SpliceAt(s.directories, i);
    }
  }

  /**
   * After a non-empty check the next check is at the following index,
   * wrapping to 0 at the end of the list.
   */
  lemma CheckEmptyNextIndex(s: Snapshot, i: nat, fs: FileSystem)
    requires RemovalInv(s) && CheckEmpty(i) in s.pending
    requires ReadDir(fs, s.directories[i]).Ok? && ReadDir(fs, s.directories[i]).value != {}
    ensures var (r, fs') := OnCheckEmpty(s, i, fs);
      r.pending == {CheckEmpty((i + 1) % |s.directories|)} && r.directories == s.directories && fs' == fs
  {
    assert s.pending == {CheckEmpty(i)};
    assert CheckIfEmptyDirectory(fs, s.directories[i]) == Ok(false);
    assert (i + 1) % |s.directories| == if i + 1 == |s.directories| then 0 else i + 1;
  }

  /**
   * After a removal the pass restarts at index 0 with one directory fewer,
   * or, when that was the last one, the promise resolves.
   */
  lemma CheckEmptyRestarts(s: Snapshot, i: nat, fs: FileSystem)
    requires RemovalInv(s) && CheckEmpty(i) in s.pending
    requires ReadDir(fs, s.directories[i]) == Ok({})
    ensures var (r, _) := OnCheckEmpty(s, i, fs);
      && |r.directories| == |s.directories| - 1
      && (r.directories != [] ==> r.pending == {CheckEmpty(0)} && r.status.Pending?)
      && (r.directories == [] ==> r.pending == {} && r.status.Resolved?)
  {
    assert s.pending == {CheckEmpty(i)};
    SpliceAt(s.directories, i);
  }

  /** Helper: the removal of collected files leaves every path outside the folder alone. */
  lemma UnlinkStaysInside(s: Snapshot, fs: FileSystem, n: string)
    requires forall p :: p in s.files ==> Below(p, s.root)
    ensures var fs' := StartRemoval(s, fs, n).1;
      forall p :: !Below(p, s.root) ==> (p in fs'.files <==> p in fs.files) && (p in fs'.dirs <==> p in fs.dirs)
  {
  }

  /** Helper: a stat callback only ever changes the disk inside the folder. */
  lemma StatStaysInside(s: Snapshot, d: Path, n: string, fs: FileSystem)
    requires ScanInv(s) && StatEntry(d, n) in s.pending && d in s.counts
    ensures var fs' := OnStat(s, d, n, fs).1;
      forall p :: !Below(p, s.root) ==> (p in fs'.files <==> p in fs.files) && (p in fs'.dirs <==> p in fs.dirs)
  {
    var c := Classify(s, d, n, fs);
    if Stat(fs, Join(d, n)).Ok? && c.counts[d] == 0 && c.worklist == [] {
      StatSuccessKeepsScanInv(s, d, n, fs);
      assert forall p :: p in c.files ==> Classified(c, p);
      UnlinkStaysInside(c, fs, n);
    }
  }

  /**
   * Whichever pending callback the host runs next, on whatever the disk
   * holds at that moment: the invariant is kept, a settled promise stays
   * settled, and nothing outside the remover's folder changes.
   */
  function Step(s: Snapshot, e: Event, fs: FileSystem): (r: (Snapshot, FileSystem))
    requires Inv(s) && e in s.pending
    ensures Inv(r.0) && r.0.root == s.root
    ensures !s.status.Pending? ==> r.0.status == s.status
    ensures forall p :: !Below(p, s.root) ==>
      (p in r.1.files <==> p in fs.files) && (p in r.1.dirs <==> p in fs.dirs)
    // a deleted file is one the search collected; a removed directory was empty
    ensures r.1.dirs <= fs.dirs
    ensures forall q :: q in fs.dirs && q !in r.1.dirs ==> ReadDir(fs, q) == Ok({})
    ensures forall p :: p in fs.files && p !in r.1.files ==> p in r.0.files
  {
    match e
    case ListDir(d) =>
      OnListDirKeepsInv(s, d, fs);
      (OnListDir(s, d, fs), fs)
    case StatEntry(d, n) =>
      ClassifyFacts(s, d, n);
      OnStatKeepsInv(s, d, n, fs);
      StatStaysInside(s, d, n, fs);
      OnStat(s, d, n, fs)
    case CheckEmpty(i) =>
      OnCheckEmptyKeepsInv(s, i, fs);
      OnCheckEmpty(s, i, fs)
  }
}
