/**
 * What a DependencyRemover achieves on a disk that nobody else changes
 * while it runs (module-remover.js:90-256): the search collects exactly the
 * files and directories below its folder; an empty directory anywhere in
 * the tree stops the search from ever finishing; otherwise the removal
 * leaves the folder itself empty and every other entry of the disk alone.
 */
module SearchOutcome {
  import opened Paths
  import opened Fs
  import opened Lists
  import opened DependencyRemoval
  import opened ScanInvariant
  import opened RemovalInvariant
  import opened DirectoryPass

  /** The remover's record is true of the disk `fs`. */
  ghost predicate Agrees(s: Snapshot, fs: FileSystem) {
    && (forall d :: d in s.listed ==> d in fs.dirs && s.listed[d] == Names(fs, d))
    && (forall p :: p in s.directories ==> p in fs.dirs)
    && (forall p :: p in s.files ==> p in fs.files)
  }

  /** The disk with every entry strictly below `root` taken away. */
  ghost function Prune(fs: FileSystem, root: Path): FileSystem {
    FileSystem(set p | p in fs.files && !Below(p, root), set p | p in fs.dirs && !Below(p, root))
  }

  lemma InitialAgrees(root: Path, fs: FileSystem)
    ensures Agrees(Initial(root), fs)
  {
  }

  /** A readdir callback on the disk `fs` keeps the record true of it. */
  lemma OnListDirKeepsAgreement(s: Snapshot, d: Path, fs: FileSystem)
    requires Agrees(s, fs) && ListDir(d) in s.pending
    ensures Agrees(OnListDir(s, d, fs), fs)
  {
  }

  /** A stat callback on the disk `fs` keeps the record true of it. */
  lemma ClassifyKeepsAgreement(s: Snapshot, d: Path, n: string, fs: FileSystem)
    requires Agrees(s, fs) && StatEntry(d, n) in s.pending && d in s.counts
    ensures Agrees(Classify(s, d, n, fs), fs)
  {
    var r := Classify(s, d, n, fs);
    var p := Join(d, n);
    if Stat(fs, p).Ok? {
      assert forall q :: q in r.directories ==> q in s.directories || (q == p && p in fs.dirs);
      assert forall q :: q in r.files ==> q in s.files || (q == p && p in fs.files);
    }
  }

  /**
   * What the invariant says of a search whose worklist has run empty: no
   * callback is owed, every listed entry is sorted into exactly one of the
   * two lists, and no listing was empty.
   */
  ghost predicate SearchComplete(s: Snapshot) {
    && s.worklist == [] && s.pending == {} && s.status.Pending?
    && Distinct(s.directories) && Distinct(s.files)
    && (forall p :: p in s.directories ==> p !in s.files)
    && (forall p :: Classified(s, p) ==> Below(p, s.root))
    && s.root in s.listed
    && (forall d :: d in s.directories ==> d in s.listed)
    && (forall d, m :: d in s.listed && m in s.listed[d] ==> Classified(s, Join(d, m)))
    && (forall d :: d in s.listed ==> s.listed[d] != {})
  }

  lemma ScanInvComplete(s: Snapshot)
    requires ScanInv(s) && s.worklist == []
    ensures SearchComplete(s)
  {
    WorklistEmptyMeansScanComplete(s);
    CompleteFromParts(s);
  }

  /** Helper: assembles SearchComplete from the parts of the invariant it needs. */
  lemma CompleteFromParts(s: Snapshot)
    requires ListsDistinct(s) && forall p :: Classified(s, p) ==> Below(p, s.root)
    requires s.worklist == [] && s.pending == {} && s.status.Pending?
    requires s.root in s.listed && forall d :: d in s.directories ==> d in s.listed
    requires forall d :: d in s.listed ==> Unclassified(s, d) == {} && s.listed[d] != {}
    ensures SearchComplete(s)
  {
    forall d, m | d in s.listed && m in s.listed[d]
      ensures Classified(s, Join(d, m))
    {
      assert m !in Unclassified(s, d);
    }
  }

  /** Helper: every entry below the root of a finished search has been sorted. */
  lemma {:induction false} EntryFound(s: Snapshot, fs: FileSystem, p: Path)
    requires SearchComplete(s) && Agrees(s, fs) && WellFormed(fs)
    requires p in fs.Entries() && Below(p, s.root)
    ensures Classified(s, p)
    decreases |p|
  {
    ParentBelow(p, s.root);
    var q := Parent(p);
    if q != s.root {
      EntryFound(s, fs, q);
      assert q in s.directories;
    }
    assert BaseName(p) in Names(fs, q);
    SplitJoins(p);
  }

  /**
   * A finished search on an undisturbed disk has collected exactly the
   * directories and exactly the files strictly below its folder.
   */
  lemma SearchIsExact(s: Snapshot, fs: FileSystem)
    requires SearchComplete(s) && Agrees(s, fs) && WellFormed(fs)
    ensures forall p :: p in s.directories <==> p in fs.dirs && Below(p, s.root)
    ensures forall p :: p in s.files <==> p in fs.files && Below(p, s.root)
  {
    forall p | p in fs.Entries() && Below(p, s.root)
      ensures Classified(s, p)
    {
      EntryFound(s, fs, p);
    }
  }

  /**
   * A search can only finish on an undisturbed disk whose tree, the folder
   * itself included, holds no empty directory.
   */
  lemma CompleteMeansNoEmptyDirectory(s: Snapshot, fs: FileSystem)
    requires SearchComplete(s) && Agrees(s, fs) && WellFormed(fs)
    ensures forall e :: e in fs.dirs && (e == s.root || Below(e, s.root)) ==> Names(fs, e) != {}
  {
    SearchIsExact(s, fs);
  }

  /**
   * The search never finishes on an undisturbed disk whose tree holds an
   * empty directory (the folder itself included): its `count` never
   * reaches zero, so it never leaves the worklist.
   */
  lemma EmptyDirectoryHangsSearch(s: Snapshot, fs: FileSystem, e: Path)
    requires ScanInv(s) && Agrees(s, fs) && WellFormed(fs)
    requires e in fs.dirs && (e == s.root || Below(e, s.root)) && Names(fs, e) == {}
    ensures s.worklist != []
  {
    if s.worklist == [] {
      ScanInvComplete(s);
      CompleteMeansNoEmptyDirectory(s, fs);
    }
  }

  /** Unlinking files keeps a disk a tree. */
  lemma FewerFilesKeepsWellFormed(fs: FileSystem, files: set<Path>)
    requires WellFormed(fs) && files <= fs.files
    ensures WellFormed(FileSystem(files, fs.dirs))
  {
    var fs' := FileSystem(files, fs.dirs);
    forall p | p in fs'.Entries() && HasParent(p)
      ensures IsName(BaseName(p)) && Parent(p) in fs'.dirs
    {
      assert p in fs.Entries();
    }
  }

  /** An entry whose parent lies below the root lies below it too. */
  lemma ChildBelow(p: Path, root: Path)
    requires HasParent(p) && Below(Parent(p), root)
    ensures Below(p, root)
  {
    SplitJoins(p);
    JoinBelow(Parent(p), BaseName(p), root);
  }

  /**
   * removeFiles after an exact search: every file below the folder is
   * unlinked without failure, and the directory pass (left undisturbed)
   * then removes every directory below it; nothing else on the disk changes.
   */
  lemma RemovalAfterExactSearch(s: Snapshot, fs: FileSystem, n: string)
    requires SearchComplete(s) && Agrees(s, fs) && WellFormed(fs)
    ensures var (r, fs') := StartRemoval(s, fs, n);
      && (r.status.Resolved? || (r.status.Pending? && DrainReady(r, 0, fs')))
      && (r.status.Resolved? ==> fs' == Prune(fs, s.root))
      && (r.status.Pending? ==> Drain(r, 0, fs').1 == Prune(fs, s.root))
  {
    SearchIsExact(s, fs);
    UnlinkAllBelow(s, fs);
    if s.directories != [] {
      PassReady(s, fs, n);
    }
  }

  /** Helper: removeFiles unlinks exactly the files below the folder, without failure. */
  lemma UnlinkAllBelow(s: Snapshot, fs: FileSystem)
    requires SearchComplete(s)
    requires forall p :: p in s.files <==> p in fs.files && Below(p, s.root)
    ensures UnlinkAll(fs, s.files).1.None?
    ensures UnlinkAll(fs, s.files).0 == FileSystem(Prune(fs, s.root).files, fs.dirs)
  {
    var fs' := UnlinkAll(fs, s.files).0;
    assert fs'.files == Prune(fs, s.root).files;
  }

  /** Helper: when directories were found, the pass starts ready to run to the end. */
  lemma PassReady(s: Snapshot, fs: FileSystem, n: string)
    requires SearchComplete(s) && WellFormed(fs) && s.directories != []
    requires forall p :: p in s.directories <==> p in fs.dirs && Below(p, s.root)
    requires UnlinkAll(fs, s.files).1.None?
    requires UnlinkAll(fs, s.files).0 == FileSystem(Prune(fs, s.root).files, fs.dirs)
    ensures var (r, fs') := StartRemoval(s, fs, n);
      r.status.Pending? && DrainReady(r, 0, fs') && Drain(r, 0, fs').1 == Prune(fs, s.root)
  {
    var (r, fs') := StartRemoval(s, fs, n);
    StartRemovalFromQuiet(s, fs, n);
    FewerFilesKeepsWellFormed(fs, fs'.files);
    forall p | p in fs'.Entries() && HasParent(p) && Parent(p) in r.directories
      ensures p in r.directories
    {
      ChildBelow(p, s.root);
    }
    assert DrainReady(r, 0, fs');
    assert Drain(r, 0, fs').1.dirs == Prune(fs, s.root).dirs;
  }

  /** After the removal the folder itself is still there, and empty. */
  lemma PrunedFolderIsEmpty(fs: FileSystem, root: Path)
    requires root in fs.dirs
    ensures ReadDir(Prune(fs, root), root) == Ok({})
  {
    var fs' := Prune(fs, root);
    ListingIsExact(fs', root);
    forall m | IsName(m)
      ensures Join(root, m) !in fs'.Entries()
    {
      JoinBelow(root, m, root);
    }
    assert Names(fs', root) == {};
  }

  /**
   * End to end: on an undisturbed disk, the stat callback that finishes the
   * search hands over to a removal that never fails and, once its directory
   * pass has run, leaves exactly the disk minus everything below the folder,
   * with the folder empty and ready for removeModuleFolder's rmdirSync.
   */
  lemma UndisturbedRunEmptiesFolder(s: Snapshot, d: Path, n: string, fs: FileSystem)
    requires ScanInv(s) && Agrees(s, fs) && WellFormed(fs) && StatEntry(d, n) in s.pending
    requires OnStat(s, d, n, fs).0.removing
    ensures var (r, fs') := OnStat(s, d, n, fs);
      && (r.status.Resolved? || (r.status.Pending? && DrainReady(r, 0, fs')))
      && (r.status.Resolved? ==> fs' == Prune(fs, s.root))
      && (r.status.Pending? ==> Drain(r, 0, fs').1 == Prune(fs, s.root))
    ensures ReadDir(Prune(fs, s.root), s.root) == Ok({})
  {
    var c := Classify(s, d, n, fs);
    FinishingStat(s, d, n, fs);
    RemovalAfterExactSearch(c, fs, n);
    PrunedFolderIsEmpty(fs, s.root);
  }

  /** Helper: the stat callback that reaches removeFiles leaves a complete, true record. */
  lemma FinishingStat(s: Snapshot, d: Path, n: string, fs: FileSystem)
    requires ScanInv(s) && Agrees(s, fs) && StatEntry(d, n) in s.pending
    requires d in s.counts && OnStat(s, d, n, fs).0.removing
    ensures var c := Classify(s, d, n, fs);
      && SearchComplete(c) && Agrees(c, fs) && c.root == s.root && s.root in fs.dirs
      && OnStat(s, d, n, fs) == StartRemoval(c, fs, n)
  {
    var c := Classify(s, d, n, fs);
    StatSuccessKeepsScanInv(s, d, n, fs);
    ClassifyKeepsAgreement(s, d, n, fs);
    ScanInvComplete(c);
  }
}
