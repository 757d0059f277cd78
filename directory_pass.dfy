/**
 * The directory pass of removeDirectories (module-remover.js:189-256) run
 * to the end on a disk nobody else touches: it always finishes, it never
 * needs the wrap-around to index 0, and it removes exactly the collected
 * directories.
 */
module DirectoryPass {
  import opened Paths
  import opened Fs
  import opened Lists
  import opened DependencyRemoval
  import opened RemovalInvariant

  /** Every entry whose parent is one of `dirs` is itself one of `dirs`. */
  ghost predicate Closed(dirs: seq<Path>, fs: FileSystem) {
    forall p :: p in fs.Entries() && HasParent(p) && Parent(p) in dirs ==> p in dirs
  }

  /** The position of a longest path of the list. */
  function LongestIndex(dirs: seq<Path>): (k: nat)
    requires |dirs| > 0
    ensures k < |dirs| && forall j :: 0 <= j < |dirs| ==> |dirs[j]| <= |dirs[k]|
  {
    if |dirs| == 1 then 0
    else
      var k := LongestIndex(dirs[1..]);
      assert forall j :: 1 <= j < |dirs| ==> dirs[j] == dirs[1..][j - 1];
      if |dirs[0]| >= |dirs[1..][k]| then 0 else k + 1
  }

  /**
   * A closed, non-empty list of directories always holds an empty one:
   * the longest path cannot contain anything.
   */
  lemma SomeDirectoryEmpty(dirs: seq<Path>, fs: FileSystem)
    requires |dirs| > 0 && Closed(dirs, fs)
    ensures exists k :: 0 <= k < |dirs| && Names(fs, dirs[k]) == {}
  {
    var k := LongestIndex(dirs);
    var d := dirs[k];
    ListingIsExact(fs, d);
    forall n | IsName(n)
      ensures Join(d, n) !in fs.Entries()
    {
      JoinSplits(d, n);
    }
    assert Names(fs, d) == {};
  }

  /** What the pass needs when the check at index `i` is in flight. */
  ghost predicate DrainReady(s: Snapshot, i: nat, fs: FileSystem) {
    && RemovalInv(s) && s.status.Pending? && CheckEmpty(i) in s.pending
    && WellFormed(fs)
    && (forall p :: p in s.directories ==> p in fs.dirs)
    && Closed(s.directories, fs)
    && (forall k :: 0 <= k < i && k < |s.directories| ==> Names(fs, s.directories[k]) != {})
  }

  /**
   * The wrap-around of checkIfEmptyDirectory is dead code on an undisturbed
   * disk: a non-empty directory is never the last one still to be checked.
   */
  lemma NoWrapWhenUndisturbed(s: Snapshot, i: nat, fs: FileSystem)
    requires DrainReady(s, i, fs)
    ensures i < |s.directories|
    ensures Names(fs, s.directories[i]) != {} ==> i + 1 < |s.directories|
  {
    if Names(fs, s.directories[i]) != {} {
      SomeDirectoryEmpty(s.directories, fs);
      var k :| 0 <= k < |s.directories| && Names(fs, s.directories[k]) == {};
      assert k > i;
    }
  }

  /** Helper: a non-empty directory is skipped and the check moves to the next index. */
  lemma SkipStep(s: Snapshot, i: nat, fs: FileSystem)
    requires DrainReady(s, i, fs)
    requires Names(fs, s.directories[i]) != {}
    ensures i + 1 < |s.directories|
    ensures var (r, fs') := OnCheckEmpty(s, i, fs);
      fs' == fs && r.directories == s.directories && DrainReady(r, i + 1, fs)
  {
    NoWrapWhenUndisturbed(s, i, fs);
    OnCheckEmptyKeepsInv(s, i, fs);
    CheckEmptyNextIndex(s, i, fs);
  }

  /** Helper: an empty directory is removed and the pass restarts at 0, or ends. */
  lemma RemoveStep(s: Snapshot, i: nat, fs: FileSystem)
    requires DrainReady(s, i, fs)
    requires Names(fs, s.directories[i]) == {}
    ensures var (r, fs') := OnCheckEmpty(s, i, fs);
      && fs'.files == fs.files && fs'.dirs == fs.dirs - {s.directories[i]}
      && (forall p :: p in r.directories <==> p in s.directories && p != s.directories[i])
      && |r.directories| < |s.directories|
      && (r.directories == [] ==> r.status.Resolved? && r.pending == {})
      && (r.directories != [] ==> DrainReady(r, 0, fs'))
  {
    var d := s.directories[i];
    var (r, fs') := OnCheckEmpty(s, i, fs);
    OnCheckEmptyKeepsInv(s, i, fs);
    CheckEmptyRestarts(s, i, fs);
    SpliceAtDistinct(s.directories, i);
    RmdirKeepsWellFormed(fs, d);
    assert fs' == Rmdir(fs, d).value;
    forall p | p in fs'.Entries() && HasParent(p) && Parent(p) in r.directories
      ensures p in r.directories
    {
      assert p in s.directories;
    }
  }

  /**
   * The remaining callbacks of removeDirectories, from the check at index
   * `i`, on a disk nobody else touches. They end with the promise resolved,
   * every collected directory removed, and nothing else changed.
   */
  ghost function Drain(s: Snapshot, i: nat, fs: FileSystem): (r: (Snapshot, FileSystem))
    requires DrainReady(s, i, fs)
    ensures r.0.status.Resolved? && r.0.directories == [] && r.0.pending == {}
    ensures r.1.files == fs.files
    ensures r.1.dirs == fs.dirs - set p | p in s.directories
    decreases |s.directories|, |s.directories| - i
  {
    NoWrapWhenUndisturbed(s, i, fs);
    var next := OnCheckEmpty(s, i, fs);
    if Names(fs, s.directories[i]) != {} then
      SkipStep(s, i, fs);
      Drain(next.0, i + 1, next.1)
    else
      RemoveStep(s, i, fs);
      if next.0.directories == [] then next
      else Drain(next.0, 0, next.1)
  }
}
