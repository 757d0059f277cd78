/**
 * DependencyRemover (module-remover.js:90-256) as an object whose fields its
 * callbacks update in place. Each callback method is proved to take the
 * object from `old(State())` to the corresponding step of the pure model
 * and to keep the invariant `Valid()`.
 */
module Remover {
  import opened Paths
  import opened Fs
  import opened Lists
  import opened DependencyRemoval
  import opened ScanInvariant
  import opened RemovalInvariant

  /**
   * The forEach of removeFiles: unlinks the paths in order and stops at the
   * first one that cannot be unlinked.
   */
  method UnlinkFiles(fs: FileSystem, files: seq<Path>) returns (fs': FileSystem, failure: Option<FsError>)
    ensures (fs', failure) == UnlinkAll(fs, files)
  {
    fs' := fs;
    failure := None;
    var i := 0;
    while i < |files|
      invariant 0 <= i <= |files|
      invariant UnlinkAll(fs', files[i..]) == UnlinkAll(fs, files)
    {
      assert files[i..][1..] == files[i + 1..];
      match Unlink(fs', files[i]) {
        case Err(e) =>
          failure := Some(e);
          return;
        case Ok(next) =>
          fs' := next;
      }
      i := i + 1;
    }
  }

  class DependencyRemover {
    const root: Path
    var directories: seq<Path>
    var files: seq<Path>
    var directoriesBeingSearched: seq<Path>
    var counts: map<Path, int>       // the `count` each listing callback closes over
    var pending: set<Event>          // callbacks the host still owes
    var status: Status               // the promise
    ghost var listed: map<Path, set<string>>
    ghost var blocked: set<Path>
    ghost var removing: bool

    ghost function State(): Snapshot
      reads this
    {
      Snapshot(root, directoriesBeingSearched, directories, files, counts, listed, pending, status, blocked, removing)
    }

    ghost predicate Valid()
      reads this
    {
      Inv(State())
    }

    /** `new DependencyRemover(path)`: empty lists, then the search of `path` starts. */
    constructor (path: Path)
      ensures State() == Initial(path) && Valid()
    {
      root := path;
      directories := [];
      files := [];
      directoriesBeingSearched := [];
      counts := map[];
      pending := {};
      status := Pending;
      listed := map[];
      blocked := {};
      removing := false;
      new;
      GetDirectoryContents(path);
      InitialInv(path);
    }

    /** getDirectoryContents(p): `p` joins the worklist and its listing is requested. */
    method GetDirectoryContents(p: Path)
      modifies this
      ensures State() == old(State()).(worklist := old(directoriesBeingSearched) + [p],
                                       pending := old(pending) + {ListDir(p)})
    {
      directoriesBeingSearched := directoriesBeingSearched + [p];
      pending := pending + {ListDir(p)};
    }

    /** getFileType(d, n): the stat of `d/n` is requested. */
    method GetFileType(d: Path, n: string)
      modifies this
      ensures State() == old(State()).(pending := old(pending) + {StatEntry(d, n)})
    {
      pending := pending + {StatEntry(d, n)};
    }

    /** The readdir callback of getDirectoryContents(d). */
    method HandleListDir(d: Path, fs: FileSystem)
      requires Valid() && ListDir(d) in pending
      modifies this
      ensures State() == OnListDir(old(State()), d, fs) && Valid()
    {
      ghost var s := State();
      OnListDirKeepsInv(s, d, fs);
      pending := pending - {ListDir(d)};
      match ReadDir(fs, d) {
        case Err(e) =>
          status := Settle(status, Rejected(MissingDirectory(d, e)));
          blocked := blocked + {d};
        case Ok(names) =>
          counts := counts[d := |names|];
          listed := listed[d := names];
          if names == {} {
            blocked := blocked + {d};
          }
          GetFileTypes(d, names);
      }
    }

    /** The forEach of that callback: one getFileType per listed entry. */
    method GetFileTypes(d: Path, names: set<string>)
      modifies this
      ensures State() == old(State()).(pending := old(pending) + StatEvents(d, names))
    {
      var rest := names;
      while rest != {}
        invariant rest <= names
        invariant State() == old(State()).(pending := old(pending) + StatEvents(d, names - rest))
        decreases rest
      {
        var n :| n in rest;
        GetFileType(d, n);
        assert StatEvents(d, names - (rest - {n})) == StatEvents(d, names - rest) + {StatEntry(d, n)};
        rest := rest - {n};
      }
      assert names - rest == names;
    }

    /** haveAllDirectoriesBeenChecked: the search is over once the worklist is empty. */
    function HaveAllDirectoriesBeenChecked(): (r: bool)
      reads this
      requires Valid() && !removing
      ensures r <==> directoriesBeingSearched == []
      ensures r ==> pending == {} && status.Pending? && blocked == {}
      ensures r ==> root in listed && forall d :: d in directories ==> d in listed
      ensures r ==> forall d :: d in listed ==> Unclassified(State(), d) == {} && listed[d] != {}
    {
      if |directoriesBeingSearched| == 0 then
        WorklistEmptyMeansScanComplete(State());
        true
      else
        false
    }

    /** removeDirectories(i): the emptiness check of `directories[i]` is requested. */
    method RemoveDirectories(i: nat)
      modifies this
      ensures State() == old(State()).(pending := old(pending) + {CheckEmpty(i)})
    {
      pending := pending + {CheckEmpty(i)};
    }

    /**
     * removeFiles, run from the stat callback of entry `entry`: unlinks the
     * collected files, then resolves or starts the directory pass. An unlink
     * that throws rejects the promise through that callback's `.catch`.
     */
    method RemoveFiles(fs: FileSystem, entry: string) returns (fs': FileSystem)
      modifies this
      ensures (State(), fs') == StartRemoval(old(State()), fs, entry)
    {
      var failure;
      fs', failure := UnlinkFiles(fs, files);
      removing := true;
      if failure.Some? {
        status := Settle(status, Rejected(UnreadableEntry(entry, failure.value)));
      } else if |directories| == 0 {
        status := Settle(status, Resolved);
      } else {
        RemoveDirectories(0);
      }
    }

    /** The stat callback of getFileType(d, n) with the `.then` that sorts its answer. */
    method HandleStat(d: Path, n: string, fs: FileSystem) returns (fs': FileSystem)
      requires Valid() && StatEntry(d, n) in pending
      modifies this
      ensures d in old(counts)
      ensures (State(), fs') == OnStat(old(State()), d, n, fs) && Valid()
    {
      ghost var s := State();
      StatStepFacts(s, d, n, fs);
      fs' := fs;
      var done := SortEntry(d, n, fs);
      if done {
        fs' := RemoveFilesIfSearched(fs, n);
      }
      assert (State(), fs') == OnStat(s, d, n, fs);
    }

    /** The end of that `.then`: removeFiles once no directory is left to search. */
    method RemoveFilesIfSearched(fs: FileSystem, n: string) returns (fs': FileSystem)
      requires Valid() && !removing
      modifies this
      ensures (State(), fs') ==
        if old(directoriesBeingSearched) == [] then StartRemoval(old(State()), fs, n) else (old(State()), fs)
    {
      fs' := fs;
      if HaveAllDirectoriesBeenChecked() {
        fs' := RemoveFiles(fs, n);
      }
    }

    /**
     * Sorts `d/n` by its stat: a directory is pushed on the worklist (its
     * search requested) and joins `directories`, a file joins `files`, and at
     * a zero `count` `d` is spliced off the worklist. A failed stat rejects.
     * Reports whether the stat succeeded and `count` reached zero.
     */
    method SortEntry(d: Path, n: string, fs: FileSystem) returns (done: bool)
      requires StatEntry(d, n) in pending && d in counts
      modifies this
      ensures State() == Classify(old(State()), d, n, fs)
      ensures done <==> Stat(fs, Join(d, n)).Ok? && counts[d] == 0
    {
      var p := Join(d, n);
      pending := pending - {StatEntry(d, n)};
      done := false;
      match Stat(fs, p) {
        case Err(e) =>
          status := Settle(status, Rejected(UnreadableEntry(n, e)));
          blocked := blocked + {d};
        case Ok(isDirectory) =>
          if isDirectory {
            GetDirectoryContents(p);
          }
          var count := counts[d] - 1;
          counts := counts[d := count];
          if isDirectory {
            directories := directories + [p];
          } else {
            files := files + [p];
          }
          if count == 0 {
            directoriesBeingSearched := SpliceOne(directoriesBeingSearched, IndexOf(directoriesBeingSearched, d));
            done := true;
          }
      }
    }

    /** The readdir callback of removeDirectories(i), through checkIfEmptyDirectory. */
    method HandleCheckEmpty(i: nat, fs: FileSystem) returns (fs': FileSystem)
      requires Valid() && CheckEmpty(i) in pending
      modifies this
      ensures i < |old(directories)|
      ensures (State(), fs') == OnCheckEmpty(old(State()), i, fs) && Valid()
    {
      ghost var s := State();
      EventMatchesPhase(s, CheckEmpty(i));
      OnCheckEmptyKeepsInv(s, i, fs);
      fs' := fs;
      var d := directories[i];
      pending := pending - {CheckEmpty(i)};
      match CheckIfEmptyDirectory(fs, d) {
        case Err(e) =>
          status := Settle(status, Rejected(EmptinessCheckFailed(d, e)));
        case Ok(isEmpty) =>
          if isEmpty {
            fs' := Rmdir(fs, d).value;
            directories := SpliceOne(directories, i);
            if |directories| > 0 {
              RemoveDirectories(0);
            } else {
              status := Settle(status, Resolved);
            }
          } else {
            var next := i + 1;
            if next == |directories| {
              RemoveDirectories(0);
            } else {
              RemoveDirectories(next);
            }
          }
      }
    }
  }
}
