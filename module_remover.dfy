/**
 * EasyNodeModuleRemover (module-remover.js:41-84): one DependencyRemover per
 * dependency key, and a countdown that removes the emptied top-level
 * folders once every remover has resolved.
 */
module ModuleRemover {
  import opened Paths
  import opened Fs
  import opened Lists
  import opened DependencyRemoval
  import opened Remover

  const Prefix: string := "node_modules/"

  /** The folder of each dependency, in key order; the prefix strips back off. */
  function TargetPaths(deps: seq<string>): (r: seq<Path>)
    ensures |r| == |deps|
    ensures forall i :: 0 <= i < |deps| ==>
      |r[i]| >= |Prefix| && r[i][..|Prefix|] == Prefix && r[i][|Prefix|..] == deps[i]
  {
    if deps == [] then []
    else [Prefix + deps[0]] + TargetPaths(deps[1..])
  }

  /** Two dependencies share a folder only if they are the same key. */
  lemma TargetPathsDistinct(deps: seq<string>)
    ensures Distinct(TargetPaths(deps)) <==> Distinct(deps)
  {
    var r := TargetPaths(deps);
    forall i | 0 <= i < |deps|
      ensures r[i] == Prefix + deps[i]
    {
      assert r[i] == r[i][..|Prefix|] + r[i][|Prefix|..];
    }
  }

  /** The forEach of removeModuleFolder: rmdirSync in order, stopping at the first throw. */
  function RmdirAll(fs: FileSystem, paths: seq<Path>): (r: (FileSystem, Option<FsError>))
    ensures r.0.files == fs.files && r.0.dirs <= fs.dirs
    ensures fs.dirs - (set p | p in paths) <= r.0.dirs
    ensures r.1.None? ==> r.0.dirs == fs.dirs - set p | p in paths
    ensures Distinct(paths) && (forall p :: p in paths ==> ReadDir(fs, p) == Ok({})) ==> r.1.None?
    decreases |paths|
  {
    if paths == [] then (fs, None)
    else match Rmdir(fs, paths[0])
      case Err(e) => (fs, Some(e))
      case Ok(fs') =>
        assert Distinct(paths) ==> paths[0] !in paths[1..];
        forall p | Distinct(paths) && p in paths[1..] && ReadDir(fs, p) == Ok({})
          ensures ReadDir(fs', p) == Ok({})
        {
          assert p != paths[0];
          NamesShrink(fs, fs', p);
          assert Names(fs', p) == {} && p in fs'.dirs;
        }
        assert forall p :: p in paths <==> p == paths[0] || p in paths[1..];
        RmdirAll(fs', paths[1..])
  }

  /** A disk with fewer entries lists fewer names in each directory. */
  lemma NamesShrink(fs: FileSystem, fs': FileSystem, d: Path)
    requires fs'.Entries() <= fs.Entries()
    ensures Names(fs', d) <= Names(fs, d)
  {
  }

  /** The rmdirSync loop of removeModuleFolder. */
  method RemoveFolders(fs: FileSystem, paths: seq<Path>) returns (fs': FileSystem, failure: Option<FsError>)
    ensures (fs', failure) == RmdirAll(fs, paths)
  {
    fs' := fs;
    failure := None;
    var i := 0;
    while i < |paths|
      invariant 0 <= i <= |paths|
      invariant RmdirAll(fs', paths[i..]) == RmdirAll(fs, paths)
    {
      assert paths[i..][1..] == paths[i + 1..];
      match Rmdir(fs', paths[i]) {
        case Err(e) =>
          failure := Some(e);
          return;
        case Ok(next) =>
          fs' := next;
      }
      i := i + 1;
    }
  }

  /** The indices below `n`. */
  function Indices(n: nat): (r: set<nat>)
    ensures forall k: nat :: k in r <==> k < n
    ensures |r| == n
  {
    if n == 0 then {} else Indices(n - 1) + {n - 1}
  }

  /** A set of indices below `n` has `n` members exactly when it holds them all. */
  lemma {:induction false} FullIffAll(s: set<nat>, n: nat)
    requires forall k :: k in s ==> k < n
    ensures |s| == n <==> forall j: nat :: j < n ==> j in s
    ensures |s| <= n
  {
    var all := Indices(n);
    assert s <= all;
    assert |all - s| == |all| - |s|;
    if |s| == n {
      assert all - s == {};
      forall j: nat | j < n
        ensures j in s
      {
        assert j in all;
      }
    }
    if forall j: nat :: j < n ==> j in s {
      assert s == all;
    }
  }

  class EasyNodeModuleRemover {
    const data: seq<string>           // the keys of one dependency section of package.json
    var dependencies: seq<string>
    var numOfModulesToRemove: int
    var removers: seq<DependencyRemover>
    ghost var resolved: set<nat>      // the removers whose `.then` has run

    /** The countdown equals the number of removers that have not resolved yet. */
    ghost predicate Valid()
      reads this
    {
      && |removers| == |dependencies|
      && (forall k :: k in resolved ==> k < |dependencies|)
      && (|dependencies| > 0 ==> numOfModulesToRemove == |dependencies| - |resolved|)
    }

    constructor (data: seq<string>)
      ensures this.data == data && dependencies == [] && removers == [] && resolved == {}
      ensures Valid()
    {
      this.data := data;
      dependencies := [];
      numOfModulesToRemove := 0;
      removers := [];
      resolved := {};
    }

    /**
     * init: the dependencies are the keys; when there are any, the countdown
     * starts at their number and one fresh remover starts on each folder.
     */
    method Init()
      modifies this
      ensures dependencies == data && resolved == {} && Valid()
      ensures |data| > 0 ==> numOfModulesToRemove == |data|
      ensures |data| == 0 ==> numOfModulesToRemove == old(numOfModulesToRemove)
      ensures forall k :: 0 <= k < |removers| ==>
        fresh(removers[k]) && removers[k].Valid() && removers[k].State() == Initial(TargetPaths(data)[k])
    {
      dependencies := data;
      resolved := {};
      removers := [];
      if |dependencies| > 0 {
        numOfModulesToRemove := |dependencies|;
        var targets := TargetPaths(dependencies);
        var i := 0;
        while i < |targets|
          invariant 0 <= i <= |targets| && |removers| == i
          invariant dependencies == data && resolved == {} && numOfModulesToRemove == |data|
          invariant forall k :: 0 <= k < i ==>
            fresh(removers[k]) && removers[k].Valid() && removers[k].State() == Initial(targets[k])
        {
          var remover := new DependencyRemover(targets[i]);
          removers := removers + [remover];
          i := i + 1;
        }
      }
    }

    /** removeModuleFolder: count down; at zero, remove every dependency folder in key order. */
    method RemoveModuleFolder(fs: FileSystem) returns (fs': FileSystem, failure: Option<FsError>)
      modifies this
      ensures numOfModulesToRemove == old(numOfModulesToRemove) - 1
      ensures dependencies == old(dependencies) && removers == old(removers) && resolved == old(resolved)
      ensures numOfModulesToRemove != 0 ==> fs' == fs && failure.None?
      ensures numOfModulesToRemove == 0 ==> (fs', failure) == RmdirAll(fs, TargetPaths(dependencies))
    {
      numOfModulesToRemove := numOfModulesToRemove - 1;
      fs' := fs;
      failure := None;
      if numOfModulesToRemove == 0 {
        fs', failure := RemoveFolders(fs, TargetPaths(dependencies));
      }
    }

    /**
     * The `.then` that init attaches to the k-th remover's promise. The
     * folders go only when this was the last remover to resolve; a remover
     * that never resolves (a rejected one) keeps them all in place.
     */
    method OnRemoverResolved(k: nat, fs: FileSystem) returns (fs': FileSystem, failure: Option<FsError>)
      requires Valid() && k < |removers| && k !in resolved && removers[k].status.Resolved?
      modifies this
      ensures Valid() && resolved == old(resolved) + {k}
      ensures numOfModulesToRemove == 0 <==> forall j: nat :: j < |dependencies| ==> j in resolved
      ensures numOfModulesToRemove == 0 ==> (fs', failure) == RmdirAll(fs, TargetPaths(dependencies))
      ensures numOfModulesToRemove != 0 ==> fs' == fs && failure.None?
    {
      resolved := resolved + {k};
      fs', failure := RemoveModuleFolder(fs);
      FullIffAll(resolved, |dependencies|);
    }
  }
}
