/**
 * Slash-separated relative paths as the remover builds them: a child's path is
 * its directory's path, a '/', and the entry name. The parent of a path is
 * everything before its last '/', the base name everything after it.
 */
module Paths {

  type Path = string

  /** An entry name as a directory listing returns it: non-empty, no '/'. */
  predicate IsName(n: string) {
    |n| > 0 && '/' !in n
  }

  /** `directoryPath + "/" + file` */
  function Join(dir: Path, name: string): Path {
    dir + "/" + name
  }

  /** Index of the last '/' in `p`, or -1 when there is none. */
  function LastSlash(p: Path): (k: int)
    ensures -1 <= k < |p|
    ensures k >= 0 ==> p[k] == '/'
    ensures forall j :: k < j < |p| ==> p[j] != '/'
  {
    if |p| == 0 then -1
    else if p[|p| - 1] == '/' then |p| - 1
    else LastSlash(p[..|p| - 1])
  }

  predicate HasParent(p: Path) {
    LastSlash(p) >= 0
  }

  function Parent(p: Path): Path
    requires HasParent(p)
  {
    p[..LastSlash(p)]
  }

  function BaseName(p: Path): string
    requires HasParent(p)
  {
    p[LastSlash(p) + 1..]
  }

  /** `p` lies strictly inside the directory `root`. */
  predicate Below(p: Path, root: Path) {
    |p| > |root| && p[..|root|] == root && p[|root|] == '/'
  }

  /** Joining a name onto a directory can be undone: the parent is the directory, the base name the name. */
  lemma JoinSplits(dir: Path, name: string)
    requires IsName(name)
    ensures HasParent(Join(dir, name))
    ensures Parent(Join(dir, name)) == dir && BaseName(Join(dir, name)) == name
  {
    var p := Join(dir, name);
    var k := LastSlash(p);
    assert p[|dir|] == '/';
    assert k == |dir|;
  }

  /** Splitting a path and joining the parts gives the path back. */
  lemma SplitJoins(p: Path)
    requires HasParent(p)
    ensures Join(Parent(p), BaseName(p)) == p
  {
    var k := LastSlash(p);
    assert p == p[..k] + [p[k]] + p[k + 1..];
  }

  /** Distinct (directory, name) pairs give distinct paths. */
  lemma JoinInjective(d1: Path, n1: string, d2: Path, n2: string)
    requires IsName(n1) && IsName(n2)
    ensures Join(d1, n1) == Join(d2, n2) <==> d1 == d2 && n1 == n2
  {
    JoinSplits(d1, n1);
    JoinSplits(d2, n2);
  }

  /** A child of `root` or of anything below `root` is itself below `root`. */
  lemma JoinBelow(dir: Path, name: string, root: Path)
    requires dir == root || Below(dir, root)
    ensures Below(Join(dir, name), root)
  {
    var p := Join(dir, name);
    assert p[..|dir|] == dir;
    if dir != root {
      assert p[..|root|] == dir[..|root|];
    }
  }

  /** Walking up from a path below `root` stays below `root` until it reaches `root`. */
  lemma ParentBelow(p: Path, root: Path)
    requires Below(p, root)
    ensures HasParent(p)
    ensures Parent(p) == root || Below(Parent(p), root)
    ensures |Parent(p)| < |p|
  {
    var k := LastSlash(p);
    assert p[|root|] == '/';
    assert k >= |root|;
    if k > |root| {
      assert Parent(p)[..|root|] == p[..|root|];
      assert Parent(p)[|root|] == p[|root|];
    } else {
      assert Parent(p) == p[..|root|];
    }
  }
}
