/**
 * The two JavaScript array operations the remover relies on to take an
 * element out of a list: `indexOf` and `splice(start, 1)`.
 */
module Lists {

  ghost predicate Distinct<T>(s: seq<T>) {
    forall i, j :: 0 <= i < j < |s| ==> s[i] != s[j]
  }

  /** `s.indexOf(x)`: the first position of `x`, or -1 when `x` is absent. */
  function IndexOf<T(==)>(s: seq<T>, x: T): (i: int)
    ensures -1 <= i < |s|
    ensures i == -1 <==> x !in s
    ensures i >= 0 ==> s[i] == x && x !in s[..i]
  {
    if |s| == 0 then -1
    else if s[0] == x then 0
    else
      var j := IndexOf(s[1..], x);
      assert s[1..][..if j < 0 then 0 else j] == s[1..if j < 0 then 1 else j + 1];
      if j < 0 then -1 else j + 1
  }

  /**
   * `s.splice(start, 1)`: removes one element. A negative start counts back
   * from the end, as in JavaScript; a start at or past the end removes nothing.
   */
  function SpliceOne<T>(s: seq<T>, start: int): (r: seq<T>)
    ensures 0 <= start < |s| ==> r == s[..start] + s[start + 1..]
    ensures -|s| <= start < 0 ==> r == s[..|s| + start] + s[|s| + start + 1..]
    ensures start < -|s| && s != [] ==> r == s[1..]
    ensures start >= |s| ==> r == s
    ensures |r| == if s == [] || start >= |s| then |s| else |s| - 1
  {
    var k := if start < 0 then (if |s| + start < 0 then 0 else |s| + start) else start;
    if k < |s| then s[..k] + s[k + 1..] else s
  }

  /** Splicing at an index in range drops exactly that element and keeps the rest in order. */
  lemma SpliceAt<T>(s: seq<T>, i: nat)
    requires i < |s|
    ensures |SpliceOne(s, i)| == |s| - 1
    ensures forall k :: 0 <= k < i ==> SpliceOne(s, i)[k] == s[k]
    ensures forall k :: i <= k < |s| - 1 ==> SpliceOne(s, i)[k] == s[k + 1]
    ensures multiset(SpliceOne(s, i)) + multiset{s[i]} == multiset(s)
  {
    assert s == s[..i] + [s[i]] + s[i + 1..];
  }

  /** On a list without repeats, splicing at an index removes that element and nothing else. */
  lemma SpliceAtDistinct<T>(s: seq<T>, i: nat)
    requires i < |s| && Distinct(s)
    ensures Distinct(SpliceOne(s, i))
    ensures forall x :: x in SpliceOne(s, i) <==> x in s && x != s[i]
  {
    SpliceAt(s, i);
    var r := SpliceOne(s, i);
    forall x | x in s && x != s[i]
      ensures x in r
    {
      var j :| 0 <= j < |s| && s[j] == x;
      if j < i {
        assert r[j] == x;
      } else {
        assert r[j - 1] == x;
      }
    }
    forall x | x in r
      ensures x in s && x != s[i]
    {
      var j :| 0 <= j < |r| && r[j] == x;
      if j < i {
        assert s[j] == x;
      } else {
        assert s[j + 1] == x;
      }
    }
  }

  /** `s.splice(s.indexOf(x), 1)` on a list without repeats removes `x` and nothing else. */
  lemma SpliceIndexOf<T>(s: seq<T>, x: T)
    requires x in s && Distinct(s)
    ensures Distinct(SpliceOne(s, IndexOf(s, x)))
    ensures forall y :: y in SpliceOne(s, IndexOf(s, x)) <==> y in s && y != x
  {
    SpliceAtDistinct(s, IndexOf(s, x));
  }
}
