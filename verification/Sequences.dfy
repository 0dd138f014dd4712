/** Notions about sequences that several modules share. */
module Sequences {

  ghost predicate Distinct<T>(s: seq<T>) {
    forall i, j :: 0 <= i < j < |s| ==> s[i] != s[j]
  }

  function Without<T>(s: seq<T>, k: nat): seq<T>
    requires k < |s|
  {
    s[..k] + s[k + 1..]
  }

  lemma WithoutMembers<T>(s: seq<T>, k: nat)
    requires k < |s| && Distinct(s)
    ensures Distinct(Without(s, k))
    ensures forall t :: t in Without(s, k) <==> t in s && t != s[k]
  {
    var r := Without(s, k);
    forall t ensures t in r <==> t in s && t != s[k] {
      if t in s && t != s[k] {
        var i :| 0 <= i < |s| && s[i] == t;
        assert r[if i < k then i else i - 1] == t;
      }
    }
  }

  lemma DistinctConcat<T>(s: seq<T>, t: seq<T>)
    requires Distinct(s) && Distinct(t) && forall e | e in s :: e !in t
    ensures Distinct(s + t)
  {
    forall i, j | 0 <= i < j < |s + t| ensures (s + t)[i] != (s + t)[j] {
      if i < |s| <= j {
        assert s[i] in s && t[j - |s|] in t;
      }
    }
  }

  function Reversed<T>(s: seq<T>): (r: seq<T>) {
    seq(|s|, i requires 0 <= i < |s| => s[|s| - 1 - i])
  }

  lemma ReversedSnoc<T>(s: seq<T>, x: T)
    ensures Reversed(s + [x]) == [x] + Reversed(s)
  {
  }

  lemma ReversedSuffix<T>(s: seq<T>, i: nat)
    requires 0 < i <= |s|
    ensures |Reversed(s)| == |s|
    ensures Reversed(s)[..|s| - i + 1] == Reversed(s)[..|s| - i] + [s[i - 1]]
  {
  }

  // ---- list_max ----

  /** The first place of the greatest rank. */
  function FirstGreatest<T>(rank: T -> int, s: seq<T>): (k: nat)
    requires s != []
    ensures k < |s|
    ensures forall j :: 0 <= j < |s| ==> rank(s[j]) <= rank(s[k])
    ensures forall j :: 0 <= j < k ==> rank(s[j]) < rank(s[k])
  {
    if |s| == 1 then 0
    else
      var k := FirstGreatest(rank, s[..|s| - 1]);
      if rank(s[k]) < rank(s[|s| - 1]) then |s| - 1 else k
  }

  /** The loop of list_max in pintos/src/lib/kernel/list.c, on the ranks of the elements. */
  method FindGreatest<T>(rank: T -> int, s: seq<T>) returns (k: nat)
    requires s != []
    ensures k == FirstGreatest(rank, s)
  {
    k := 0;
    var i := 1;
    assert s[..1] == [s[0]];
    while i < |s|
      invariant 1 <= i <= |s| && k == FirstGreatest(rank, s[..i])
    {
      assert s[..i + 1][..i] == s[..i];
      if rank(s[k]) < rank(s[i]) {
        k := i;
      }
      i := i + 1;
    }
    assert s[..i] == s;
  }
}
