/**
 Strict weak orders over the elements of a finite sequence, the notion of a stable
 rearrangement, and the count of descents that drives the natural merge sort.

 `less` is only ever asked about elements of the sequences at hand, so nothing is
 assumed about it outside of them.
 */
module Order {
  import opened Sequences

  /** `less` is irreflexive and transitive, and so is incomparability. */
  ghost predicate StrictWeak<T>(less: (T, T) -> bool, s: seq<T>) {
    && (forall i :: 0 <= i < |s| ==> !less(s[i], s[i]))
    && (forall i, j, k :: 0 <= i < |s| && 0 <= j < |s| && 0 <= k < |s| && less(s[i], s[j]) && less(s[j], s[k])
                          ==> less(s[i], s[k]))
    && (forall i, j, k :: 0 <= i < |s| && 0 <= j < |s| && 0 <= k < |s| && !less(s[i], s[j]) && !less(s[j], s[k])
                          ==> !less(s[i], s[k]))
  }

  ghost predicate Sorted<T>(less: (T, T) -> bool, s: seq<T>) {
    forall i, j :: 0 <= i < j < |s| ==> !less(s[j], s[i])
  }

  ghost predicate Before<T>(s: seq<T>, x: T, y: T) {
    exists i, j :: 0 <= i < j < |s| && s[i] == x && s[j] == y
  }

  /** `t` holds exactly the elements of `s`, and the only pairs whose order changed are
      pairs that `less` strictly orders.  In particular equivalent elements keep their order. */
  ghost predicate StableRearrangement<T>(less: (T, T) -> bool, s: seq<T>, t: seq<T>) {
    && Distinct(s) && Distinct(t)
    && multiset(s) == multiset(t)
    && (forall x, y | x in s && y in s :: Before(s, x, y) && Before(t, y, x) ==> less(y, x))
  }

  /** The number of adjacent pairs that are out of order.  A nonempty sequence has one
      more maximal nondecreasing run than it has descents. */
  ghost function Descents<T>(less: (T, T) -> bool, s: seq<T>): nat {
    if |s| < 2 then 0 else (if less(s[1], s[0]) then 1 else 0) + Descents(less, s[1..])
  }

  lemma SameElements<T>(s: seq<T>, t: seq<T>)
    requires multiset(s) == multiset(t)
    ensures |s| == |t|
    ensures forall x :: x in s <==> x in t
  {
    assert |s| == |multiset(s)| == |multiset(t)| == |t|;
    forall x ensures x in s <==> x in t {
      assert x in s <==> x in multiset(s);
      assert x in t <==> x in multiset(t);
    }
  }

  lemma StrictWeakRearranged<T>(less: (T, T) -> bool, s: seq<T>, t: seq<T>)
    requires StrictWeak(less, s) && forall x | x in t :: x in s
    ensures StrictWeak(less, t)
  {
    forall i | 0 <= i < |t| ensures !less(t[i], t[i]) {
      assert t[i] in s;
      var a :| 0 <= a < |s| && s[a] == t[i];
    }
    forall i, j, k | 0 <= i < |t| && 0 <= j < |t| && 0 <= k < |t|
      ensures less(t[i], t[j]) && less(t[j], t[k]) ==> less(t[i], t[k])
      ensures !less(t[i], t[j]) && !less(t[j], t[k]) ==> !less(t[i], t[k])
    {
      assert t[i] in s && t[j] in s && t[k] in s;
      var a :| 0 <= a < |s| && s[a] == t[i];
      var b :| 0 <= b < |s| && s[b] == t[j];
      var c :| 0 <= c < |s| && s[c] == t[k];
    }
  }

  lemma BeforeTotal<T>(s: seq<T>, x: T, y: T)
    requires x in s && y in s && x != y
    ensures Before(s, x, y) || Before(s, y, x)
  {
    var i :| 0 <= i < |s| && s[i] == x;
    var j :| 0 <= j < |s| && s[j] == y;
    assert i < j || j < i;
  }

  lemma StableReflexive<T>(less: (T, T) -> bool, s: seq<T>)
    requires Distinct(s)
    ensures StableRearrangement(less, s, s)
  {
  }

  /** Stable rearrangements compose, so a sort may be proved stable one move at a time. */
  lemma StableTransitive<T>(less: (T, T) -> bool, s: seq<T>, t: seq<T>, u: seq<T>)
    requires StableRearrangement(less, s, t) && StableRearrangement(less, t, u)
    ensures StableRearrangement(less, s, u)
  {
    SameElements(s, t);
    forall x, y | x in s && y in s && Before(s, x, y) && Before(u, y, x)
      ensures less(y, x)
    {
      assert x != y;
      BeforeTotal(t, x, y);
    }
  }

  /** The sequence obtained by moving the element at `m` to position `i <= m`. */
  ghost function MoveLeft<T>(s: seq<T>, i: nat, m: nat): (r: seq<T>)
    requires i <= m < |s|
    ensures |r| == |s|
  {
    s[..i] + [s[m]] + s[i..m] + s[m + 1..]
  }

  lemma MoveLeftIndex<T>(s: seq<T>, i: nat, m: nat, k: nat)
    requires i <= m < |s| && k < |s|
    ensures MoveLeft(s, i, m)[k] == if k < i || k > m then s[k] else if k == i then s[m] else s[k - 1]
  {
  }

  lemma MoveLeftDistinct<T>(s: seq<T>, i: nat, m: nat)
    requires i <= m < |s| && Distinct(s)
    ensures Distinct(MoveLeft(s, i, m))
    ensures multiset(MoveLeft(s, i, m)) == multiset(s)
  {
    assert s == s[..i] + s[i..m] + [s[m]] + s[m + 1..];
    var t := MoveLeft(s, i, m);
    var origin := (k: int) => if k < i || k > m then k else if k == i then m else k - 1;
    forall k | 0 <= k < |s|
      ensures t[k] == s[origin(k)]
    {
      MoveLeftIndex(s, i, m, k);
    }
    forall c, d | 0 <= c < d < |t|
      ensures t[c] != t[d]
    {
      assert s[origin(c)] != s[origin(d)];
    }
  }

  /** Moving an element left past elements that it is strictly less than is stable. */
  lemma MoveLeftStable<T>(less: (T, T) -> bool, s: seq<T>, i: nat, m: nat)
    requires i <= m < |s| && Distinct(s)
    requires forall k :: i <= k < m ==> less(s[m], s[k])
    ensures StableRearrangement(less, s, MoveLeft(s, i, m))
  {
    var t := MoveLeft(s, i, m);
    MoveLeftDistinct(s, i, m);
    forall x, y | x in s && y in s && Before(s, x, y) && Before(t, y, x)
      ensures less(y, x)
    {
      var a, b :| 0 <= a < b < |s| && s[a] == x && s[b] == y;
      var c, d :| 0 <= c < d < |t| && t[c] == y && t[d] == x;
      MoveLeftIndex(s, i, m, c);
      MoveLeftIndex(s, i, m, d);
    }
  }

  lemma FirstIsFirst<T>(t: seq<T>, u: seq<T>)
    requires Distinct(t) && Distinct(u) && multiset(t) == multiset(u) && t != []
    requires forall x, y | x in t && y in t && Before(t, x, y) :: Before(u, x, y)
    ensures u != [] && u[0] == t[0]
  {
    SameElements(t, u);
    assert u[0] in t;
    var j :| 0 <= j < |t| && t[j] == u[0];
    assert !Before(u, t[0], u[0]);
    assert j == 0 || Before(t, t[0], t[j]);
  }

  lemma RestKeepsOrder<T>(t: seq<T>, u: seq<T>, x: T, y: T)
    requires t != [] && u != [] && u[0] == t[0] && Distinct(t)
    requires x in t && y in t && Before(t, x, y) ==> Before(u, x, y)
    requires Before(t[1..], x, y)
    ensures Before(u[1..], x, y)
  {
    var a, b :| 0 <= a < b < |t[1..]| && t[1..][a] == x && t[1..][b] == y;
    assert t[a + 1] == x && t[b + 1] == y;
    var c, d :| 0 <= c < d < |u| && u[c] == x && u[d] == y;
    assert c != 0;
    assert u[1..][c - 1] == x && u[1..][d - 1] == y;
  }

  lemma RestFacts<T>(t: seq<T>)
    requires t != [] && Distinct(t)
    ensures Distinct(t[1..]) && t == [t[0]] + t[1..]
    ensures multiset(t[1..]) == multiset(t) - multiset{t[0]}
  {
    assert t == [t[0]] + t[1..];
  }

  lemma {:induction false} SameOrderSameSeq<T>(t: seq<T>, u: seq<T>)
    requires Distinct(t) && Distinct(u) && multiset(t) == multiset(u)
    requires forall x, y | x in t && y in t && Before(t, x, y) :: Before(u, x, y)
    ensures t == u
  {
    hide Before, Distinct;
    if t == [] {
      SameElements(t, u);
    } else {
      FirstIsFirst(t, u);
      RestFacts(t);
      RestFacts(u);
      forall x, y | x in t[1..] && y in t[1..] && Before(t[1..], x, y)
        ensures Before(u[1..], x, y)
      {
        RestKeepsOrder(t, u, x, y);
      }
      SameOrderSameSeq(t[1..], u[1..]);
    }
  }

  /** A sorted stable rearrangement is unique: this is what makes it a specification. */
  lemma StableSortUnique<T>(less: (T, T) -> bool, s: seq<T>, t: seq<T>, u: seq<T>)
    requires StableRearrangement(less, s, t) && Sorted(less, t)
    requires StableRearrangement(less, s, u) && Sorted(less, u)
    ensures t == u
  {
    SameElements(s, t);
    SameElements(s, u);
    forall x, y | x in t && y in t && Before(t, x, y)
      ensures Before(u, x, y)
    {
      assert x != y;
      BeforeTotal(u, x, y);
      BeforeTotal(s, x, y);
    }
    SameOrderSameSeq(t, u);
  }

  lemma {:induction false} DescentsConcat<T>(less: (T, T) -> bool, x: seq<T>, y: seq<T>)
    requires x != [] && y != []
    ensures Descents(less, x + y) ==
            Descents(less, x) + (if less(y[0], x[|x| - 1]) then 1 else 0) + Descents(less, y)
  {
    assert (x + y)[1..] == x[1..] + y;
    if |x| > 1 {
      DescentsConcat(less, x[1..], y);
    } else {
      assert x[1..] + y == y;
    }
  }

  lemma {:induction false} SortedNoDescents<T>(less: (T, T) -> bool, s: seq<T>)
    requires Sorted(less, s)
    ensures Descents(less, s) == 0
  {
    if |s| >= 2 {
      SortedNoDescents(less, s[1..]);
    }
  }

  lemma {:induction false} NoDescentsSorted<T>(less: (T, T) -> bool, s: seq<T>)
    requires StrictWeak(less, s) && Descents(less, s) == 0
    ensures Sorted(less, s)
  {
    if |s| >= 2 {
      var rest := s[1..];
      StrictWeakRearranged(less, s, rest);
      NoDescentsSorted(less, rest);
      forall i, j | 0 <= i < j < |s| ensures !less(s[j], s[i]) {
        if i > 0 {
          assert s[i] == rest[i - 1] && s[j] == rest[j - 1];
        } else if j > 1 {
          assert s[1] == rest[0] && s[j] == rest[j - 1];
        }
      }
    }
  }
}
