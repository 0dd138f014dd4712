/**
 pintos/src/lib/kernel/list.c: doubly linked lists between a head and a tail element,
 rewired in place.

 A list is described by its chain: the ghost sequence of all its elements, head first
 and tail last.  An operation of the source that is given only elements is given the
 chain as a ghost argument here.
 */
module KernelList {
  import opened Order
  import opened Sequences

  class ListElem {
    var prev: ListElem?
    var next: ListElem?

    constructor ()
      ensures prev == null && next == null
    {
      prev := null;
      next := null;
    }
  }

  /** `f` is linked both ways, and nothing sticks out at either end. */
  ghost predicate Chain(f: seq<ListElem>)
    reads f
  {
    && |f| >= 2
    && Distinct(f)
    && f[0].prev == null
    && f[|f| - 1].next == null
    && (forall i {:trigger f[i].next} :: 0 <= i < |f| - 1 ==> f[i].next == f[i + 1])
    && (forall i {:trigger f[i].prev} :: 0 < i < |f| ==> f[i].prev == f[i - 1])
  }

  predicate IsHead(e: ListElem)
    reads e
  {
    e.prev == null && e.next != null
  }

  predicate IsInterior(e: ListElem)
    reads e
  {
    e.prev != null && e.next != null
  }

  predicate IsTail(e: ListElem)
    reads e
  {
    e.prev != null && e.next == null
  }

  function ListNext(elem: ListElem): (r: ListElem)
    requires IsHead(elem) || IsInterior(elem)
    reads elem
  {
    elem.next
  }

  function ListPrev(elem: ListElem): (r: ListElem)
    requires IsInterior(elem) || IsTail(elem)
    reads elem
  {
    elem.prev
  }

  /** Walking a chain: the assertions of list_next and list_prev hold at every place
      where they are asked for. */
  lemma ChainNext(f: seq<ListElem>, i: nat)
    requires Chain(f) && i + 1 < |f|
    ensures IsHead(f[i]) || IsInterior(f[i])
    ensures ListNext(f[i]) == f[i + 1]
    ensures IsInterior(f[i + 1]) || IsTail(f[i + 1])
    ensures ListPrev(f[i + 1]) == f[i]
  {
  }

  ghost function Elems(f: seq<ListElem>): set<ListElem> {
    set e | e in f
  }

  method ListInsert(before: ListElem, elem: ListElem, ghost f: seq<ListElem>, ghost i: nat)
    requires Chain(f) && 0 < i < |f| && f[i] == before && elem !in f
    modifies Elems(f), elem
    ensures Chain(f[..i] + [elem] + f[i..])
  {
    assert IsInterior(before) || IsTail(before);
    elem.prev := before.prev;
    elem.next := before;
    before.prev.next := elem;
    before.prev := elem;
  }

  method ListRemove(elem: ListElem, ghost f: seq<ListElem>, ghost i: nat) returns (r: ListElem)
    requires Chain(f) && 0 < i < |f| - 1 && f[i] == elem
    modifies f[i - 1], f[i + 1]
    ensures Chain(f[..i] + f[i + 1..])
    ensures r == f[i + 1]
  {
    assert IsInterior(elem);
    elem.prev.next := elem.next;
    elem.next.prev := elem.prev;
    r := elem.next;
  }

  /** The chain after the elements at [m, e) were moved to just before the one at i. */
  ghost function Spliced<T>(f: seq<T>, i: nat, m: nat, e: nat): (r: seq<T>)
    requires i <= m <= e <= |f|
    ensures |r| == |f|
  {
    f[..i] + f[m..e] + f[i..m] + f[e..]
  }

  function SplicedFrom(i: nat, m: nat, e: nat, k: nat): (j: nat)
    requires i <= m <= e
    ensures k < e ==> j < e
    ensures k >= e ==> j == k
  {
    if k < i then k else if k < i + (e - m) then m + (k - i) else if k < e then k - (e - m) else k
  }

  lemma SplicedIndex<T>(f: seq<T>, i: nat, m: nat, e: nat, k: nat)
    requires i <= m <= e <= |f| && k < |f|
    ensures Spliced(f, i, m, e)[k] == f[SplicedFrom(i, m, e, k)]
  {
  }

  lemma SplicedDistinct<T>(f: seq<T>, i: nat, m: nat, e: nat)
    requires i <= m <= e <= |f| && Distinct(f)
    ensures Distinct(Spliced(f, i, m, e))
  {
    var g := Spliced(f, i, m, e);
    forall c, d | 0 <= c < d < |g| ensures g[c] != g[d] {
      SplicedIndex(f, i, m, e, c);
      SplicedIndex(f, i, m, e, d);
    }
  }

  /** What the six assignments of list_splice leave in every link of the chain. */
  ghost predicate Relinked(f: seq<ListElem>, i: nat, m: nat, e: nat)
    requires 0 < i < m < e < |f|
    reads f
  {
    && (forall k {:trigger f[k].next} | 0 <= k < |f| ::
          f[k].next == if k == m - 1 then f[e] else if k == e - 1 then f[i] else if k == i - 1 then f[m]
                       else if k == |f| - 1 then null else f[k + 1])
    && (forall k {:trigger f[k].prev} | 0 <= k < |f| ::
          f[k].prev == if k == e then f[m - 1] else if k == m then f[i - 1] else if k == i then f[e - 1]
                       else if k == 0 then null else f[k - 1])
  }

  lemma RelinkedIsChain(f: seq<ListElem>, i: nat, m: nat, e: nat)
    requires 0 < i < m < e < |f| && Distinct(f) && Relinked(f, i, m, e)
    ensures Chain(Spliced(f, i, m, e))
  {
    var g := Spliced(f, i, m, e);
    SplicedDistinct(f, i, m, e);
    forall k | 0 <= k < |g|
      ensures k < |g| - 1 ==> g[k].next == g[k + 1]
      ensures k > 0 ==> g[k].prev == g[k - 1]
    {
      SplicedIndex(f, i, m, e, k);
      if k < |g| - 1 { SplicedIndex(f, i, m, e, k + 1); }
      if k > 0 { SplicedIndex(f, i, m, e, k - 1); }
    }
    SplicedIndex(f, i, m, e, 0);
    SplicedIndex(f, i, m, e, |g| - 1);
  }

  /** list_splice within one list: FIRST..LAST lies after BEFORE. */
  method ListSplice(before: ListElem, first: ListElem, last: ListElem,
                    ghost f: seq<ListElem>, ghost i: nat, ghost m: nat, ghost e: nat)
    requires Chain(f) && 0 < i < m <= e < |f|
    requires f[i] == before && f[m] == first && f[e] == last
    modifies Elems(f)
    ensures Chain(Spliced(f, i, m, e))
  {
    assert IsInterior(before) || IsTail(before);
    assert Distinct(f) && (first == last || m != e);
    hide Chain, Distinct, Relinked;
    if first == last {
      SameInChain(f, m, e);
      assert Spliced(f, i, m, e) == f;
      return;
    }
    SpliceLinks(before, first, last, f, i, m, e);
    RelinkedIsChain(f, i, m, e);
  }

  lemma SameInChain(f: seq<ListElem>, m: nat, e: nat)
    requires Distinct(f) && m < |f| && e < |f| && f[m] == f[e]
    ensures m == e
  {
  }

  /** The first two assignments of list_splice took the elements [m, e) out. */
  ghost predicate Unlinked(f: seq<ListElem>, m: nat, e: nat)
    requires 0 < m < e < |f|
    reads f
  {
    && (forall k {:trigger f[k].next} | 0 <= k < |f| ::
          f[k].next == if k == m - 1 then f[e] else if k == |f| - 1 then null else f[k + 1])
    && (forall k {:trigger f[k].prev} | 0 <= k < |f| ::
          f[k].prev == if k == e then f[m - 1] else if k == 0 then null else f[k - 1])
  }

  method Unlink(first: ListElem, last: ListElem, ghost f: seq<ListElem>, ghost m: nat, ghost e: nat)
    requires Chain(f) && 0 < m < e < |f| && f[m] == first && f[e - 1] == last
    modifies Elems(f)
    ensures Unlinked(f, m, e)
  {
    first.prev.next := last.next;
    last.next.prev := first.prev;
  }

  method LinkBefore(before: ListElem, first: ListElem, last: ListElem,
                    ghost f: seq<ListElem>, ghost i: nat, ghost m: nat, ghost e: nat)
    requires 0 < i < m < e < |f| && Distinct(f) && Unlinked(f, m, e)
    requires f[i] == before && f[m] == first && f[e - 1] == last
    modifies Elems(f)
    ensures Relinked(f, i, m, e)
  {
    first.prev := before.prev;
    last.next := before;
    before.prev.next := first;
    before.prev := last;
  }

  /** list_splice for a nonempty range. */
  method SpliceLinks(before: ListElem, first: ListElem, last': ListElem,
                     ghost f: seq<ListElem>, ghost i: nat, ghost m: nat, ghost e: nat)
    requires Chain(f) && 0 < i < m < e < |f|
    requires f[i] == before && f[m] == first && f[e] == last'
    modifies Elems(f)
    ensures Relinked(f, i, m, e)
  {
    ChainNext(f, e - 1);
    var last := ListPrev(last');
    assert IsInterior(first);
    assert IsInterior(last);
    assert Distinct(f);
    hide Chain, Distinct, Unlinked, Relinked;
    Unlink(first, last, f, m, e);
    LinkBefore(before, first, last, f, i, m, e);
  }

  /** The chain of a list: its head, its elements, its tail. */
  ghost function Full(head: ListElem, s: seq<ListElem>, tail: ListElem): (f: seq<ListElem>)
    ensures |f| == |s| + 2
    ensures forall k {:trigger f[k]} :: 0 < k <= |s| ==> f[k] == s[k - 1]
  {
    [head] + s + [tail]
  }

  /** `x` is the element at `i` of the list `s`, or its tail if `i` is the length. */
  ghost predicate At(head: ListElem, s: seq<ListElem>, tail: ListElem, i: nat, x: ListElem) {
    i <= |s| && x == Full(head, s, tail)[i + 1]
  }

  lemma TailIsLast(head: ListElem, s: seq<ListElem>, tail: ListElem, i: nat, x: ListElem)
    requires Chain(Full(head, s, tail)) && At(head, s, tail, i, x)
    ensures x == tail <==> i == |s|
  {
    assert Full(head, s, tail)[|s| + 1] == tail;
  }

  type Less = (ListElem, ListElem) -> bool

  /** Elements [a, b) of `s` have no descent. */
  ghost predicate Run(less: Less, s: seq<ListElem>, a: nat, b: nat) {
    a <= b <= |s| && Descents(less, s[a..b]) == 0
  }

  method FindEndOfRun(a: ListElem, b: ListElem, less: Less,
                      ghost head: ListElem, ghost s: seq<ListElem>, ghost tail: ListElem, ghost i: nat)
    returns (r: ListElem, ghost e: nat)
    requires Chain(Full(head, s, tail)) && i < |s|
    requires At(head, s, tail, i, a) && b == tail
    ensures Chain(Full(head, s, tail))
    ensures i < e <= |s| && At(head, s, tail, e, r)
    ensures Run(less, s, i, e)
    ensures e < |s| ==> less(s[e], s[e - 1])
  {
    ghost var f := Full(head, s, tail);
    ChainNext(f, i + 1);
    r := ListNext(a);
    e := i + 1;
    while r != b
      invariant i < e <= |s| && r == f[e + 1]
      invariant Run(less, s, i, e)
      decreases |s| - e
    {
      ChainNext(f, e);
      assert e < |s| && r == s[e] && ListPrev(r) == s[e - 1];
      if less(r, ListPrev(r)) {
        return;
      }
      assert s[i..e + 1] == s[i..e] + [s[e]];
      DescentsConcat(less, s[i..e], [s[e]]);
      ChainNext(f, e + 1);
      r := ListNext(r);
      e := e + 1;
    }
  }

  /** Elements [lo, i) of `s` are merged, [i, m) remain of the left run and [m, e) of the right one. */
  ghost predicate Merging(less: Less, s0: seq<ListElem>, s: seq<ListElem>, lo: nat, i: nat, m: nat, e: nat) {
    && lo <= i <= m <= e <= |s| == |s0|
    && s[..lo] == s0[..lo] && s[e..] == s0[e..]
    && StrictWeak(less, s)
    && StableRearrangement(less, s0, s)
    && (forall a, b :: lo <= a < b < m ==> !less(s[b], s[a]))
    && (forall a, b :: m <= a < b < e ==> !less(s[b], s[a]))
    && (forall a, b :: lo <= a < i && m <= b < e ==> !less(s[b], s[a]))
  }

  lemma MergeStart(less: Less, s: seq<ListElem>, lo: nat, mid: nat, e: nat)
    requires Distinct(s) && StrictWeak(less, s) && Run(less, s, lo, mid) && Run(less, s, mid, e)
    ensures Merging(less, s, s, lo, lo, mid, e)
  {
    StrictWeakRearranged(less, s, s[lo..mid]);
    StrictWeakRearranged(less, s, s[mid..e]);
    NoDescentsSorted(less, s[lo..mid]);
    NoDescentsSorted(less, s[mid..e]);
    assert forall a :: lo <= a < mid ==> s[a] == s[lo..mid][a - lo];
    assert forall a :: mid <= a < e ==> s[a] == s[mid..e][a - mid];
  }

  lemma MergeDone(less: Less, s0: seq<ListElem>, s: seq<ListElem>, lo: nat, i: nat, m: nat, e: nat)
    requires Merging(less, s0, s, lo, i, m, e) && (i == m || m == e)
    ensures Sorted(less, s[lo..e])
  {
  }

  lemma MergeKeepLeft(less: Less, s0: seq<ListElem>, s: seq<ListElem>, lo: nat, i: nat, m: nat, e: nat)
    requires Merging(less, s0, s, lo, i, m, e) && i < m < e && !less(s[m], s[i])
    ensures Merging(less, s0, s, lo, i + 1, m, e)
  {
    hide StableRearrangement;
    forall b | m <= b < e ensures !less(s[b], s[i]) {
      assert b == m || !less(s[b], s[m]);
    }
    hide StrictWeak;
  }

  lemma MergeTakeRight(less: Less, s0: seq<ListElem>, s: seq<ListElem>, lo: nat, i: nat, m: nat, e: nat)
    requires Merging(less, s0, s, lo, i, m, e) && i < m < e && less(s[m], s[i])
    ensures Merging(less, s0, MoveLeft(s, i, m), lo, i + 1, m + 1, e)
  {
    MergeTakeRightOrder(less, s, lo, i, m, e);
    assert Distinct(s);
    hide StrictWeak, StableRearrangement;
    var t := MoveLeft(s, i, m);
    MoveLeftStable(less, s, i, m);
    StableTransitive(less, s0, s, t);
    SameElements(s, t);
    StrictWeakRearranged(less, s, t);
  }

  lemma MergeTakeRightOrder(less: Less, s: seq<ListElem>, lo: nat, i: nat, m: nat, e: nat)
    requires lo <= i < m < e <= |s| && less(s[m], s[i]) && StrictWeak(less, s)
    requires forall a, b :: lo <= a < b < m ==> !less(s[b], s[a])
    requires forall a, b :: m <= a < b < e ==> !less(s[b], s[a])
    requires forall a, b :: lo <= a < i && m <= b < e ==> !less(s[b], s[a])
    ensures forall k :: i <= k < m ==> less(s[m], s[k])
    ensures var t := MoveLeft(s, i, m);
            && (forall a, b :: lo <= a < b < m + 1 ==> !less(t[b], t[a]))
            && (forall a, b :: m + 1 <= a < b < e ==> !less(t[b], t[a]))
            && (forall a, b :: lo <= a < i + 1 && m + 1 <= b < e ==> !less(t[b], t[a]))
            && t[..lo] == s[..lo] && t[e..] == s[e..]
  {
    var t := MoveLeft(s, i, m);
    forall a, b | lo <= a < b < e && (b < m + 1 || a >= m + 1 || a < i + 1)
      ensures !less(t[b], t[a])
    {
      MoveLeftIndex(s, i, m, a);
      MoveLeftIndex(s, i, m, b);
      if a == i {
        assert less(s[m], s[i]);
      }
    }
  }

  lemma SpliceIsMoveLeft(head: ListElem, s: seq<ListElem>, tail: ListElem, i: nat, m: nat)
    requires i <= m < |s|
    ensures Spliced(Full(head, s, tail), i + 1, m + 1, m + 2) == Full(head, MoveLeft(s, i, m), tail)
  {
  }

  /** The body of inplace_merge when the right run's first element comes first. */
  method TakeRight(x: ListElem, y: ListElem, ghost head: ListElem, ghost s: seq<ListElem>, ghost tail: ListElem,
                   ghost i: nat, ghost m: nat, ghost e: nat, ghost b1: ListElem)
    returns (y': ListElem)
    requires Chain(Full(head, s, tail)) && i < m < e <= |s|
    requires At(head, s, tail, i, x) && At(head, s, tail, m, y) && At(head, s, tail, e, b1)
    modifies Elems(Full(head, s, tail))
    ensures Chain(Full(head, MoveLeft(s, i, m), tail))
    ensures At(head, MoveLeft(s, i, m), tail, i + 1, x) && At(head, MoveLeft(s, i, m), tail, m + 1, y')
    ensures At(head, MoveLeft(s, i, m), tail, e, b1)
  {
    ghost var f := Full(head, s, tail);
    assert |f| == |s| + 2 && x == f[i + 1] && y == f[m + 1];
    hide Chain, Full, MoveLeft, Spliced, At;
    ChainNext(f, m + 1);
    y' := ListNext(y);
    var p := ListPrev(y');
    SpliceIsMoveLeft(head, s, tail, i, m);
    TakeRightCursors(head, s, tail, i, m, e, x, y', b1);
    ListSplice(x, p, y', f, i + 1, m + 1, m + 2);
  }

  lemma TakeRightCursors(head: ListElem, s: seq<ListElem>, tail: ListElem, i: nat, m: nat, e: nat,
                         x: ListElem, y': ListElem, b1: ListElem)
    requires i < m < e <= |s|
    requires At(head, s, tail, i, x) && y' == Full(head, s, tail)[m + 2] && At(head, s, tail, e, b1)
    ensures At(head, MoveLeft(s, i, m), tail, i + 1, x) && At(head, MoveLeft(s, i, m), tail, m + 1, y')
    ensures At(head, MoveLeft(s, i, m), tail, e, b1)
  {
  }

  method InplaceMerge(a0: ListElem, a1b0: ListElem, b1: ListElem, less: Less,
                      ghost head: ListElem, ghost s0: seq<ListElem>, ghost tail: ListElem,
                      ghost lo: nat, ghost mid: nat, ghost e: nat)
    returns (ghost s: seq<ListElem>)
    requires Chain(Full(head, s0, tail)) && lo < mid < e <= |s0|
    requires At(head, s0, tail, lo, a0) && At(head, s0, tail, mid, a1b0) && At(head, s0, tail, e, b1)
    requires StrictWeak(less, s0) && Run(less, s0, lo, mid) && Run(less, s0, mid, e)
    modifies Elems(Full(head, s0, tail))
    ensures Chain(Full(head, s, tail)) && At(head, s, tail, e, b1)
    ensures |s| == |s0| && s[..lo] == s0[..lo] && s[e..] == s0[e..]
    ensures StrictWeak(less, s) && Sorted(less, s[lo..e])
    ensures StableRearrangement(less, s0, s)
  {
    hide *;
    s := s0;
    var x, y := a0, a1b0;
    ghost var i, m := lo, mid;
    ChainDistinct(head, s0, tail);
    MergeStart(less, s0, lo, mid, e);
    while x != y && y != b1
      invariant Merging(less, s0, s, lo, i, m, e) && i <= e
      invariant Chain(Full(head, s, tail))
      invariant At(head, s, tail, i, x) && At(head, s, tail, m, y) && At(head, s, tail, e, b1)
      decreases e - i
    {
      MergeCursors(less, s0, s, lo, i, m, e, head, tail, x, y, b1);
      if !less(y, x) {
        MergeKeepLeft(less, s0, s, lo, i, m, e);
        ChainNext(Full(head, s, tail), i + 1);
        x := ListNext(x);
        AtNext(head, s, tail, i, x);
        i := i + 1;
      } else {
        MergeTakeRight(less, s0, s, lo, i, m, e);
        y := TakeRight(x, y, head, s, tail, i, m, e, b1);
        s := MoveLeft(s, i, m);
        i, m := i + 1, m + 1;
      }
    }
    MergeExit(less, s0, s, lo, i, m, e, head, tail, x, y, b1);
  }

  lemma AtNext(head: ListElem, s: seq<ListElem>, tail: ListElem, i: nat, x: ListElem)
    requires i < |s| && x == Full(head, s, tail)[i + 2]
    ensures At(head, s, tail, i + 1, x)
  {
  }

  lemma MergeCursors(less: Less, s0: seq<ListElem>, s: seq<ListElem>, lo: nat, i: nat, m: nat, e: nat,
                     head: ListElem, tail: ListElem, x: ListElem, y: ListElem, b1: ListElem)
    requires Merging(less, s0, s, lo, i, m, e)
    requires At(head, s, tail, i, x) && At(head, s, tail, m, y) && At(head, s, tail, e, b1)
    requires x != y && y != b1
    ensures i < m < e <= |s| && x == s[i] && y == s[m]
    ensures x == Full(head, s, tail)[i + 1]
    ensures |Full(head, s, tail)| == |s| + 2
    ensures Elems(Full(head, s, tail)) == Elems(Full(head, s0, tail))
  {
    SameFrame(head, s0, s, tail);
  }

  lemma MergeExit(less: Less, s0: seq<ListElem>, s: seq<ListElem>, lo: nat, i: nat, m: nat, e: nat,
                  head: ListElem, tail: ListElem, x: ListElem, y: ListElem, b1: ListElem)
    requires Merging(less, s0, s, lo, i, m, e) && Chain(Full(head, s, tail))
    requires At(head, s, tail, i, x) && At(head, s, tail, m, y) && At(head, s, tail, e, b1)
    requires x == y || y == b1
    ensures lo <= e <= |s| == |s0| && s[..lo] == s0[..lo] && s[e..] == s0[e..]
    ensures StrictWeak(less, s) && Sorted(less, s[lo..e])
    ensures StableRearrangement(less, s0, s)
  {
    if x == y {
      SameCursor(head, s, tail, i, m, x, y);
    } else {
      SameCursor(head, s, tail, m, e, y, b1);
    }
    MergeDone(less, s0, s, lo, i, m, e);
  }

  lemma ChainDistinct(head: ListElem, s: seq<ListElem>, tail: ListElem)
    requires Chain(Full(head, s, tail))
    ensures Distinct(s) && head !in s && tail !in s && head != tail
  {
    var f := Full(head, s, tail);
    forall i, j | 0 <= i < j < |s| ensures s[i] != s[j] {
      assert f[i + 1] != f[j + 1];
    }
    forall i | 0 <= i < |s| ensures s[i] != head && s[i] != tail {
      assert f[0] != f[i + 1] && f[i + 1] != f[|s| + 1];
    }
  }

  lemma SameCursor(head: ListElem, s: seq<ListElem>, tail: ListElem, i: nat, j: nat, x: ListElem, y: ListElem)
    requires Chain(Full(head, s, tail))
    requires At(head, s, tail, i, x) && At(head, s, tail, j, y) && x == y
    ensures i == j
  {
  }

  /** A rearranged list occupies the same elements. */
  lemma SameFrame(head: ListElem, s: seq<ListElem>, t: seq<ListElem>, tail: ListElem)
    requires multiset(s) == multiset(t)
    ensures Elems(Full(head, s, tail)) == Elems(Full(head, t, tail))
  {
    SameElements(s, t);
  }

  /** Between two iterations of a pass of list_sort that began with `s0`: elements [0, p)
      were written out in `cnt` runs, each merged from two runs of `s0`. */
  ghost predicate Passing(less: Less, s0: seq<ListElem>, s: seq<ListElem>, p: nat, cnt: nat) {
    && p <= |s| == |s0|
    && s[p..] == s0[p..]
    && StrictWeak(less, s)
    && StableRearrangement(less, s0, s)
    && (cnt == 0 <==> p == 0)
    && (cnt > 0 ==> Descents(less, s[..p]) <= cnt - 1)
    && (if p < |s| then 2 * cnt + Descents(less, s0[p..]) <= Descents(less, s0)
        else 2 * cnt <= Descents(less, s0) + 1)
  }

  /** The end of a pass: fewer descents are left than runs were written. */
  ghost predicate Passed(less: Less, s0: seq<ListElem>, s: seq<ListElem>, cnt: nat) {
    && |s| == |s0|
    && StrictWeak(less, s)
    && StableRearrangement(less, s0, s)
    && Descents(less, s) <= (if cnt == 0 then 0 else cnt - 1)
    && 2 * cnt <= Descents(less, s0) + 2
  }

  /** Two runs of the input that a pass is about to merge each ended at a descent. */
  lemma TwoRunsDescents(less: Less, s: seq<ListElem>, p: nat, m: nat, e: nat)
    requires p < m < e <= |s| && Run(less, s, p, m) && Run(less, s, m, e)
    requires less(s[m], s[m - 1]) && (e < |s| ==> less(s[e], s[e - 1]))
    ensures Descents(less, s[p..]) == if e < |s| then 2 + Descents(less, s[e..]) else 1
  {
    assert s[p..e] == s[p..m] + s[m..e];
    DescentsConcat(less, s[p..m], s[m..e]);
    if e < |s| {
      assert s[p..] == s[p..e] + s[e..];
      DescentsConcat(less, s[p..e], s[e..]);
    } else {
      assert s[p..] == s[p..e];
    }
  }

  /** A sorted output run adds at most the one descent in front of it. */
  lemma OutputRunDescents(less: Less, t: seq<ListElem>, p: nat, e: nat)
    requires p < e <= |t| && Descents(less, t[p..e]) == 0
    ensures Descents(less, t[..e]) <= if p > 0 then Descents(less, t[..p]) + 1 else 0
  {
    assert t[..e] == t[..p] + t[p..e];
    if p > 0 {
      DescentsConcat(less, t[..p], t[p..e]);
    } else {
      assert t[..e] == t[p..e];
    }
  }

  lemma PassMergesTwo(less: Less, s0: seq<ListElem>, s: seq<ListElem>, t: seq<ListElem>,
                      p: nat, m: nat, e: nat, cnt: nat)
    requires Passing(less, s0, s, p, cnt) && p < m < e <= |s|
    requires Run(less, s, p, m) && Run(less, s, m, e)
    requires less(s[m], s[m - 1]) && (e < |s| ==> less(s[e], s[e - 1]))
    requires |t| == |s| && t[..p] == s[..p] && t[e..] == s[e..]
    requires StrictWeak(less, t) && Sorted(less, t[p..e]) && StableRearrangement(less, s, t)
    ensures Passing(less, s0, t, e, cnt + 1)
  {
    hide StrictWeak, StableRearrangement, Sorted, Descents;
    StableTransitive(less, s0, s, t);
    assert t[e..] == s0[e..] by {
      assert s[e..] == s[p..][e - p..];
      assert s0[e..] == s0[p..][e - p..];
    }
    TwoRunsDescents(less, s, p, m, e);
    SortedNoDescents(less, t[p..e]);
    OutputRunDescents(less, t, p, e);
  }

  lemma PassStart(less: Less, s: seq<ListElem>)
    requires StrictWeak(less, s) && Distinct(s)
    ensures Passing(less, s, s, 0, 0)
  {
    assert s[0..] == s;
    StableReflexive(less, s);
  }

  lemma PassCursor(less: Less, s0: seq<ListElem>, s: seq<ListElem>, p: nat, cnt: nat,
                   head: ListElem, tail: ListElem, a0: ListElem)
    requires Passing(less, s0, s, p, cnt) && At(head, s, tail, p, a0) && a0 != tail
    ensures p < |s| == |s0| && StrictWeak(less, s)
    ensures Elems(Full(head, s0, tail)) == Elems(Full(head, s, tail))
  {
    SameFrame(head, s0, s, tail);
  }

  lemma PassSecondRun(less: Less, head: ListElem, s: seq<ListElem>, tail: ListElem, m: nat, a1b0: ListElem)
    requires At(head, s, tail, m, a1b0) && a1b0 != tail
    ensures m < |s|
  {
  }

  lemma PassLastRun(less: Less, s0: seq<ListElem>, s: seq<ListElem>, p: nat, m: nat, cnt: nat,
                    head: ListElem, tail: ListElem, a1b0: ListElem)
    requires Chain(Full(head, s, tail)) && At(head, s, tail, m, a1b0) && a1b0 == tail
    requires Passing(less, s0, s, p, cnt) && p < |s| && Run(less, s, p, m)
    ensures Passed(less, s0, s, cnt + 1)
  {
    SameCursor(head, s, tail, m, |s|, a1b0, tail);
    OutputRunDescents(less, s, p, |s|);
    assert s[..|s|] == s;
    hide Chain, StableRearrangement, StrictWeak, At, Full, Descents;
  }

  lemma PassAll(less: Less, s0: seq<ListElem>, s: seq<ListElem>, p: nat, cnt: nat,
                head: ListElem, tail: ListElem, a0: ListElem)
    requires Chain(Full(head, s, tail)) && At(head, s, tail, p, a0) && a0 == tail
    requires Passing(less, s0, s, p, cnt)
    ensures Passed(less, s0, s, cnt)
  {
    SameCursor(head, s, tail, p, |s|, a0, tail);
    assert s[..|s|] == s;
  }

  lemma InsertedFull(head: ListElem, s: seq<ListElem>, tail: ListElem, k: nat, elem: ListElem)
    requires k <= |s|
    ensures var f := Full(head, s, tail);
            f[..k + 1] + [elem] + f[k + 1..] == Full(head, s[..k] + [elem] + s[k..], tail)
    ensures k == 0 ==> s[..k] + [elem] + s[k..] == [elem] + s
    ensures k == |s| ==> s[..k] + [elem] + s[k..] == s + [elem]
  {
  }

  lemma RemovedFull(head: ListElem, s: seq<ListElem>, tail: ListElem, k: nat)
    requires k < |s|
    ensures var f := Full(head, s, tail);
            f[..k + 1] + f[k + 2..] == Full(head, s[..k] + s[k + 1..], tail)
  {
  }

  /** Position `k` holds the earliest of the greatest elements of `s`. */
  ghost predicate FirstMax(less: Less, s: seq<ListElem>, k: nat) {
    && k < |s|
    && (forall j :: 0 <= j < k ==> less(s[j], s[k]))
    && (forall j :: 0 <= j < |s| ==> !less(s[k], s[j]))
  }

  lemma FirstMaxStart(less: Less, s: seq<ListElem>)
    requires StrictWeak(less, s) && s != []
    ensures FirstMax(less, s[..1], 0)
  {
  }

  lemma FirstMaxStep(less: Less, s: seq<ListElem>, j: nat, k: nat)
    requires StrictWeak(less, s) && j < |s| && FirstMax(less, s[..j], k)
    ensures FirstMax(less, s[..j + 1], if less(s[k], s[j]) then j else k)
  {
    assert forall i :: 0 <= i < j ==> s[..j][i] == s[i];
  }

  /** `k` is the first place of `s` whose element `elem` comes strictly before. */
  ghost predicate OrderedPlace(less: Less, s: seq<ListElem>, elem: ListElem, k: nat) {
    && k <= |s|
    && (forall j :: 0 <= j < k ==> !less(elem, s[j]))
    && (k < |s| ==> less(elem, s[k]))
  }

  /** Inserting in order into a sorted list is sorting the list with the element appended:
      the element lands behind everything it is equivalent to. */
  lemma InsertOrderedIsSort(less: Less, s: seq<ListElem>, elem: ListElem, k: nat)
    requires Distinct(s + [elem]) && StrictWeak(less, s + [elem]) && Sorted(less, s)
    requires OrderedPlace(less, s, elem, k)
    ensures var t := s[..k] + [elem] + s[k..];
            StableRearrangement(less, s + [elem], t) && Sorted(less, t)
  {
    var x := s + [elem];
    var t := s[..k] + [elem] + s[k..];
    assert t == MoveLeft(x, k, |s|);
    assert x[|s|] == elem && forall j :: 0 <= j < |s| ==> x[j] == s[j];
    forall j | k <= j < |s| ensures less(x[|s|], x[j]) {
      assert less(x[|s|], x[k]) && !less(x[j], x[k]);
    }
    MoveLeftStable(less, x, k, |s|);
    forall a, b | 0 <= a < b < |t| ensures !less(t[b], t[a]) {
      MoveLeftIndex(x, k, |s|, a);
      MoveLeftIndex(x, k, |s|, b);
    }
  }

  /** list_reverse has swapped the links of the elements before place `j`. */
  ghost predicate HalfReversed(f: seq<ListElem>, j: nat)
    reads f
  {
    && 0 < j < |f|
    && Distinct(f)
    && (forall k {:trigger f[k].next} | 0 <= k < |f| ::
          f[k].next == if 0 < k < j then f[k - 1] else if k == |f| - 1 then null else f[k + 1])
    && (forall k {:trigger f[k].prev} | 0 <= k < |f| ::
          f[k].prev == if 0 < k < j then f[k + 1] else if k == 0 then null else f[k - 1])
  }

  /** ... and has then crossed over the links at both ends. */
  ghost predicate CrossedOver(f: seq<ListElem>)
    reads f
  {
    && |f| >= 3
    && Distinct(f)
    && f[0].prev == null && f[0].next == f[|f| - 2]
    && f[|f| - 1].next == null && f[|f| - 1].prev == f[1]
    && (forall k {:trigger f[k].next} | 0 < k < |f| - 1 :: f[k].next == if k == 1 then f[|f| - 1] else f[k - 1])
    && (forall k {:trigger f[k].prev} | 0 < k < |f| - 1 :: f[k].prev == if k == |f| - 2 then f[0] else f[k + 1])
  }

  lemma ReversedIndex(head: ListElem, s: seq<ListElem>, tail: ListElem, k: nat)
    requires k < |s| + 2
    ensures var f := Full(head, s, tail);
            Full(head, Reversed(s), tail)[k] == if 0 < k < |f| - 1 then f[|f| - 1 - k] else f[k]
  {
  }

  lemma CrossedOverIsReversed(head: ListElem, s: seq<ListElem>, tail: ListElem)
    requires CrossedOver(Full(head, s, tail))
    ensures Chain(Full(head, Reversed(s), tail))
  {
    var f, g := Full(head, s, tail), Full(head, Reversed(s), tail);
    forall i, j | 0 <= i < j < |g| ensures g[i] != g[j] {
      ReversedIndex(head, s, tail, i);
      ReversedIndex(head, s, tail, j);
    }
    forall k | 0 <= k < |g|
      ensures k < |g| - 1 ==> g[k].next == g[k + 1]
      ensures k > 0 ==> g[k].prev == g[k - 1]
    {
      ReversedIndex(head, s, tail, k);
      if k < |g| - 1 { ReversedIndex(head, s, tail, k + 1); }
      if k > 0 { ReversedIndex(head, s, tail, k - 1); }
    }
    ReversedIndex(head, s, tail, 0);
    ReversedIndex(head, s, tail, |g| - 1);
  }

  /** One iteration of list_reverse: swap the links of `e` and follow what was its next link. */
  method SwapLinks(e: ListElem, ghost f: seq<ListElem>, ghost j: nat) returns (next: ListElem)
    requires HalfReversed(f, j) && j < |f| - 1 && e == f[j]
    modifies e
    ensures HalfReversed(f, j + 1) && next == f[j + 1]
  {
    e.prev, e.next := e.next, e.prev;
    next := e.prev;
  }

  /** The two swaps after the loop of list_reverse. */
  method CrossOver(head: ListElem, tail: ListElem, ghost f: seq<ListElem>)
    requires |f| >= 3 && HalfReversed(f, |f| - 1) && head == f[0] && tail == f[|f| - 1]
    modifies Elems(f)
    ensures CrossedOver(f)
  {
    head.next, tail.prev := tail.prev, head.next;
    assert head.next == f[|f| - 2] && tail.prev == f[1];
    head.next.prev, tail.prev.next := tail.prev.next, head.next.prev;
  }

  lemma ReversedAll(head: ListElem, s: seq<ListElem>, tail: ListElem, j: nat, e: ListElem)
    requires HalfReversed(Full(head, s, tail), j) && e == Full(head, s, tail)[j] && e == tail
    ensures j == |s| + 1
  {
    assert Full(head, s, tail)[|s| + 1] == tail;
  }

  class List {
    const head: ListElem
    const tail: ListElem
    ghost var nodes: seq<ListElem>

    ghost predicate Valid()
      reads this, Full(head, nodes, tail)
    {
      Chain(Full(head, nodes, tail))
    }

    constructor ()
      ensures Valid() && nodes == [] && fresh(head) && fresh(tail)
    {
      var h := new ListElem();
      var t := new ListElem();
      head, tail := h, t;
      nodes := [];
      new;
      h.next := t;
      t.prev := h;
    }

    method Begin() returns (e: ListElem)
      requires Valid()
      ensures Valid() && At(head, nodes, tail, 0, e)
    {
      ChainNext(Full(head, nodes, tail), 0);
      e := ListNext(head);
    }

    method PushFront(elem: ListElem)
      requires Valid() && elem !in Full(head, nodes, tail)
      modifies this, Elems(Full(head, nodes, tail)), elem
      ensures Valid() && nodes == [elem] + old(nodes)
    {
      hide Chain, Distinct;
      var first := Begin();
      ListInsert(first, elem, Full(head, nodes, tail), 1);
      InsertedFull(head, nodes, tail, 0, elem);
      nodes := [elem] + nodes;
    }

    method PushBack(elem: ListElem)
      requires Valid() && elem !in Full(head, nodes, tail)
      modifies this, Elems(Full(head, nodes, tail)), elem
      ensures Valid() && nodes == old(nodes) + [elem]
    {
      ListInsert(tail, elem, Full(head, nodes, tail), |nodes| + 1);
      InsertedFull(head, nodes, tail, |nodes|, elem);
      nodes := nodes + [elem];
    }

    method Remove(elem: ListElem, ghost i: nat) returns (r: ListElem)
      requires Valid() && i < |nodes| && nodes[i] == elem
      modifies this, Elems(Full(head, nodes, tail))
      ensures Valid() && nodes == old(nodes[..i] + nodes[i + 1..])
      ensures At(head, nodes, tail, i, r)
    {
      r := ListRemove(elem, Full(head, nodes, tail), i + 1);
      RemovedFull(head, nodes, tail, i);
      nodes := nodes[..i] + nodes[i + 1..];
    }

    /** list_pop_front; the source leaves an empty list undefined. */
    method PopFront() returns (front: ListElem)
      requires Valid() && nodes != []
      modifies this, Elems(Full(head, nodes, tail))
      ensures Valid() && front == old(nodes)[0] && nodes == old(nodes)[1..]
    {
      front := Begin();
      var _ := Remove(front, 0);
    }

    /** list_max: the first of the greatest elements, or the tail of an empty list. */
    method Max(less: Less) returns (max: ListElem, ghost k: nat)
      requires Valid() && StrictWeak(less, nodes)
      ensures At(head, nodes, tail, k, max)
      ensures nodes == [] ==> max == tail
      ensures nodes != [] ==> FirstMax(less, nodes, k)
    {
      hide StrictWeak, FirstMax;
      max := Begin();
      k := 0;
      if max != tail {
        ghost var f, j := Full(head, nodes, tail), 1;
        FirstMaxStart(less, nodes);
        hide Chain, Distinct;
        ChainNext(f, 1);
        var e := ListNext(max);
        while e != tail
          invariant 0 <= k < j <= |nodes|
          invariant At(head, nodes, tail, k, max) && At(head, nodes, tail, j, e)
          invariant FirstMax(less, nodes[..j], k)
          decreases |nodes| - j
        {
          assert j < |nodes| && max == nodes[k] && e == nodes[j];
          FirstMaxStep(less, nodes, j, k);
          if less(max, e) {
            max, k := e, j;
          }
          ChainNext(f, j + 1);
          e, j := ListNext(e), j + 1;
        }
        SameCursor(head, nodes, tail, j, |nodes|, e, tail);
        assert nodes[..j] == nodes;
      }
    }

    /** list_insert_ordered. */
    method InsertOrdered(elem: ListElem, less: Less) returns (ghost k: nat)
      requires Valid() && elem !in Full(head, nodes, tail)
      modifies this, Elems(Full(head, nodes, tail)), elem
      ensures Valid() && OrderedPlace(less, old(nodes), elem, k)
      ensures nodes == old(nodes)[..k] + [elem] + old(nodes)[k..]
    {
      hide Chain;
      var e := Begin();
      k := 0;
      while e != tail
        invariant Valid() && nodes == old(nodes)
        invariant At(head, nodes, tail, k, e)
        invariant forall j :: 0 <= j < k ==> !less(elem, nodes[j])
        decreases |nodes| - k
      {
        assert k < |nodes| && e == nodes[k];
        if less(elem, e) {
          break;
        }
        ChainNext(Full(head, nodes, tail), k + 1);
        e, k := ListNext(e), k + 1;
      }
      TailIsLast(head, nodes, tail, k, e);
      ListInsert(e, elem, Full(head, nodes, tail), k + 1);
      InsertedFull(head, nodes, tail, k, elem);
      nodes := nodes[..k] + [elem] + nodes[k..];
    }

    method Reverse()
      requires Valid()
      modifies this, Elems(Full(head, nodes, tail))
      ensures Valid() && nodes == Reversed(old(nodes))
    {
      var e := Begin();
      if e != tail {
        ghost var f, j := Full(head, nodes, tail), 1;
        assert HalfReversed(f, 1);
        hide Chain, HalfReversed, Distinct;
        while e != tail
          invariant nodes == old(nodes) && f == Full(head, nodes, tail)
          invariant HalfReversed(f, j) && 0 < j < |f| && e == f[j]
          decreases |f| - j
        {
          e := SwapLinks(e, f, j);
          j := j + 1;
        }
        ReversedAll(head, nodes, tail, j, e);
        CrossOver(head, tail, f);
        CrossedOverIsReversed(head, nodes, tail);
      } else {
        assert Reversed(nodes) == nodes;
      }
      nodes := Reversed(nodes);
    }

    method Sort(less: Less)
      requires Valid() && StrictWeak(less, nodes)
      modifies this, Elems(Full(head, nodes, tail))
      ensures Valid()
      ensures StableRearrangement(less, old(nodes), nodes) && Sorted(less, nodes)
    {
      ChainDistinct(head, nodes, tail);
      StableReflexive(less, nodes);
      while true
        invariant Valid() && StrictWeak(less, nodes)
        invariant StableRearrangement(less, old(nodes), nodes)
        decreases Descents(less, nodes)
      {
        ghost var s0 := nodes;
        SameFrame(head, old(nodes), nodes, tail);
        var outputRunCnt := Pass(less);
        StableTransitive(less, old(nodes), s0, nodes);
        if outputRunCnt <= 1 {
          NoDescentsSorted(less, nodes);
          break;
        }
      }
    }

    /** One pass over the list, merging adjacent runs. */
    method Pass(less: Less) returns (outputRunCnt: nat)
      requires Valid() && StrictWeak(less, nodes)
      modifies this, Elems(Full(head, nodes, tail))
      ensures Valid()
      ensures Passed(less, old(nodes), nodes, outputRunCnt)
    {
      hide Chain, Full, Elems, At, Run, Passing, Passed;
      hide StrictWeak, StableRearrangement, Sorted, Descents, Distinct;
      outputRunCnt := 0;
      var a0 := Begin();
      ghost var s0, p := nodes, 0;
      ChainDistinct(head, s0, tail);
      PassStart(less, s0);
      while a0 != tail
        invariant Valid()
        invariant Passing(less, s0, nodes, p, outputRunCnt) && p <= |s0|
        invariant At(head, nodes, tail, p, a0)
        decreases |s0| - p
      {
        PassCursor(less, s0, nodes, p, outputRunCnt, head, tail, a0);
        var a1b0, m := FindEndOfRun(a0, tail, less, head, nodes, tail, p);
        if a1b0 == tail {
          PassLastRun(less, s0, nodes, p, m, outputRunCnt, head, tail, a1b0);
          outputRunCnt := outputRunCnt + 1;
          return;
        }
        PassSecondRun(less, head, nodes, tail, m, a1b0);
        var b1, e := FindEndOfRun(a1b0, tail, less, head, nodes, tail, m);
        ghost var t := InplaceMerge(a0, a1b0, b1, less, head, nodes, tail, p, m, e);
        PassMergesTwo(less, s0, nodes, t, p, m, e, outputRunCnt);
        nodes, p := t, e;
        outputRunCnt := outputRunCnt + 1;
        a0 := b1;
      }
      PassAll(less, s0, nodes, p, outputRunCnt, head, tail, a0);
    }
  }
}
