/**
 The heap sort and the binary search of pintos/src/lib/stdlib.c, which work on an array of `cnt`
 elements of `size` bytes each.
 */
module HeapSort {
  import opened BitTricks
  import opened Bytes
  import opened Wrappers

  type Element = seq<Byte>
  type Compare = (Element, Element) -> int

  // ---- orders ----

  predicate Le(cmp: Compare, x: Element, y: Element) {
    cmp(x, y) <= 0
  }

  /** A strcmp-like comparison of the elements of `size` bytes. */
  ghost predicate TotalPreorder(cmp: Compare, size: nat) {
    && (forall x, y | |x| == |y| == size :: cmp(x, y) > 0 <==> cmp(y, x) < 0)
    && (forall x, y, z | |x| == |y| == |z| == size && Le(cmp, x, y) && Le(cmp, y, z) :: Le(cmp, x, z))
  }

  ghost predicate Sized(s: seq<Element>, size: nat) {
    forall k :: 0 <= k < |s| ==> |s[k]| == size
  }

  ghost predicate Sorted(cmp: Compare, s: seq<Element>) {
    forall i, j :: 0 <= i < j < |s| ==> Le(cmp, s[i], s[j])
  }

  // ---- elements of a byte array ----

  function Offset(k: nat, size: nat): nat {
    k * size
  }

  function Slot(bytes: seq<Byte>, k: nat, size: nat): Element
    requires Offset(k, size) + size <= |bytes|
  {
    bytes[Offset(k, size)..Offset(k, size) + size]
  }

  lemma OffsetStep(k: nat, size: nat)
    ensures Offset(k + 1, size) == Offset(k, size) + size
  {
  }

  lemma {:induction false} OffsetsApart(i: nat, j: nat, size: nat)
    requires i < j
    ensures Offset(i, size) + size <= Offset(j, size)
    decreases j
  {
    OffsetStep(j - 1, size);
    if i < j - 1 {
      OffsetsApart(i, j - 1, size);
    }
  }

  /** The first cnt elements. */
  function Elements(bytes: seq<Byte>, cnt: nat, size: nat): (s: seq<Element>)
    requires Offset(cnt, size) <= |bytes|
    ensures |s| == cnt && Sized(s, size)
    ensures forall k :: 0 <= k < cnt ==> Offset(k, size) + size <= |bytes| && s[k] == Slot(bytes, k, size)
    decreases cnt
  {
    if cnt == 0 then []
    else
      OffsetStep(cnt - 1, size);
      Elements(bytes, cnt - 1, size) + [Slot(bytes, cnt - 1, size)]
  }

  function Swapped<T>(s: seq<T>, i: nat, j: nat): (r: seq<T>)
    requires i < |s| && j < |s|
    ensures multiset(r) == multiset(s)
  {
    s[i := s[j]][j := s[i]]
  }

  /** Where a byte comes from when n bytes at offsets p and q are exchanged. */
  function Source(j: nat, p: nat, q: nat, n: nat): nat {
    if p <= j < p + n then j - p + q else if q <= j < q + n then j - q + p else j
  }

  /** `now` is `was` with the first n bytes at offsets p and q exchanged. */
  ghost predicate Exchanged(was: seq<Byte>, now: seq<Byte>, p: nat, q: nat, n: nat) {
    && |now| == |was| && p + n <= |was| && q + n <= |was|
    && forall j :: 0 <= j < |was| ==> now[j] == was[Source(j, p, q, n)]
  }

  /** Exchanging whole slots: the one at p gets what was at q, and any other one is kept. */
  lemma SliceMoved(was: seq<Byte>, now: seq<Byte>, p: nat, q: nat, n: nat)
    requires Exchanged(was, now, p, q, n)
    ensures now[p..p + n] == was[q..q + n]
  {
    var a, b := now[p..p + n], was[q..q + n];
    forall x | 0 <= x < n ensures a[x] == b[x] {
      assert a[x] == now[p + x];
    }
  }

  lemma SliceKept(was: seq<Byte>, now: seq<Byte>, p: nat, q: nat, n: nat, r: nat)
    requires Exchanged(was, now, p, q, n) && r + n <= |was|
    requires (r + n <= p || p + n <= r) && (r + n <= q || q + n <= r)
    ensures now[r..r + n] == was[r..r + n]
  {
    var a, b := now[r..r + n], was[r..r + n];
    forall x | 0 <= x < n ensures a[x] == b[x] {
      assert a[x] == now[r + x];
    }
  }

  lemma Mirrored(was: seq<Byte>, now: seq<Byte>, p: nat, q: nat, n: nat)
    requires Exchanged(was, now, p, q, n) && (p == q || p + n <= q || q + n <= p)
    ensures Exchanged(was, now, q, p, n)
  {
  }

  lemma ExchangedLength(was: seq<Byte>, now: seq<Byte>, p: nat, q: nat, n: nat)
    requires Exchanged(was, now, p, q, n)
    ensures |now| == |was|
  {
  }

  lemma SlotAt(bytes: seq<Byte>, k: nat, cnt: nat, size: nat)
    requires k < cnt && Offset(cnt, size) <= |bytes|
    ensures |Elements(bytes, cnt, size)| == cnt && Offset(k, size) + size <= |bytes|
    ensures Elements(bytes, cnt, size)[k] == Slot(bytes, k, size)
  {
  }

  lemma SlotExchanged(was: seq<Byte>, now: seq<Byte>, i: nat, j: nat, k: nat, cnt: nat, size: nat)
    requires i < cnt && j < cnt && k < cnt && Offset(cnt, size) <= |was|
    requires Exchanged(was, now, Offset(i, size), Offset(j, size), size)
    ensures Elements(now, cnt, size)[k] == Swapped(Elements(was, cnt, size), i, j)[k]
  {
    hide Elements, Offset, Exchanged, Source;
    SlotsInside(i, k, cnt, size);
    SlotsInside(j, k, cnt, size);
    SlotsInside(i, j, cnt, size);
    ExchangedLength(was, now, Offset(i, size), Offset(j, size), size);
    SlotAt(was, i, cnt, size);
    SlotAt(was, j, cnt, size);
    SlotAt(was, k, cnt, size);
    SlotAt(now, k, cnt, size);
    var p, q := Offset(i, size), Offset(j, size);
    Mirrored(was, now, p, q, size);
    if k == i {
      SliceMoved(was, now, p, q, size);
    } else if k == j {
      SliceMoved(was, now, q, p, size);
    } else {
      SliceKept(was, now, p, q, size, Offset(k, size));
    }
  }

  lemma ExchangeNone(was: seq<Byte>, p: nat, q: nat)
    requires p <= |was| && q <= |was|
    ensures Exchanged(was, was, p, q, 0)
  {
  }

  lemma ExchangeNext(was: seq<Byte>, now: seq<Byte>, p: nat, q: nat, k: nat, n: nat)
    requires Exchanged(was, now, p, q, k) && k < n && p + n <= |was| && q + n <= |was|
    requires p == q || p + n <= q || q + n <= p
    ensures Exchanged(was, Swapped(now, p + k, q + k), p, q, k + 1)
  {
  }

  /** do_swap, with 1-based indexes */
  method DoSwap(a: array<Byte>, aIdx: nat, bIdx: nat, size: nat, ghost cnt: nat)
    requires Offset(cnt, size) <= a.Length && 1 <= aIdx <= cnt && 1 <= bIdx <= cnt
    modifies a
    ensures Elements(a[..], cnt, size) == Swapped(Elements(old(a[..]), cnt, size), aIdx - 1, bIdx - 1)
    ensures a[Offset(cnt, size)..] == old(a[Offset(cnt, size)..])
  {
    hide Offset, Elements, Exchanged;
    ghost var was, i, j := a[..], aIdx - 1, bIdx - 1;
    var p, q := Offset(aIdx - 1, size), Offset(bIdx - 1, size);
    SlotsInside(i, j, cnt, size);
    ExchangeNone(was, p, q);
    var k := 0;
    while k < size
      invariant k <= size && Exchanged(was, a[..], p, q, k)
    {
      ghost var now := a[..];
      ExchangeNext(was, now, p, q, k, size);
      var t := a[p + k];
      a[p + k] := a[q + k];
      a[q + k] := t;
      assert a[..] == Swapped(now, p + k, q + k);
      k := k + 1;
    }
    ExchangedElements(was, a[..], i, j, cnt, size);
    assert a[Offset(cnt, size)..] == a[..][Offset(cnt, size)..];
  }

  lemma ExchangedElements(was: seq<Byte>, now: seq<Byte>, i: nat, j: nat, cnt: nat, size: nat)
    requires i < cnt && j < cnt && Offset(cnt, size) <= |was|
    requires Exchanged(was, now, Offset(i, size), Offset(j, size), size)
    ensures |now| == |was| && |Elements(was, cnt, size)| == cnt
    ensures Elements(now, cnt, size) == Swapped(Elements(was, cnt, size), i, j)
    ensures now[Offset(cnt, size)..] == was[Offset(cnt, size)..]
  {
    var s, s' := Elements(was, cnt, size), Elements(now, cnt, size);
    assert |s| == cnt && |s'| == cnt;
    SlotsInside(i, j, cnt, size);
    assert now[Offset(cnt, size)..] == was[Offset(cnt, size)..];
    hide Elements, Offset, Exchanged;
    forall k | 0 <= k < cnt ensures s'[k] == Swapped(s, i, j)[k] {
      SlotExchanged(was, now, i, j, k, cnt, size);
    }
  }

  lemma SlotsInside(i: nat, j: nat, cnt: nat, size: nat)
    requires i < cnt && j < cnt
    ensures Offset(i, size) + size <= Offset(cnt, size) && Offset(j, size) + size <= Offset(cnt, size)
    ensures i == j || Offset(i, size) + size <= Offset(j, size) || Offset(j, size) + size <= Offset(i, size)
  {
    OffsetsApart(i, cnt, size);
    OffsetsApart(j, cnt, size);
    if i != j {
      OffsetsApart(if i < j then i else j, if i < j then j else i, size);
    }
  }

  /** do_compare, with 1-based indexes */
  method DoCompare(a: array<Byte>, aIdx: nat, bIdx: nat, size: nat, cmp: Compare, ghost cnt: nat) returns (r: int)
    requires Offset(cnt, size) <= a.Length && 1 <= aIdx <= cnt && 1 <= bIdx <= cnt
    ensures var s := Elements(a[..], cnt, size); r == cmp(s[aIdx - 1], s[bIdx - 1])
  {
    SlotsInside(aIdx - 1, bIdx - 1, cnt, size);
    var p, q := Offset(aIdx - 1, size), Offset(bIdx - 1, size);
    assert a[..][p..p + size] == a[p..p + size] && a[..][q..q + size] == a[q..q + size];
    r := cmp(a[p..p + size], a[q..q + size]);
  }

  // ---- heaps ----

  /** Element k is no greater than its parent; indexes are 1-based here. */
  predicate BelowParent(cmp: Compare, s: seq<Element>, k: nat)
    requires 2 <= k <= |s|
  {
    Le(cmp, s[k - 1], s[k / 2 - 1])
  }

  /** Among the first n elements, no child of an element from number lo on is greater than it. */
  ghost predicate Heap(cmp: Compare, s: seq<Element>, lo: nat, n: nat) {
    1 <= lo && n <= |s| && forall k :: 2 <= k <= n && lo <= k / 2 ==> BelowParent(cmp, s, k)
  }

  /** No child of element i is greater than x; the child with index j has number j + 1. */
  ghost predicate Dominates(cmp: Compare, s: seq<Element>, n: nat, i: nat, x: Element)
    requires n <= |s|
  {
    forall j :: 1 <= j < n && (j + 1) / 2 == i ==> Le(cmp, s[j], x)
  }

  /** A heap but for element i, whose children are no greater than its parent. */
  ghost predicate HeapBut(cmp: Compare, s: seq<Element>, lo: nat, n: nat, i: nat) {
    && 1 <= lo <= i <= |s| && n <= |s|
    && (forall k :: 2 <= k <= n && lo <= k / 2 && k / 2 != i ==> BelowParent(cmp, s, k))
    && (lo <= i / 2 ==> Dominates(cmp, s, n, i, s[i / 2 - 1]))
  }

  /** `t` has the elements of `s` in some order, those after the first n in their places. */
  ghost predicate Shuffled(s: seq<Element>, t: seq<Element>, n: nat) {
    && |t| == |s| && n <= |s| && multiset(t) == multiset(s) && multiset(t[..n]) == multiset(s[..n])
    && t[n..] == s[n..]
  }

  lemma FloatParent(cmp: Compare, s: seq<Element>, lo: nat, n: nat, i: nat, m: nat, k: nat)
    requires HeapBut(cmp, s, lo, n, i) && m / 2 == i && m <= n && Le(cmp, s[i - 1], s[m - 1])
    requires 2 <= k <= n && Dominates(cmp, s, n, i, s[m - 1])
    ensures lo <= k / 2 && k / 2 != m ==> BelowParent(cmp, Swapped(s, i - 1, m - 1), k)
    ensures k / 2 == m ==> Le(cmp, Swapped(s, i - 1, m - 1)[k - 1], Swapped(s, i - 1, m - 1)[i - 1])
  {
    var j := k - 1;
    assert (j + 1) / 2 == i ==> Le(cmp, s[j], s[m - 1]);
    assert k / 2 == m ==> BelowParent(cmp, s, k);
    assert k / 2 != i ==> lo <= k / 2 ==> BelowParent(cmp, s, k);
  }

  /** The greater child floats up, which moves the fault down the heap. */
  lemma FloatDown(cmp: Compare, s: seq<Element>, lo: nat, n: nat, i: nat, m: nat, size: nat)
    requires TotalPreorder(cmp, size) && Sized(s, size) && HeapBut(cmp, s, lo, n, i)
    requires m / 2 == i && m <= n && cmp(s[m - 1], s[i - 1]) > 0
    requires Dominates(cmp, s, n, i, s[m - 1])
    ensures HeapBut(cmp, Swapped(s, i - 1, m - 1), lo, n, m) && Sized(Swapped(s, i - 1, m - 1), size)
    ensures Shuffled(s, Swapped(s, i - 1, m - 1), n)
  {
    hide TotalPreorder, Sized, BelowParent, Shuffled, Le;
    GreaterIsAbove(cmp, s, i - 1, m - 1, size);
    SwapShuffled(s, i - 1, m - 1, n);
    SwapSized(s, i - 1, m - 1, size);
    var t := Swapped(s, i - 1, m - 1);
    forall k | 2 <= k <= n ensures lo <= k / 2 && k / 2 != m ==> BelowParent(cmp, t, k) {
      FloatParent(cmp, s, lo, n, i, m, k);
    }
    forall j | 1 <= j < n && (j + 1) / 2 == m ensures Le(cmp, t[j], t[i - 1]) {
      FloatParent(cmp, s, lo, n, i, m, j + 1);
    }
  }

  lemma GreaterIsAbove(cmp: Compare, s: seq<Element>, i: nat, j: nat, size: nat)
    requires TotalPreorder(cmp, size) && Sized(s, size) && i < |s| && j < |s| && cmp(s[j], s[i]) > 0
    ensures Le(cmp, s[i], s[j])
  {
  }

  lemma SwapSized(s: seq<Element>, i: nat, j: nat, size: nat)
    requires Sized(s, size) && i < |s| && j < |s|
    ensures Sized(Swapped(s, i, j), size)
  {
  }

  lemma SwapShuffled(s: seq<Element>, i: nat, j: nat, n: nat)
    requires i < n && j < n && n <= |s|
    ensures Shuffled(s, Swapped(s, i, j), n)
  {
    assert Swapped(s, i, j)[..n] == Swapped(s[..n], i, j);
  }

  /** A heap but for element i is a heap when no child of i is greater than it. */
  lemma FloatDone(cmp: Compare, s: seq<Element>, lo: nat, n: nat, i: nat)
    requires HeapBut(cmp, s, lo, n, i)
    requires Dominates(cmp, s, n, i, s[i - 1])
    ensures Heap(cmp, s, lo, n)
  {
    forall k | 2 <= k <= n && lo <= k / 2 ensures BelowParent(cmp, s, k) {
      var j := k - 1;
      assert (j + 1) / 2 == i ==> Le(cmp, s[j], s[i - 1]);
    }
  }

  lemma ShuffledTwice(s: seq<Element>, t: seq<Element>, u: seq<Element>, n: nat)
    requires Shuffled(s, t, n) && Shuffled(t, u, n)
    ensures Shuffled(s, u, n)
  {
  }

  /** The larger of element i and its children: the one that heapify calls max. */
  function Greatest(cmp: Compare, s: seq<Element>, i: nat, n: nat): (m: nat)
    requires 1 <= i && n <= |s| && i <= |s|
    ensures m == i || (m <= n && m / 2 == i)
  {
    var m := if 2 * i <= n && cmp(s[2 * i - 1], s[i - 1]) > 0 then 2 * i else i;
    if 2 * i + 1 <= n && cmp(s[2 * i], s[m - 1]) > 0 then 2 * i + 1 else m
  }

  lemma GreatestIs(cmp: Compare, s: seq<Element>, i: nat, n: nat, size: nat)
    requires 1 <= i && n <= |s| && i <= |s| && TotalPreorder(cmp, size) && Sized(s, size)
    ensures var m := Greatest(cmp, s, i, n);
            Dominates(cmp, s, n, i, s[m - 1]) && (m != i ==> cmp(s[m - 1], s[i - 1]) > 0)
  {
    hide Le, TotalPreorder, Greatest;
    var m := Greatest(cmp, s, i, n);
    GreatestAbove(cmp, s, i, n, size);
    forall j | 1 <= j < n && (j + 1) / 2 == i ensures Le(cmp, s[j], s[m - 1]) {
      assert j == 2 * i - 1 || j == 2 * i;
      ChildBelow(cmp, s, i, n, j, size);
    }
  }

  lemma GreatestAbove(cmp: Compare, s: seq<Element>, i: nat, n: nat, size: nat)
    requires 1 <= i && n <= |s| && i <= |s| && TotalPreorder(cmp, size) && Sized(s, size)
    ensures var m := Greatest(cmp, s, i, n); m != i ==> cmp(s[m - 1], s[i - 1]) > 0
  {
    if 2 * i + 1 <= n {
      GreaterAgain(cmp, s[2 * i], s[2 * i - 1], s[i - 1], size);
    }
    hide TotalPreorder;
  }

  lemma GreaterAgain(cmp: Compare, x: Element, y: Element, z: Element, size: nat)
    requires TotalPreorder(cmp, size) && |x| == |y| == |z| == size
    ensures cmp(x, y) > 0 && cmp(y, z) > 0 ==> cmp(x, z) > 0
  {
    EitherLe(cmp, z, x, size);
    EitherLe(cmp, y, x, size);
    EitherLe(cmp, z, y, size);
    Through(cmp, x, z, y, size);
  }

  lemma ChildBelow(cmp: Compare, s: seq<Element>, i: nat, n: nat, j: nat, size: nat)
    requires 1 <= i && n <= |s| && i <= |s| && TotalPreorder(cmp, size) && Sized(s, size)
    requires j < n && (j == 2 * i - 1 || j == 2 * i)
    ensures Le(cmp, s[j], s[Greatest(cmp, s, i, n) - 1])
  {
    SelfLe(cmp, s[j], size);
    if 2 * i <= n {
      EitherLe(cmp, s[i - 1], s[2 * i - 1], size);
    }
    if 2 * i + 1 <= n {
      EitherLe(cmp, s[i - 1], s[2 * i], size);
      EitherLe(cmp, s[2 * i - 1], s[2 * i], size);
      Through(cmp, s[2 * i - 1], s[i - 1], s[2 * i], size);
    }
    hide TotalPreorder;
  }

  lemma SelfLe(cmp: Compare, x: Element, size: nat)
    requires TotalPreorder(cmp, size) && |x| == size
    ensures Le(cmp, x, x)
  {
  }

  lemma EitherLe(cmp: Compare, x: Element, y: Element, size: nat)
    requires TotalPreorder(cmp, size) && |x| == |y| == size
    ensures if cmp(y, x) > 0 then Le(cmp, x, y) else Le(cmp, y, x)
  {
  }

  lemma Through(cmp: Compare, x: Element, y: Element, z: Element, size: nat)
    requires TotalPreorder(cmp, size) && |x| == |y| == |z| == size
    ensures Le(cmp, x, y) && Le(cmp, y, z) ==> Le(cmp, x, z)
  {
  }

  lemma SelfShuffled(s: seq<Element>, n: nat)
    requires n <= |s|
    ensures Shuffled(s, s, n)
  {
  }

  lemma ElementsSized(bytes: seq<Byte>, cnt: nat, size: nat)
    requires Offset(cnt, size) <= |bytes|
    ensures |Elements(bytes, cnt, size)| == cnt && Sized(Elements(bytes, cnt, size), size)
  {
  }

  /** The first half of the loop body of heapify. */
  method MaxOfFamily(a: array<Byte>, i: nat, n: nat, size: nat, cmp: Compare, ghost cnt: nat) returns (max: nat)
    requires Offset(cnt, size) <= a.Length && 1 <= i <= cnt && n <= cnt
    ensures |Elements(a[..], cnt, size)| == cnt && max == Greatest(cmp, Elements(a[..], cnt, size), i, n)
  {
    hide Offset, Elements;
    ElementsSized(a[..], cnt, size);
    var left := 2 * i;
    var right := 2 * i + 1;
    max := i;
    if left <= n {
      var c := DoCompare(a, left, max, size, cmp, cnt);
      if c > 0 {
        max := left;
      }
    }
    if right <= n {
      var c := DoCompare(a, right, max, size, cmp, cnt);
      if c > 0 {
        max := right;
      }
    }
  }

  /** heapify: the element floats down until no child is greater, which restores the heap. */
  method Heapify(a: array<Byte>, start: nat, n: nat, size: nat, cmp: Compare, ghost cnt: nat)
    requires TotalPreorder(cmp, size) && Offset(cnt, size) <= a.Length && 1 <= start && n <= cnt && start <= cnt
    requires HeapBut(cmp, Elements(a[..], cnt, size), start, n, start)
    modifies a
    ensures Heap(cmp, Elements(a[..], cnt, size), start, n)
    ensures Shuffled(Elements(old(a[..]), cnt, size), Elements(a[..], cnt, size), n)
    ensures a[Offset(cnt, size)..] == old(a[Offset(cnt, size)..])
  {
    hide TotalPreorder, HeapBut, Heap, Elements, Shuffled, Greatest, Offset, Dominates;
    var i := start;
    ghost var s0 := Elements(a[..], cnt, size);
    SelfShuffled(s0, n);
    while true
      invariant start <= i <= cnt
      invariant HeapBut(cmp, Elements(a[..], cnt, size), start, n, i)
      invariant Shuffled(s0, Elements(a[..], cnt, size), n)
      invariant a[Offset(cnt, size)..] == old(a[Offset(cnt, size)..])
      decreases cnt - i
    {
      ghost var s := Elements(a[..], cnt, size);
      ElementsSized(a[..], cnt, size);
      var max := MaxOfFamily(a, i, n, size, cmp, cnt);
      GreatestIs(cmp, s, i, n, size);
      if max == i {
        FloatDone(cmp, s, start, n, i);
        break;
      }
      FloatDown(cmp, s, start, n, i, max, size);
      DoSwap(a, i, max, size, cnt);
      ShuffledTwice(s0, s, Elements(a[..], cnt, size), n);
      i := max;
    }
  }

  // ---- sort ----

  lemma {:induction false} RootIsGreatest(cmp: Compare, s: seq<Element>, n: nat, k: nat, size: nat)
    requires TotalPreorder(cmp, size) && Sized(s, size) && Heap(cmp, s, 1, n) && 1 <= k <= n
    ensures Le(cmp, s[k - 1], s[0])
    decreases k
  {
    if k == 1 {
      assert Le(cmp, s[0], s[0]);
    } else {
      assert BelowParent(cmp, s, k);
      RootIsGreatest(cmp, s, n, k / 2, size);
    }
  }

  /** The elements from number n on are sorted, and none of the first n is greater than one of them. */
  ghost predicate TailDone(cmp: Compare, s: seq<Element>, n: nat) {
    && n <= |s|
    && (forall i, j :: n <= i < j < |s| ==> Le(cmp, s[i], s[j]))
    && (forall x, j | x in s[..n] && n <= j < |s| :: Le(cmp, x, s[j]))
  }

  /** One round: the root, the greatest of the heap, goes before the tail. */
  lemma TailGrows(cmp: Compare, s: seq<Element>, n: nat, size: nat)
    requires TotalPreorder(cmp, size) && Sized(s, size) && Heap(cmp, s, 1, n) && TailDone(cmp, s, n) && 2 <= n
    ensures var t := Swapped(s, 0, n - 1);
            && TailDone(cmp, t, n - 1) && HeapBut(cmp, t, 1, n - 1, 1) && Sized(t, size) && Shuffled(s, t, n)
  {
    assert n <= |s|;
    hide TotalPreorder, Sized, Le, Shuffled, Swapped, TailDone, Heap, HeapBut;
    SwapShuffled(s, 0, n - 1, n);
    SwapSized(s, 0, n - 1, size);
    RootGone(cmp, s, n);
    forall j | 0 <= j < n ensures Le(cmp, s[j], s[0]) {
      RootIsGreatest(cmp, s, n, j + 1, size);
    }
    RootToTail(cmp, s, n);
  }

  lemma RootGone(cmp: Compare, s: seq<Element>, n: nat)
    requires Heap(cmp, s, 1, n) && 2 <= n
    ensures HeapBut(cmp, Swapped(s, 0, n - 1), 1, n - 1, 1)
  {
    var t := Swapped(s, 0, n - 1);
    forall k | 2 <= k <= n - 1 && k / 2 != 1 ensures BelowParent(cmp, t, k) {
      assert BelowParent(cmp, s, k);
    }
  }

  lemma RootToTail(cmp: Compare, s: seq<Element>, n: nat)
    requires TailDone(cmp, s, n) && 2 <= n <= |s| && forall j :: 0 <= j < n ==> Le(cmp, s[j], s[0])
    ensures TailDone(cmp, Swapped(s, 0, n - 1), n - 1)
  {
    hide Le;
    var t := Swapped(s, 0, n - 1);
    assert s[..n][0] == s[0] && s[0] in s[..n];
    forall x | x in t[..n - 1] ensures x in s[..n] && Le(cmp, x, s[0]) {
      var i :| 0 <= i < n - 1 && t[i] == x;
      assert s[..n][if i == 0 then n - 1 else i] == x;
    }
    assert t[n - 1] == s[0] && forall j :: n <= j < |s| ==> t[j] == s[j];
  }

  lemma TailShuffled(cmp: Compare, s: seq<Element>, t: seq<Element>, n: nat)
    requires TailDone(cmp, s, n) && Shuffled(s, t, n)
    ensures TailDone(cmp, t, n)
  {
    forall j | n <= j < |s| ensures t[j] == s[j] {
      assert t[n..][j - n] == s[n..][j - n];
    }
    forall x | x in t[..n] ensures x in s[..n] {
      assert x in multiset(t[..n]);
    }
  }

  lemma TailSorted(cmp: Compare, s: seq<Element>, n: nat)
    requires TailDone(cmp, s, n) && n <= 1
    ensures Sorted(cmp, s)
  {
    if n == 1 {
      assert s[..n][0] == s[0] && s[0] in s[..n];
    }
  }

  lemma TailNone(cmp: Compare, s: seq<Element>)
    ensures TailDone(cmp, s, |s|)
  {
  }

  /** With no parent among the elements from number lo on, they form a heap. */
  lemma Leaves(cmp: Compare, s: seq<Element>, n: nat)
    requires n <= |s|
    ensures Heap(cmp, s, n / 2 + 1, n)
  {
  }

  lemma HeapMinus(cmp: Compare, s: seq<Element>, i: nat, n: nat)
    requires Heap(cmp, s, i + 1, n) && 1 <= i <= |s|
    ensures HeapBut(cmp, s, i, n, i)
  {
  }

  lemma SameMultiset(s: seq<Element>, t: seq<Element>, n: nat)
    requires Shuffled(s, t, n)
    ensures multiset(t) == multiset(s)
  {
  }

  /** The first loop of sort. */
  method BuildHeap(a: array<Byte>, cnt: nat, size: nat, cmp: Compare)
    requires TotalPreorder(cmp, size) && Offset(cnt, size) <= a.Length
    modifies a
    ensures Heap(cmp, Elements(a[..], cnt, size), 1, cnt)
    ensures multiset(Elements(a[..], cnt, size)) == multiset(Elements(old(a[..]), cnt, size))
    ensures a[Offset(cnt, size)..] == old(a[Offset(cnt, size)..])
  {
    hide TotalPreorder, Offset, Elements, Heap, HeapBut, Shuffled;
    var i: nat := cnt / 2;
    ElementsSized(a[..], cnt, size);
    Leaves(cmp, Elements(a[..], cnt, size), cnt);
    while i > 0
      invariant i <= cnt && Heap(cmp, Elements(a[..], cnt, size), i + 1, cnt)
      invariant multiset(Elements(a[..], cnt, size)) == multiset(Elements(old(a[..]), cnt, size))
      invariant a[Offset(cnt, size)..] == old(a[Offset(cnt, size)..])
    {
      ghost var s := Elements(a[..], cnt, size);
      ElementsSized(a[..], cnt, size);
      HeapMinus(cmp, s, i, cnt);
      Heapify(a, i, cnt, size, cmp, cnt);
      SameMultiset(s, Elements(a[..], cnt, size), cnt);
      i := i - 1;
    }
  }

  /** sort leaves a sorted permutation of the elements, and nothing after them changed. */
  method Sort(a: array<Byte>, cnt: nat, size: nat, cmp: Compare)
    requires TotalPreorder(cmp, size) && Offset(cnt, size) <= a.Length && size > 0
    modifies a
    ensures Sorted(cmp, Elements(a[..], cnt, size))
    ensures multiset(Elements(a[..], cnt, size)) == multiset(Elements(old(a[..]), cnt, size))
    ensures a[Offset(cnt, size)..] == old(a[Offset(cnt, size)..])
  {
    hide TotalPreorder, Offset, Elements, Heap, HeapBut, Shuffled, TailDone, Sorted, Sized;
    BuildHeap(a, cnt, size, cmp);
    var i: nat := cnt;
    ElementsSized(a[..], cnt, size);
    TailNone(cmp, Elements(a[..], cnt, size));
    while i > 1
      invariant i <= cnt && (i == 0 ==> cnt == 0)
      invariant Heap(cmp, Elements(a[..], cnt, size), 1, i) && TailDone(cmp, Elements(a[..], cnt, size), i)
      invariant multiset(Elements(a[..], cnt, size)) == multiset(Elements(old(a[..]), cnt, size))
      invariant a[Offset(cnt, size)..] == old(a[Offset(cnt, size)..])
    {
      ghost var s := Elements(a[..], cnt, size);
      ElementsSized(a[..], cnt, size);
      TailGrows(cmp, s, i, size);
      DoSwap(a, 1, i, size, cnt);
      ghost var t := Elements(a[..], cnt, size);
      SameMultiset(s, t, i);
      Heapify(a, 1, i - 1, size, cmp, cnt);
      SameMultiset(t, Elements(a[..], cnt, size), i - 1);
      TailShuffled(cmp, t, Elements(a[..], cnt, size), i - 1);
      i := i - 1;
    }
    ElementsSized(a[..], cnt, size);
    TailSorted(cmp, Elements(a[..], cnt, size), i);
  }

  // ---- binary search ----

  lemma Divides(k: nat, size: nat)
    requires size > 0
    ensures Offset(k, size) / size == k
  {
    var x := Offset(k, size);
    assert x == size * (x / size) + x % size;
    if x / size < k {
      MulStep(size, x / size, k);
    } else if k < x / size {
      MulStep(size, k, x / size);
    }
  }

  lemma OffsetAdds(i: nat, j: nat, size: nat)
    ensures Offset(i, size) + Offset(j, size) == Offset(i + j, size)
  {
  }

  /** binary_search of a sorted array, with offsets in bytes for pointers: a match when there is one,
      and nothing only when there is none. */
  method BinarySearch(key: Element, a: array<Byte>, cnt: nat, size: nat, cmp: Compare) returns (found: Option<nat>)
    requires TotalPreorder(cmp, size) && Offset(cnt, size) <= a.Length && size > 0 && |key| == size
    requires Sorted(cmp, Elements(a[..], cnt, size))
    ensures var s := Elements(a[..], cnt, size);
            match found
            case Some(p) => exists k :: 0 <= k < |s| && p == Offset(k, size) && cmp(key, s[k]) == 0
            case None => forall k :: 0 <= k < |s| ==> cmp(key, s[k]) != 0
  {
    hide Offset, Elements, Sorted, TotalPreorder;
    var first, last := 0, cnt * size;
    ghost var f, l := 0, cnt;
    ghost var s := Elements(a[..], cnt, size);
    OffsetEnds(cnt, size);
    ElementsSized(a[..], cnt, size);
    while first < last
      invariant f <= l <= cnt && first == Offset(f, size) && last == Offset(l, size)
      invariant forall k :: 0 <= k < f ==> cmp(key, s[k]) > 0
      invariant forall k :: l <= k < cnt ==> cmp(key, s[k]) < 0
      decreases l - f
    {
      Between(f, l, size);
      var range := (last - first) / size;
      var middle := first + range / 2 * size;
      ghost var m := f + (l - f) / 2;
      OffsetAdds(f, (l - f) / 2, size);
      OffsetIs((l - f) / 2, size);
      OffsetIs(f, size);
      SlotAt(a[..], m, cnt, size);
      var c := cmp(key, a[middle..middle + size]);
      assert a[middle..middle + size] == s[m];
      if c < 0 {
        AfterIt(key, s, m, cmp, size);
        last, l := middle, m;
      } else if c > 0 {
        BeforeIt(key, s, m, cmp, size);
        OffsetStep(m, size);
        first, f := middle + size, m + 1;
      } else {
        return Some(middle);
      }
    }
    Between(f, l, size);
    return None;
  }

  lemma OffsetEnds(cnt: nat, size: nat)
    ensures Offset(0, size) == 0 && Offset(cnt, size) == cnt * size
  {
  }

  lemma OffsetIs(k: nat, size: nat)
    ensures Offset(k, size) == k * size
  {
  }

  lemma Between(f: nat, l: nat, size: nat)
    requires f <= l && size > 0
    ensures Offset(f, size) < Offset(l, size) <==> f < l
    ensures Offset(l, size) - Offset(f, size) >= 0 && (Offset(l, size) - Offset(f, size)) / size == l - f
  {
    OffsetAdds(f, l - f, size);
    Divides(l - f, size);
    if f < l {
      OffsetsApart(f, l, size);
    }
  }

  lemma AfterIt(key: Element, s: seq<Element>, m: nat, cmp: Compare, size: nat)
    requires TotalPreorder(cmp, size) && Sized(s, size) && Sorted(cmp, s) && m < |s| && |key| == size &&
             cmp(key, s[m]) < 0
    ensures forall k :: m <= k < |s| ==> cmp(key, s[k]) < 0
  {
    forall k | m <= k < |s| ensures cmp(key, s[k]) < 0 {
      assert Le(cmp, s[m], s[m]) && Le(cmp, s[m], s[k]);
      assert cmp(s[m], key) > 0;
      assert Le(cmp, s[k], key) ==> Le(cmp, s[m], key);
    }
  }

  lemma BeforeIt(key: Element, s: seq<Element>, m: nat, cmp: Compare, size: nat)
    requires TotalPreorder(cmp, size) && Sized(s, size) && Sorted(cmp, s) && m < |s| && |key| == size &&
             cmp(key, s[m]) > 0
    ensures forall k :: 0 <= k <= m ==> cmp(key, s[k]) > 0
  {
    forall k | 0 <= k <= m ensures cmp(key, s[k]) > 0 {
      assert Le(cmp, s[m], s[m]) && Le(cmp, s[k], s[m]);
      assert Le(cmp, key, s[k]) ==> Le(cmp, key, s[m]);
    }
  }
}
