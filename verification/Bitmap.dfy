/**
 pintos/src/lib/kernel/bitmap.c: bits packed into 32-bit elements, and first-fit search.
 */
module Bitmap {
  import opened Wrappers

  const ELEM_BITS := 32

  type Elem = bv32

  // ---- one element ----

  /** 1 << k */
  function Mask(k: nat): Elem
    requires k < ELEM_BITS
  {
    if k == 0 then 1 else Mask(k - 1) << 1
  }

  predicate Hits(w: Elem, m: Elem) {
    w & m != 0
  }

  function Or(w: Elem, m: Elem): Elem {
    w | m
  }

  function AndNot(w: Elem, m: Elem): Elem {
    w & !m
  }

  predicate Disjoint(m: Elem, k: Elem) {
    m & k == 0
  }

  predicate Bit(w: Elem, k: nat)
    requires k < ELEM_BITS
  {
    Hits(w, Mask(k))
  }

  lemma {:induction false} MasksDisjoint(a: nat, b: nat)
    requires a < b < ELEM_BITS
    ensures Disjoint(Mask(a), Mask(b))
  {
    if a == 0 {
      EvenHasNoLowBit(Mask(b - 1));
    } else {
      MasksDisjoint(a - 1, b - 1);
      ShiftBoth(Mask(a - 1), Mask(b - 1));
    }
  }

  lemma EvenHasNoLowBit(x: Elem)
    ensures 1 & (x << 1) == 0
  {
  }

  lemma ShiftBoth(x: Elem, y: Elem)
    requires x & y == 0
    ensures (x << 1) & (y << 1) == 0
  {
  }

  lemma MaskNonzero(k: nat)
    requires k < ELEM_BITS
    ensures Mask(k) != 0
  {
    MasksLow();
    MasksHigh();
    MasksTop();
  }

  lemma MasksLow()
    ensures forall k: nat | k < 12 :: Mask(k) != 0
    ensures Mask(11) == 0x800
  {
    assert Mask(3) == 0x8 && Mask(2) == 0x4 && Mask(1) == 2;
    assert Mask(6) == 0x40 && Mask(5) == 0x20 && Mask(4) == 0x10;
    assert Mask(9) == 0x200 && Mask(8) == 0x100 && Mask(7) == 0x80;
    assert Mask(10) == 0x400;
  }

  lemma MasksHigh()
    ensures forall k: nat | 12 <= k < 22 :: Mask(k) != 0
    ensures Mask(21) == 0x20_0000
  {
    MasksLow();
    assert Mask(14) == 0x4000 && Mask(13) == 0x2000 && Mask(12) == 0x1000;
    assert Mask(17) == 0x2_0000 && Mask(16) == 0x1_0000 && Mask(15) == 0x8000;
    assert Mask(20) == 0x10_0000 && Mask(19) == 0x8_0000 && Mask(18) == 0x4_0000;
  }

  lemma MasksTop()
    ensures forall k: nat | 22 <= k < 32 :: Mask(k) != 0
  {
    MasksHigh();
    assert Mask(24) == 0x100_0000 && Mask(23) == 0x80_0000 && Mask(22) == 0x40_0000;
    assert Mask(27) == 0x800_0000 && Mask(26) == 0x400_0000 && Mask(25) == 0x200_0000;
    assert Mask(30) == 0x4000_0000 && Mask(29) == 0x2000_0000 && Mask(28) == 0x1000_0000;
    assert Mask(31) == 0x8000_0000;
  }

  lemma SameMask(w: Elem, m: Elem)
    requires m != 0
    ensures Hits(Or(w, m), m) && !Hits(AndNot(w, m), m)
  {
  }

  lemma OrElsewhere(w: Elem, m: Elem, k: Elem)
    requires m & k == 0
    ensures (w | m) & k == w & k
  {
  }

  lemma AndNotElsewhere(w: Elem, m: Elem, k: Elem)
    requires m & k == 0
    ensures (w & !m) & k == w & k
  {
  }

  lemma OtherMask(w: Elem, m: Elem, k: Elem)
    requires Disjoint(m, k)
    ensures Hits(Or(w, m), k) == Hits(w, k) && Hits(AndNot(w, m), k) == Hits(w, k)
  {
    OrElsewhere(w, m, k);
    AndNotElsewhere(w, m, k);
  }

  lemma DisjointBoth(x: Elem, y: Elem)
    requires Disjoint(x, y)
    ensures Disjoint(y, x)
  {
  }

  /** Setting and clearing one bit leave the other bits of the element alone. */
  lemma MarkBit(w: Elem, a: nat, b: nat)
    requires a < ELEM_BITS && b < ELEM_BITS
    ensures Bit(Or(w, Mask(a)), b) == (a == b || Bit(w, b))
    ensures Bit(AndNot(w, Mask(a)), b) == (a != b && Bit(w, b))
  {
    hide Mask, Hits, Or, AndNot, Disjoint;
    if a == b {
      MaskNonzero(a);
      SameMask(w, Mask(a));
    } else {
      if a < b {
        MasksDisjoint(a, b);
      } else {
        MasksDisjoint(b, a);
        DisjointBoth(Mask(b), Mask(a));
      }
      OtherMask(w, Mask(a), Mask(b));
    }
  }

  // ---- a bitmap as a sequence of bits ----

  /** Bits start to start + cnt all have the value v. */
  predicate Uniform(bits: seq<bool>, start: nat, cnt: nat, v: bool)
    requires start + cnt <= |bits|
  {
    forall i :: start <= i < start + cnt ==> bits[i] == v
  }

  function SetRange(bits: seq<bool>, start: nat, cnt: nat, v: bool): (r: seq<bool>)
    requires start + cnt <= |bits|
    ensures |r| == |bits|
    ensures forall i :: 0 <= i < |bits| ==> r[i] == if start <= i < start + cnt then v else bits[i]
  {
    bits[..start] + seq(cnt, i => v) + bits[start + cnt..]
  }

  function Count(bits: seq<bool>, start: nat, cnt: nat, v: bool): (n: nat)
    requires start + cnt <= |bits|
    ensures n <= cnt
    decreases cnt
  {
    if cnt == 0 then 0
    else Count(bits, start, cnt - 1, v) + if bits[start + cnt - 1] == v then 1 else 0
  }

  /** The place that a first-fit search from `start` must find. */
  predicate FirstFit(bits: seq<bool>, start: nat, cnt: nat, v: bool, found: Option<nat>) {
    match found
    case Some(i) =>
      && start <= i && i + cnt <= |bits| && Uniform(bits, i, cnt, v)
      && forall j :: start <= j < i ==> !Uniform(bits, j, cnt, v)
    case None =>
      forall j | start <= j && j + cnt <= |bits| :: !Uniform(bits, j, cnt, v)
  }

  lemma FirstFitUnique(bits: seq<bool>, start: nat, cnt: nat, v: bool, a: Option<nat>, b: Option<nat>)
    requires FirstFit(bits, start, cnt, v, a) && FirstFit(bits, start, cnt, v, b)
    ensures a == b
  {
  }

  function Scan(bits: seq<bool>, start: nat, cnt: nat, v: bool): (found: Option<nat>)
    ensures FirstFit(bits, start, cnt, v, found)
    decreases |bits| - start
  {
    if start + cnt > |bits| then None
    else if Uniform(bits, start, cnt, v) then Some(start)
    else Scan(bits, start + 1, cnt, v)
  }

  class Bitmap {
    const bitCnt: nat
    const bits: array<Elem>

    ghost predicate Valid() {
      bits.Length == (bitCnt + ELEM_BITS - 1) / ELEM_BITS
    }

    constructor (bitCnt: nat)
      ensures Valid() && fresh(bits) && this.bitCnt == bitCnt
      ensures Contents() == seq(bitCnt, i => false)
    {
      this.bitCnt := bitCnt;
      bits := new Elem[(bitCnt + ELEM_BITS - 1) / ELEM_BITS](i => 0);
      new;
      forall i: nat | i < bitCnt ensures !Contents()[i] {
        assert bits[i / ELEM_BITS] == 0;
        ZeroHasNoBits(Mask(i % ELEM_BITS));
      }
    }

    ghost function Contents(): (s: seq<bool>)
      requires Valid()
      reads bits
      ensures |s| == bitCnt
    {
      seq(bitCnt, i requires 0 <= i < bitCnt reads bits => Bit(bits[i / ELEM_BITS], i % ELEM_BITS))
    }

    method Set(idx: nat, value: bool)
      requires Valid() && idx < bitCnt
      modifies bits
      ensures Contents() == old(Contents())[idx := value]
    {
      hide Mask, Bit, Or, AndNot;
      var e := idx / ELEM_BITS;
      ghost var w := bits[e];
      if value {
        bits[e] := Or(bits[e], Mask(idx % ELEM_BITS));
      } else {
        bits[e] := AndNot(bits[e], Mask(idx % ELEM_BITS));
      }
      forall i: nat | i < bitCnt
        ensures Contents()[i] == old(Contents())[idx := value][i]
      {
        if i / ELEM_BITS == e {
          MarkBit(w, idx % ELEM_BITS, i % ELEM_BITS);
        }
      }
    }

    method Test(idx: nat) returns (b: bool)
      requires Valid() && idx < bitCnt
      ensures b == Contents()[idx]
    {
      b := Hits(bits[idx / ELEM_BITS], Mask(idx % ELEM_BITS));
    }

    method SetMultiple(start: nat, cnt: nat, value: bool)
      requires Valid() && start + cnt <= bitCnt
      modifies bits
      ensures Contents() == SetRange(old(Contents()), start, cnt, value)
    {
      var i := 0;
      while i < cnt
        invariant i <= cnt
        invariant Contents() == SetRange(old(Contents()), start, i, value)
      {
        Set(start + i, value);
        i := i + 1;
      }
    }

    method CountBits(start: nat, cnt: nat, value: bool) returns (n: nat)
      requires Valid() && start + cnt <= bitCnt
      ensures n == Count(Contents(), start, cnt, value)
    {
      n := 0;
      var i := 0;
      while i < cnt
        invariant i <= cnt && n == Count(Contents(), start, i, value)
      {
        var b := Test(start + i);
        if b == value {
          n := n + 1;
        }
        i := i + 1;
      }
    }

    method Contains(start: nat, cnt: nat, value: bool) returns (b: bool)
      requires Valid() && start + cnt <= bitCnt
      ensures b <==> !Uniform(Contents(), start, cnt, !value)
    {
      var i := 0;
      while i < cnt
        invariant i <= cnt && Uniform(Contents(), start, i, !value)
      {
        var t := Test(start + i);
        if t == value {
          return true;
        }
        i := i + 1;
      }
      return false;
    }

    /** bitmap_scan; None is BITMAP_ERROR. */
    method ScanBits(start: nat, cnt: nat, value: bool) returns (found: Option<nat>)
      requires Valid() && start <= bitCnt
      ensures FirstFit(Contents(), start, cnt, value, found)
      ensures found == Scan(Contents(), start, cnt, value)
    {
      if cnt <= bitCnt {
        var last := bitCnt - cnt;
        var i := start;
        while i <= last
          invariant start <= i
          invariant forall j :: start <= j < i && j + cnt <= bitCnt ==> !Uniform(Contents(), j, cnt, value)
          decreases last - i
        {
          var other := Contains(i, cnt, !value);
          if !other {
            FirstFitUnique(Contents(), start, cnt, value, Some(i), Scan(Contents(), start, cnt, value));
            return Some(i);
          }
          i := i + 1;
        }
      }
      FirstFitUnique(Contents(), start, cnt, value, None, Scan(Contents(), start, cnt, value));
      return None;
    }

    method ScanAndFlip(start: nat, cnt: nat, value: bool) returns (found: Option<nat>)
      requires Valid() && start <= bitCnt
      modifies bits
      ensures found == Scan(old(Contents()), start, cnt, value)
      ensures Contents() == match found
                            case None => old(Contents())
                            case Some(i) => SetRange(old(Contents()), i, cnt, !value)
    {
      found := ScanBits(start, cnt, value);
      if found.Some? {
        SetMultiple(found.value, cnt, !value);
      }
    }
  }

  lemma ZeroHasNoBits(m: Elem)
    ensures !Hits(0, m)
  {
  }

  /** A search for no bits finds its starting place, not 0 as the comment on
      bitmap_scan_and_flip has it. */
  lemma EmptySearchReturnsStart(bits: seq<bool>, start: nat, v: bool)
    requires start <= |bits|
    ensures Scan(bits, start, 0, v) == Some(start)
  {
  }
}
