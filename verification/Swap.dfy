/**
 pintos/src/vm/swap.c over lib/kernel/bitmap.c: pages on the swap device.
 */
module Swap {
  import opened Wrappers
  import opened Bitmap
  import opened Bytes

  const SLOT := 8            // PGSIZE / BLOCK_SECTOR_SIZE
  const PAGE_SIZE := 4096

  type Page = p: seq<Byte> | |p| == PAGE_SIZE witness seq(PAGE_SIZE, i => 0)

  datatype Swap = Swap(bits: seq<bool>, sectors: seq<Sector>)

  /** The outcome of swap_out: its two NOT_REACHED, or the index of the slot. */
  datatype Outcome = Full | Fragmented | Stored(slot: nat, after: Swap)

  // ---- slots ----

  ghost predicate Fits(s: Swap) {
    |s.bits| == |s.sectors|
  }

  /** The start of the slot around bit `i`. */
  function Base(i: nat): (j: nat)
    ensures j <= i < j + SLOT && j % SLOT == 0
  {
    i - i % SLOT
  }

  lemma BaseUnique(i: nat, j: nat)
    requires j <= i < j + SLOT && j % SLOT == 0
    ensures Base(i) == j
  {
  }

  /** Every aligned group of SLOT bits is uniform, and the bits past the last whole group are
      clear; the size of the device is arbitrary. */
  ghost predicate Slotted(bits: seq<bool>) {
    forall i: nat :: i < |bits| ==> bits[i] == (Base(i) + SLOT <= |bits| && bits[Base(i)])
  }

  /** The slots that hold a page. */
  ghost predicate InUse(bits: seq<bool>, i: nat) {
    i % SLOT == 0 && i + SLOT <= |bits| && bits[i]
  }

  function PageAt(sectors: seq<Sector>, i: nat): Page
    requires i + SLOT <= |sectors|
  {
    seq(PAGE_SIZE, b requires 0 <= b < PAGE_SIZE => sectors[i + b / SECTOR_SIZE][b % SECTOR_SIZE])
  }

  /** The page of each slot in use. */
  ghost function Pages(s: Swap): map<nat, Page>
    requires Fits(s)
  {
    map i | 0 <= i < |s.bits| && InUse(s.bits, i) :: PageAt(s.sectors, i)
  }

  function Write(sectors: seq<Sector>, i: nat, page: Page): (r: seq<Sector>)
    requires i + SLOT <= |sectors|
    ensures |r| == |sectors|
  {
    seq(|sectors|, k requires 0 <= k < |sectors| =>
          if i <= k < i + SLOT then page[(k - i) * SECTOR_SIZE..(k - i + 1) * SECTOR_SIZE] else sectors[k])
  }

  function SwapOut(s: Swap, page: Page): Outcome
    requires |s.bits| == |s.sectors|
  {
    if Count(s.bits, 0, |s.bits|, false) < SLOT then Full
    else
      match Scan(s.bits, 0, SLOT, false)
      case None => Fragmented
      case Some(i) => Stored(i, Swap(SetRange(s.bits, i, SLOT, true), Write(s.sectors, i, page)))
  }

  /** The map after swap_in or swap_free; swap_in also reads PageAt. */
  function SwapFree(s: Swap, i: nat): Swap
    requires i + SLOT <= |s.bits|
  {
    s.(bits := SetRange(s.bits, i, SLOT, false))
  }

  // ---- no fragmentation ----

  lemma FreeSlot(bits: seq<bool>, i: nat)
    requires Slotted(bits) && i < |bits| && !bits[i] && Base(i) + SLOT <= |bits|
    ensures Uniform(bits, Base(i), SLOT, false)
  {
    var j := Base(i);
    assert !bits[j];
    forall k | j <= k < j + SLOT ensures !bits[k] {
      BaseUnique(k, j);
    }
  }

  /** First fit lands on a slot boundary: an unaligned free run would start inside a free slot. */
  lemma ScanAligned(bits: seq<bool>)
    requires Slotted(bits)
    ensures var found := Scan(bits, 0, SLOT, false);
            found.Some? ==> found.value % SLOT == 0 && !InUse(bits, found.value)
  {
    var found := Scan(bits, 0, SLOT, false);
    hide Scan, Slotted, Base;
    if found.Some? {
      FreeSlot(bits, found.value);
    }
  }

  lemma {:induction false} CountOnlyTail(bits: seq<bool>, whole: nat, k: nat)
    requires whole <= |bits| && k <= |bits| && forall i :: 0 <= i < whole ==> bits[i]
    ensures Count(bits, 0, k, false) <= if k > whole then k - whole else 0
    decreases k
  {
    if k > 0 {
      CountOnlyTail(bits, whole, k - 1);
    }
  }

  /** If the count of free bits reaches a slot, a whole slot is free, whatever the device's size. */
  lemma ScanFinds(bits: seq<bool>)
    requires Slotted(bits) && Count(bits, 0, |bits|, false) >= SLOT
    ensures Scan(bits, 0, SLOT, false).Some?
  {
    var whole := |bits| - |bits| % SLOT;
    hide Scan, Count, Slotted, Base;
    if Scan(bits, 0, SLOT, false) == None {
      forall i: nat | i < whole ensures bits[i] {
        if !bits[i] {
          assert Base(i) + SLOT <= |bits|;
          FreeSlot(bits, i);
          hide Uniform;
        }
      }
      CountOnlyTail(bits, whole, |bits|);
    }
  }

  lemma {:induction false} CountSome(bits: seq<bool>, i: nat, k: nat)
    requires k <= |bits| && i + SLOT <= |bits| && Uniform(bits, i, SLOT, false)
    ensures Count(bits, 0, k, false) >= if k <= i then 0 else if k >= i + SLOT then SLOT else k - i
    decreases k
  {
    if k > 0 {
      CountSome(bits, i, k - 1);
    }
  }

  lemma RangeSlotted(bits: seq<bool>, i: nat, v: bool)
    requires Slotted(bits) && i % SLOT == 0 && i + SLOT <= |bits|
    ensures Slotted(SetRange(bits, i, SLOT, v))
    ensures forall k: nat :: InUse(SetRange(bits, i, SLOT, v), k) <==> if k == i then v else InUse(bits, k)
  {
    var bits' := SetRange(bits, i, SLOT, v);
    forall k: nat | k < |bits|
      ensures i <= k < i + SLOT <==> Base(k) == i
    {
      if i <= k < i + SLOT { BaseUnique(k, i); }
    }
    BaseUnique(i, i);
    forall k: nat | k % SLOT == 0 ensures Base(k) == k {
      BaseUnique(k, k);
    }
    hide Base;
    forall k: nat | k < |bits'|
      ensures bits'[k] == (Base(k) + SLOT <= |bits'| && bits'[Base(k)])
    {
      assert bits[k] == (Base(k) + SLOT <= |bits| && bits[Base(k)]);
      BaseOfBase(k);
    }
    forall k: nat ensures InUse(bits', k) <==> if k == i then v else InUse(bits, k) {
    }
  }

  lemma BaseOfBase(k: nat)
    ensures Base(Base(k)) == Base(k)
  {
    BaseUnique(Base(k), Base(k));
  }

  /** swap_out stores the page in a slot that was free and leaves every other page alone.  It
      gives up only when less than one slot is free: its second NOT_REACHED is unreachable. */
  lemma SwapOutStores(s: Swap, page: Page)
    requires Fits(s) && Slotted(s.bits)
    ensures SwapOut(s, page) != Fragmented
    ensures SwapOut(s, page) == Full <==> forall i: nat | i % SLOT == 0 && i + SLOT <= |s.bits| :: InUse(s.bits, i)
    ensures match SwapOut(s, page)
            case Stored(slot, s') =>
              && Fits(s') && Slotted(s'.bits) && |s'.bits| == |s.bits|
              && slot !in Pages(s) && Pages(s') == Pages(s)[slot := page]
            case _ => true
  {
    FullIff(s.bits);
    match SwapOut(s, page)
    case Full =>
    case Fragmented => ScanFinds(s.bits);
    case Stored(slot, s') =>
      ScanAligned(s.bits);
      RangeSlotted(s.bits, slot, true);
      hide Slotted, InUse, Scan, Count;
      WriteReads(s.sectors, slot, page);
      WritePages(s, slot, page);
  }

  lemma FullIff(bits: seq<bool>)
    requires Slotted(bits)
    ensures Count(bits, 0, |bits|, false) < SLOT <==>
            forall i: nat | i % SLOT == 0 && i + SLOT <= |bits| :: InUse(bits, i)
  {
    hide Slotted, Count, Scan;
    if Count(bits, 0, |bits|, false) >= SLOT {
      ScanFinds(bits);
      ScanAligned(bits);
    } else {
      forall i: nat | i % SLOT == 0 && i + SLOT <= |bits| ensures InUse(bits, i) {
        if !bits[i] {
          BaseUnique(i, i);
          FreeSlot(bits, i);
          CountSome(bits, i, |bits|);
        }
      }
    }
  }

  lemma WriteReads(sectors: seq<Sector>, i: nat, page: Page)
    requires i + SLOT <= |sectors|
    ensures PageAt(Write(sectors, i, page), i) == page
  {
    var p := PageAt(Write(sectors, i, page), i);
    forall b | 0 <= b < PAGE_SIZE ensures p[b] == page[b] {
      var k := i + b / SECTOR_SIZE;
      assert Write(sectors, i, page)[k] == page[(k - i) * SECTOR_SIZE..(k - i + 1) * SECTOR_SIZE];
    }
  }

  lemma WriteElsewhere(sectors: seq<Sector>, i: nat, page: Page, k: nat)
    requires i + SLOT <= |sectors| && k + SLOT <= |sectors|
    requires k != i && k % SLOT == 0 && i % SLOT == 0
    ensures PageAt(Write(sectors, i, page), k) == PageAt(sectors, k)
  {
    forall b | 0 <= b < PAGE_SIZE ensures PageAt(Write(sectors, i, page), k)[b] == PageAt(sectors, k)[b] {
      assert !(i <= k + b / SECTOR_SIZE < i + SLOT);
    }
  }

  lemma WritePages(s: Swap, slot: nat, page: Page)
    requires Fits(s) && slot % SLOT == 0 && slot + SLOT <= |s.bits|
    requires forall k: nat :: InUse(SetRange(s.bits, slot, SLOT, true), k) <==> k == slot || InUse(s.bits, k)
    requires PageAt(Write(s.sectors, slot, page), slot) == page
    ensures var s' := Swap(SetRange(s.bits, slot, SLOT, true), Write(s.sectors, slot, page));
            Pages(s') == Pages(s)[slot := page]
  {
    var s' := Swap(SetRange(s.bits, slot, SLOT, true), Write(s.sectors, slot, page));
    forall k: nat | InUse(s.bits, k) && k != slot ensures PageAt(s'.sectors, k) == PageAt(s.sectors, k) {
      WriteElsewhere(s.sectors, slot, page, k);
    }
  }

  lemma SwapFreeRemoves(s: Swap, i: nat)
    requires Fits(s) && Slotted(s.bits) && i in Pages(s)
    ensures Fits(SwapFree(s, i)) && Slotted(SwapFree(s, i).bits)
    ensures Pages(SwapFree(s, i)) == Pages(s) - {i}
  {
    RangeSlotted(s.bits, i, false);
    hide Slotted, InUse;
  }

  // ---- the device ----

  class SwapDevice {
    const freeMap: Bitmap
    const device: array<Sector>

    ghost predicate Valid() {
      freeMap.Valid() && freeMap.bitCnt == device.Length && device as object != freeMap.bits as object
    }

    constructor (sectors: array<Sector>)
      ensures Valid() && fresh(freeMap) && fresh(freeMap.bits) && device == sectors
      ensures Current().sectors == sectors[..] && Current().bits == seq(sectors.Length, i => false)
    {
      device := sectors;
      freeMap := new Bitmap(sectors.Length);
    }

    ghost function Current(): (s: Swap)
      requires Valid()
      reads freeMap.bits, device
      ensures Fits(s)
    {
      Swap(freeMap.Contents(), device[..])
    }

    /** swap_out; None stands for its NOT_REACHED. */
    method Out(page: Page) returns (slot: Option<nat>)
      requires Valid() && Slotted(Current().bits)
      modifies freeMap.bits, device
      ensures match SwapOut(old(Current()), page)
              case Stored(i, s') => slot == Some(i) && Current() == s'
              case _ => slot == None && Current() == old(Current())
    {
      ghost var s := Current();
      var free := freeMap.CountBits(0, freeMap.bitCnt, false);
      if free < SLOT {
        return None;
      }
      ScanFinds(s.bits);
      hide Count, Scan, Slotted;
      slot := freeMap.ScanAndFlip(0, SLOT, false);
      WritePage(slot.value, page);
    }

    method WritePage(slot: nat, page: Page)
      requires Valid() && slot + SLOT <= device.Length
      modifies device
      ensures device[..] == Write(old(device[..]), slot, page)
    {
      ghost var sectors := device[..];
      var i := 0;
      while i < SLOT
        invariant i <= SLOT
        invariant forall k :: 0 <= k < device.Length ==>
          device[k] == if slot <= k < slot + i then Write(sectors, slot, page)[k] else sectors[k]
      {
        device[slot + i] := page[i * SECTOR_SIZE..(i + 1) * SECTOR_SIZE];
        i := i + 1;
      }
    }

    /** swap_in into the frame that holds `frame`. */
    method In(slot: nat, frame: Page) returns (page: Page)
      requires Valid() && slot + SLOT <= freeMap.bitCnt
      modifies freeMap.bits
      ensures page == PageAt(old(Current()).sectors, slot)
      ensures Current() == SwapFree(old(Current()), slot)
    {
      freeMap.SetMultiple(slot, SLOT, false);
      page := frame;
      var i := 0;
      while i < SLOT
        invariant i <= SLOT
        invariant forall b :: 0 <= b < i * SECTOR_SIZE ==> page[b] == device[slot + b / SECTOR_SIZE][b % SECTOR_SIZE]
      {
        page := page[..i * SECTOR_SIZE] + device[slot + i] + page[(i + 1) * SECTOR_SIZE..];
        i := i + 1;
      }
      assert page == PageAt(device[..], slot);
    }

    method Free(slot: nat)
      requires Valid() && slot + SLOT <= freeMap.bitCnt
      modifies freeMap.bits
      ensures Current() == SwapFree(old(Current()), slot)
    {
      freeMap.SetMultiple(slot, SLOT, false);
    }
  }
}
