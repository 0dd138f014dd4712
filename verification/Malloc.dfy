/**
 pintos/src/threads/malloc.c over palloc.c's kernel pool: malloc, free and realloc on one
 memory.  What the code writes into free blocks and arena headers (list links, counters) is left
 open; it is proved never to reach a live block.
 */
module Malloc {
  import Arithmetic
  import opened Bitmap
  import opened Bytes
  import opened Heap
  import opened Sequences
  import opened Wrappers

  type uint32 = Arithmetic.uint32

  // ---- requests ----

  /** The pages of a 32-bit address space. */
  const ADDRESS_PAGES: nat := 0x10_0000
  const MAX_REQUEST: uint32 := 0xFFFF_FFF4

  /** DIV_ROUND_UP (size + sizeof *a, PGSIZE), each sum reduced to 32 bits. */
  function BigPages(size: uint32): (n: uint32) {
    Arithmetic.U32(Arithmetic.U32(Arithmetic.U32(size + ARENA_SIZE) + PGSIZE) - 1) / PGSIZE
  }

  /** What a block for a request has to hold: the request, or what is left of a single page. */
  function Granted(size: uint32): nat {
    if size <= MAX_REQUEST then size else PGSIZE - ARENA_SIZE
  }

  /** The number of pages is the one that is wanted up to a point; then it is 0, and for the very
      largest requests it is 1. */
  lemma BigPagesIs(size: uint32)
    ensures size <= 0xFFFF_EFF4 ==> (BigPages(size) - 1) * PGSIZE < size + ARENA_SIZE <= BigPages(size) * PGSIZE
    ensures 0xFFFF_EFF4 < size <= MAX_REQUEST ==> BigPages(size) == 0
    ensures size > MAX_REQUEST ==> BigPages(size) == 1
  {
    if size <= 0xFFFF_EFF4 {
      assert BigPages(size) == (size + ARENA_SIZE + PGSIZE - 1) / PGSIZE;
    } else if size <= MAX_REQUEST {
      assert Arithmetic.U32(size + ARENA_SIZE + PGSIZE - 1) < PGSIZE;
    }
  }

  /** The pages that the code asks for hold the request exactly when adding the header does not wrap
      around. */
  lemma BigEnough(size: uint32)
    requires BigPages(size) > 0
    ensures size <= PGSIZE * BigPages(size) - ARENA_SIZE <==> size <= MAX_REQUEST
    ensures Granted(size) <= PGSIZE * BigPages(size) - ARENA_SIZE && (size > 0 ==> Granted(size) > 0)
  {
    BigPagesIs(size);
  }

  /** A request for all of memory but one byte is served by one page. */
  lemma LargestRequest()
    ensures BigPages(0xFFFF_FFFF) == 1 && PGSIZE * BigPages(0xFFFF_FFFF) - ARENA_SIZE == 4084
  {
    BigPagesIs(0xFFFF_FFFF);
  }

  // ---- which block ----

  /** The smallest descriptor for a request. */
  ghost predicate Fits(ds: seq<Desc>, k: nat, size: uint32) {
    k < |ds| && ds[k].blockSize >= size && forall j :: 0 <= j < k ==> ds[j].blockSize < size
  }

  /** The first block of the free list, or the first of an arena in the first free page, or the block
      after the header in the first free run of enough pages. */
  ghost predicate Chosen(ds: seq<Desc>, used: seq<bool>, size: uint32, b: nat) {
    if exists k: nat :: Fits(ds, k, size) then
      exists k: nat | Fits(ds, k, size) ::
        if ds[k].freeList != [] then b == ds[k].freeList[0]
        else Scan(used, 0, 1, false) == Some(b / PGSIZE) && b % PGSIZE == ARENA_SIZE
    else BigChosen(used, size, b)
  }

  ghost predicate BigChosen(used: seq<bool>, size: uint32, b: nat) {
    Scan(used, 0, BigPages(size), false) == Some(b / PGSIZE) && b % PGSIZE == ARENA_SIZE
  }

  /** The block is of the smallest descriptor there is for the request, or wastes less than a page. */
  ghost predicate Snug(ds: seq<Desc>, arenas: Arenas, b: nat, size: uint32) {
    if exists k: nat :: Fits(ds, k, size) then
      exists k: nat | Fits(ds, k, size) :: Extent(ds, arenas, b) == ds[k].blockSize
    else BigSnug(ds, arenas, b, size)
  }

  ghost predicate BigSnug(ds: seq<Desc>, arenas: Arenas, b: nat, size: uint32) {
    size <= 0xFFFF_EFF4 ==> Extent(ds, arenas, b) < size + PGSIZE
  }

  /** The block sizes of malloc_init. */
  function ClassSize(k: nat): (n: nat)
    ensures n > 0
  {
    if k == 0 then 16 else 2 * ClassSize(k - 1)
  }

  lemma ClassSizes()
    ensures ClassSize(6) == 1024 && ClassSize(7) == PGSIZE / 2
    ensures forall k: nat | k < 7 :: ClassSize(k) < PGSIZE / 2
  {
    assert ClassSize(1) == 32 && ClassSize(2) == 64;
    assert ClassSize(3) == 128 && ClassSize(4) == 256;
    assert ClassSize(5) == 512;
  }

  lemma NextClass(ds: seq<Desc>)
    requires |ds| <= 7 && ClassSize(|ds|) < PGSIZE / 2
    requires DescsOk(ds) && forall k :: 0 <= k < |ds| ==> ds[k].blockSize == ClassSize(k)
    ensures |ds| < 7
    ensures DescsOk(ds + [Desc(ClassSize(|ds|), (PGSIZE - ARENA_SIZE) / ClassSize(|ds|), [])])
  {
    ClassSizes();
    ClassesGrow(|ds|);
    OneMoreDesc(ds, ClassSize(|ds|));
  }

  lemma OneMoreDesc(ds: seq<Desc>, size: nat)
    requires DescsOk(ds) && LINKS <= size <= PGSIZE - ARENA_SIZE
    requires forall k :: 0 <= k < |ds| ==> ds[k].blockSize < size
    ensures DescsOk(ds + [Desc(size, (PGSIZE - ARENA_SIZE) / size, [])])
  {
    var d := Desc(size, (PGSIZE - ARENA_SIZE) / size, []);
    assert DescOk(d);
    hide DescOk;
    forall k | 0 <= k < |ds| + 1 ensures DescOk((ds + [d])[k]) && Distinct((ds + [d])[k].freeList) {
    }
  }

  lemma {:induction false} ClassesGrow(n: nat)
    ensures forall k: nat | k < n :: ClassSize(k) < ClassSize(n)
    ensures ClassSize(n) >= 16
  {
    if n > 0 {
      ClassesGrow(n - 1);
    }
  }

  lemma NothingLive(ds: seq<Desc>, used: seq<bool>)
    requires DescsOk(ds) && forall k :: 0 <= k < |ds| ==> ds[k].freeList == []
    ensures Inv(ds, map[], used, map[], None)
  {
  }

  lemma NoDescs()
    ensures DescsOk([])
  {
  }

  class Allocator {
    var descs: seq<Desc>
    var arenas: Arenas
    const pool: Bitmap
    const mem: array<Byte>
    /** The live blocks, with the sizes asked for. */
    ghost var live: map<nat, nat>

    ghost predicate Valid()
      reads this, pool.bits
    {
      && pool.Valid() && mem.Length == pool.bitCnt * PGSIZE && mem as object != pool.bits as object
      && pool.bitCnt <= ADDRESS_PAGES
      && Inv(descs, arenas, pool.Contents(), live, None)
    }

    /** malloc_init: a descriptor for each power of two from 16 to PGSIZE / 4. */
    constructor (pool: Bitmap, mem: array<Byte>)
      requires pool.Valid() && mem.Length == pool.bitCnt * PGSIZE && mem as object != pool.bits as object
      requires pool.bitCnt <= ADDRESS_PAGES
      ensures Valid() && this.pool == pool && this.mem == mem && live == map[]
      ensures |descs| == 7 && descs[0].blockSize == 16 && descs[6].blockSize == 1024
      ensures forall k :: 0 < k < |descs| ==> descs[k].blockSize == 2 * descs[k - 1].blockSize
    {
      hide DescsOk, Inv;
      this.pool, this.mem := pool, mem;
      arenas, live := map[], map[];
      descs := [];
      new;
      NoDescs();
      var blockSize := 16;
      while blockSize < PGSIZE / 2
        invariant |descs| <= 7
        invariant blockSize == ClassSize(|descs|) && DescsOk(descs)
        invariant forall k :: 0 <= k < |descs| ==> descs[k].blockSize == ClassSize(k) && descs[k].freeList == []
        invariant arenas == map[] && live == map[]
        decreases PGSIZE - blockSize
      {
        NextClass(descs);
        descs := descs + [Desc(blockSize, (PGSIZE - ARENA_SIZE) / blockSize, [])];
        blockSize := blockSize * 2;
      }
      ClassSizes();
      NothingLive(descs, pool.Contents());
    }

    /** Writes whose values do not matter. */
    method Overwrite(at: nat, n: nat)
      requires at + n <= mem.Length
      modifies mem
      ensures forall i :: 0 <= i < mem.Length && !(at <= i < at + n) ==> mem[i] == old(mem[i])
    {
      var i := at;
      while i < at + n
        invariant at <= i <= at + n
        invariant forall j :: 0 <= j < mem.Length && !(at <= j < at + n) ==> mem[j] == old(mem[j])
      {
        mem[i] := *;
        i := i + 1;
      }
    }

    /** Changes of the links of free blocks. */
    method Relink(list: seq<nat>)
      requires forall b | b in list :: b + LINKS <= mem.Length
      modifies mem
      ensures forall i :: 0 <= i < mem.Length && (forall b | b in list :: !(b <= i < b + LINKS)) ==>
              mem[i] == old(mem[i])
    {
      var k := 0;
      while k < |list|
        invariant k <= |list|
        invariant forall i :: 0 <= i < mem.Length && (forall b | b in list :: !(b <= i < b + LINKS)) ==>
                  mem[i] == old(mem[i])
      {
        assert list[k] in list;
        Overwrite(list[k], LINKS);
        k := k + 1;
      }
    }

    // ---- malloc ----

    /** The smallest descriptor for a request. */
    method FindDesc(size: uint32) returns (k: Option<nat>)
      ensures match k
              case Some(i) => Fits(descs, i, size)
              case None => forall j :: 0 <= j < |descs| ==> descs[j].blockSize < size
    {
      var i := 0;
      while i < |descs|
        invariant i <= |descs| && forall j :: 0 <= j < i ==> descs[j].blockSize < size
      {
        if descs[i].blockSize >= size {
          return Some(i);
        }
        i := i + 1;
      }
      return None;
    }

    /** A request that no descriptor can satisfy. */
    method BigBlock(size: uint32) returns (b: Option<nat>)
      requires Valid() && size > 0
      modifies this, pool.bits, mem
      ensures Valid() && descs == old(descs)
      ensures Foreign(arenas, pool.Contents()) == old(Foreign(arenas, pool.Contents()))
      ensures b.Some? ==> old(BigChosen(pool.Contents(), size, b.value)) && BigSnug(descs, arenas, b.value, size)
      ensures match b
              case Some(x) => x !in old(live) && live == old(live)[x := Granted(size)] && Holds(descs, arenas, x, size)
              case None =>
                   live == old(live) && (BigPages(size) == 0 ||
                   Scan(old(pool.Contents()), 0, BigPages(size), false) == None)
      ensures KeepsLive(old(descs), old(arenas), old(live), old(mem[..]), descs, arenas, live, mem[..], {})
    {
      hide Inv, SameBytes, KeepsLive, Scan, FirstFit, Extent, BigPages, Granted, Holds, Foreign, BigSnug;
      ghost var used, m0, arenas0, live0 := pool.Contents(), mem[..], arenas, live;
      SameBytesSelf(descs, arenas, live, m0);
      LiveArenas(descs, arenas, used, live, None);
      var n := BigPages(size);
      if n == 0 {
        AllStillLive(descs, arenas, live, m0, descs, arenas, live, mem[..]);
        return None;
      }
      BigEnough(size);
      var p := pool.ScanAndFlip(0, n, false);
      if p == None {
        AllStillLive(descs, arenas, live, m0, descs, arenas, live, mem[..]);
        return None;
      }
      FoundFree(used, n);
      AddBig(descs, arenas, used, live, p.value, n, Granted(size));
      Overwrite(p.value * PGSIZE, ARENA_SIZE);
      PageWritesSafe(descs, arenas, used, live, p.value, n, m0, mem[..], None);
      NewPages(descs, arenas, used, live, p.value);
      BigForeign(arenas, used, p.value, n);
      b := Some(p.value * PGSIZE + ARENA_SIZE);
      arenas := arenas[p.value := Arena(None, n)];
      live := live[b.value := Granted(size)];
      BigHolds(descs, arenas, p.value, size);
      BigIsSnug(descs, arenas, p.value, size);
      AllStillLive(descs, arenas0, live0, m0, descs, arenas, live, mem[..]);
    }

    /** The new arena of a descriptor whose list is empty: its blocks, in order, become the list. */
    method NewArena(k: nat) returns (p: Option<nat>)
      requires Valid() && k < |descs| && descs[k].freeList == []
      modifies this`descs, this`arenas, pool.bits, mem
      ensures pool.Valid() && mem.Length == pool.bitCnt * PGSIZE
      ensures p == Scan(old(pool.Contents()), 0, 1, false)
      ensures Foreign(arenas, pool.Contents()) == old(Foreign(arenas, pool.Contents()))
      ensures p == None ==>
                    descs == old(descs) && arenas == old(arenas) && pool.Contents() == old(pool.Contents()) &&
                    mem[..] == old(mem[..])
      ensures p.Some? ==>
                && p.value < |old(pool.Contents())| && p.value !in old(arenas) && !old(pool.Contents())[p.value]
                && descs == WithList(old(descs), k, Blocks(old(descs)[k], p.value))
                && arenas == old(arenas)[p.value := Arena(Some(k), descs[k].blocksPerArena)]
                && Inv(descs, arenas, pool.Contents(), live, p)
                && SameBytes(old(descs), old(arenas), live, old(mem[..]), mem[..])
    {
      hide Inv, SameBytes, Scan, FirstFit, Foreign;
      ghost var ds, as_, used, m0 := descs, arenas, pool.Contents(), mem[..];
      p := pool.ScanAndFlip(0, 1, false);
      if p == None {
        return;
      }
      FoundFree(used, 1);
      assert SetRange(used, p.value, 1, true) == used[p.value := true];
      AddArena(ds, as_, used, live, k, p.value);
      AddedForeign(as_, used, p.value, k, descs[k].blocksPerArena);
      Overwrite(p.value * PGSIZE, PGSIZE);
      ghost var m1 := mem[..];
      PageWritesSafe(ds, as_, used, live, p.value, 1, m0, m1, None);
      arenas := arenas[p.value := Arena(Some(k), descs[k].blocksPerArena)];
      var i := 0;
      assert descs == WithList(ds, k, Blocks(ds[k], p.value)[..0]);
      while i < descs[k].blocksPerArena
        invariant |descs| == |ds| && i <= ds[k].blocksPerArena
        invariant descs == WithList(ds, k, Blocks(ds[k], p.value)[..i])
        modifies this`descs
      {
        var b := Block(p.value, descs[k].blockSize, i);
        descs := descs[k := descs[k].(freeList := descs[k].freeList + [b])];
        assert Blocks(ds[k], p.value)[..i + 1] == Blocks(ds[k], p.value)[..i] + [b];
        i := i + 1;
      }
      assert Blocks(ds[k], p.value)[..i] == Blocks(ds[k], p.value);
      assert mem[..] == m1;
    }

    /** The first block of the list. */
    method PopFront(k: nat, ghost size: nat, ghost full: Option<nat>) returns (b: nat)
      requires pool.Valid() && Inv(descs, arenas, pool.Contents(), live, full)
      requires k < |descs| && descs[k].freeList != [] && 0 < size <= descs[k].blockSize
      requires full.Some? ==> full.value == descs[k].freeList[0] / PGSIZE
      modifies this
      ensures b == old(descs)[k].freeList[0] && b !in old(live) && b / PGSIZE in old(arenas)
      ensures descs == WithList(old(descs), k, old(descs)[k].freeList[1..])
      ensures old(arenas)[b / PGSIZE].freeCnt > 0 && old(arenas)[b / PGSIZE].desc == Some(k)
      ensures arenas == Counted(old(arenas), b / PGSIZE, old(arenas)[b / PGSIZE].freeCnt - 1)
      ensures live == old(live)[b := size]
      ensures Inv(descs, arenas, pool.Contents(), live, None)
      ensures Foreign(arenas, pool.Contents()) == old(Foreign(arenas, pool.Contents()))
    {
      hide Inv, BlockOf, Scan, Uniform, Foreign;
      TakeBlock(descs, arenas, pool.Contents(), live, k, size, full);
      b := descs[k].freeList[0];
      descs := descs[k := descs[k].(freeList := descs[k].freeList[1..])];
      var p := b / PGSIZE;
      CountedForeign(arenas, pool.Contents(), p, arenas[p].freeCnt - 1);
      arenas := arenas[p := arenas[p].(freeCnt := arenas[p].freeCnt - 1)];
      live := live[b := size];
    }

    /** What a malloc of `size` bytes needs: nothing, a free block, a page or several. */
    ghost predicate Exhausted(size: uint32)
      requires pool.Valid()
      reads this, pool.bits
    {
      if exists k: nat :: Fits(descs, k, size) then
        exists k: nat | Fits(descs, k, size) ::
          descs[k].freeList == [] && Scan(pool.Contents(), 0, 1, false) == None
      else BigPages(size) == 0 || Scan(pool.Contents(), 0, BigPages(size), false) == None
    }

    /** malloc; None is a null pointer.  The block holds the request exactly when the request is at most
        MAX_REQUEST; any greater one gets what is left of a single page.  It is the block that the
        free list or the pool has first, no greater than it must be, and no page is lost. */
    method Malloc(size: uint32) returns (b: Option<nat>)
      requires Valid()
      modifies this, pool.bits, mem
      ensures Valid()
      ensures match b
              case Some(x) => x !in old(live) && live == old(live)[x := Granted(size)]
              case None => live == old(live) && (size == 0 || old(Exhausted(size)))
      ensures b.Some? ==> Holds(descs, arenas, b.value, size) && Snug(descs, arenas, b.value, size)
      ensures b.Some? ==> old(Chosen(descs, pool.Contents(), size, b.value))
      ensures Foreign(arenas, pool.Contents()) == old(Foreign(arenas, pool.Contents()))
      ensures KeepsLive(old(descs), old(arenas), old(live), old(mem[..]), descs, arenas, live, mem[..], {})
    {
      hide Inv, SameBytes, KeepsLive, Scan, FirstFit, Extent, BlockOf, DescsOk, Distinct, BigPages, Granted, Holds,
          Foreign, Chosen, Snug, BigSnug, BigChosen;
      ghost var ds0, arenas0, used0, live0, m0 := descs, arenas, pool.Contents(), live, mem[..];
      LiveArenas(descs, arenas, used0, live, None);
      SameBytesSelf(descs, arenas, live, m0);
      if size == 0 {
        AllStillLive(ds0, arenas0, live0, m0, descs, arenas, live, mem[..]);
        return None;
      }
      var d := FindDesc(size);
      if d == None {
        b := BigBlock(size);
        if b.Some? {
          NoneFits(ds0, descs, arenas, used0, size, b.value);
        }
        return;
      }
      var k := d.value;
      SmallRequest(ds0, k, size);
      ghost var full: Option<nat> := None;
      if descs[k].freeList == [] {
        var p := NewArena(k);
        if p == None {
          AllStillLive(ds0, arenas0, live0, m0, descs, arenas, live, mem[..]);
          return None;
        }
        FirstOfArena(ds0, k, p.value);
        ChosenNew(ds0, used0, k, size, p.value);
        full := p;
      } else {
        ChosenFree(ds0, used0, k, size);
        FreeInMemory(descs, arenas, used0, live, k, None);
        Relink(descs[k].freeList);
        LinkWritesSafe(descs, arenas, used0, live, k, m0, mem[..], None);
      }
      var x := PopFront(k, size, full);
      AllStillLive(ds0, arenas0, live0, m0, descs, arenas, live, mem[..]);
      LiveExtent(descs, arenas, pool.Contents(), live, x);
      SmallHolds(ds0, k, descs, arenas, x, size);
      SmallIsSnug(ds0, k, descs, arenas, x, size);
      b := Some(x);
    }

    // ---- free ----

    method FillRange(at: nat, n: nat, value: Byte)
      requires at + n <= mem.Length
      modifies mem
      ensures forall i :: 0 <= i < mem.Length ==> mem[i] == if at <= i < at + n then value else old(mem[i])
    {
      var i := at;
      while i < at + n
        invariant at <= i <= at + n
        invariant forall j :: 0 <= j < mem.Length ==> mem[j] == if at <= j < i then value else old(mem[j])
      {
        mem[i] := value;
        i := i + 1;
      }
    }

    /** An arena all of whose blocks are free: they leave the list one by one, and its page goes
        back to the pool. */
    method ReturnArena(k: nat, p: nat)
      requires pool.Valid() && mem.Length == pool.bitCnt * PGSIZE && mem as object != pool.bits as object
      requires pool.bitCnt <= ADDRESS_PAGES
      requires Inv(descs, arenas, pool.Contents(), live, Some(p))
      requires k < |descs| && p in arenas && arenas[p].desc == Some(k) && arenas[p].freeCnt >= descs[k].blocksPerArena
      modifies this`descs, this`arenas, pool.bits, mem
      ensures Valid()
      ensures descs == WithList(old(descs), k, Less(old(descs)[k].freeList, BlockSet(old(descs)[k], p)))
      ensures arenas == old(arenas) - {p}
      ensures Foreign(arenas, pool.Contents()) == old(Foreign(arenas, pool.Contents()))
      ensures SameBytes(old(descs), old(arenas), live, old(mem[..]), mem[..])
    {
      hide Inv, SameBytes, BlockOf, Less, BlockSet, Blocks, Extent, Foreign;
      ghost var ds, as_, used, m0 := descs, arenas, pool.Contents(), mem[..];
      DropArena(ds, as_, used, live, k, p);
      DroppedForeign(as_, used, p);
      LiveArenas(ds, as_, used, live, Some(p));
      DescAt(ds, k);
      // the assertion of the code
      assert arenas[p].freeCnt == descs[k].blocksPerArena;
      FreeInMemory(ds, as_, used, live, k, Some(p));
      Relink(descs[k].freeList);
      ghost var m1 := mem[..];
      LinkWritesSafe(ds, as_, used, live, k, m0, m1, Some(p));
      RemoveBlocks(k, p);
      ghost var used2 := used[p := false];
      FillRange(p * PGSIZE, PGSIZE, 0xcc);
      arenas := arenas - {p};
      PageWritesSafe(descs, arenas, used2, live, p, 1, m1, mem[..], None);
      LiveArenas(descs, arenas, used2, live, None);
      Rebase(ds, as_, descs, arenas, live, m1, mem[..]);
      SameBytesTransitive(ds, as_, live, m0, m1, mem[..]);
      pool.Set(p, false);
    }

    /** The loop that takes the blocks of the arena at page p off the list.  Each of them is on it. */
    method RemoveBlocks(k: nat, p: nat)
      requires k < |descs| && Distinct(descs[k].freeList) &&
               forall b | b in Blocks(descs[k], p) :: b in descs[k].freeList
      requires DescOk(descs[k])
      modifies this`descs
      ensures descs == WithList(old(descs), k, Less(old(descs)[k].freeList, BlockSet(old(descs)[k], p)))
    {
      hide Less, BlockOf, DescOk, Distinct, Blocks, Gone, BlockSet;
      ghost var ds := descs;
      ghost var gone: set<nat> := {};
      NoneGone(ds[k], p);
      var i := 0;
      while i < descs[k].blocksPerArena
        invariant |descs| == |ds| && i <= ds[k].blocksPerArena
        invariant descs == WithList(ds, k, Less(ds[k].freeList, gone)) && Gone(ds[k], p, i, gone)
      {
        var b := Block(p, descs[k].blockSize, i);
        // the block is on the list
        NextGone(ds[k], p, i, gone);
        var rest := ListRemove(descs[k].freeList, b);
        descs := descs[k := descs[k].(freeList := rest)];
        gone := gone + {b};
        i := i + 1;
      }
      AllGone(ds[k], p, gone);
    }

    /** list_remove */
    method ListRemove(list: seq<nat>, b: nat) returns (r: seq<nat>)
      requires Distinct(list) && b in list
      ensures r == Less(list, {b})
    {
      var i := 0;
      while list[i] != b
        invariant i < |list| && b !in list[..i]
        decreases |list| - i
      {
        i := i + 1;
        assert list[..i] == list[..i - 1] + [list[i - 1]];
        assert list[..|list|] == list;
      }
      RemoveOne(list, i);
      r := list[..i] + list[i + 1..];
    }

    /** free of a block of a descriptor. */
    method FreeBlock(b: nat)
      requires Valid() && b in live && b / PGSIZE in arenas && arenas[b / PGSIZE].desc.Some?
      modifies this, pool.bits, mem
      ensures Valid() && live == old(live) - {b}
      ensures Foreign(arenas, pool.Contents()) == old(Foreign(arenas, pool.Contents()))
      ensures KeepsLive(old(descs), old(arenas), old(live), old(mem[..]), descs, arenas, live, mem[..], {b})
    {
      hide Inv, SameBytes, KeepsLive, Scan, Extent, BlockOf, DescsOk, Distinct, SameShape, Less, BlockSet, Blocks,
          Foreign;
      ghost var ds0, arenas0, used0, live0, m0 := descs, arenas, pool.Contents(), live, mem[..];
      var p := b / PGSIZE;
      var k := arenas[p].desc.value;
      PutBlock(ds0, arenas0, used0, live0, k, b);
      LiveArenas(ds0, arenas0, used0, live0, None);
      FreedInMemory(ds0, arenas0, used0, live0, k, b);
      // The block is cleared, and its links and those of its neighbours change.
      FillRange(b, descs[k].blockSize, 0xcc);
      Relink([b] + descs[k].freeList);
      FreedWritesSafe(ds0, arenas0, used0, live0, k, b, m0, mem[..]);
      CountedForeign(arenas, used0, p, arenas[p].freeCnt + 1);
      descs := descs[k := descs[k].(freeList := [b] + descs[k].freeList)];
      arenas := arenas[p := arenas[p].(freeCnt := arenas[p].freeCnt + 1)];
      live := live - {b};
      ghost var ds1, arenas1, m1 := descs, arenas, mem[..];
      LiveArenas(ds1, arenas1, used0, live, Some(p));
      OnlyCounts(ds0, arenas0, k, p, [b] + ds0[k].freeList);
      if arenas[p].freeCnt >= descs[k].blocksPerArena {
        ReturnArena(k, p);
        LiveArenas(descs, arenas, pool.Contents(), live, None);
        Rebase(ds0, arenas0, ds1, arenas1, live, m1, mem[..]);
        SameBytesTransitive(ds0, arenas0, live, m0, m1, mem[..]);
        Dropped(ds0, arenas0, ds1, arenas1, k, p);
      } else {
        NotFull(ds1, arenas1, used0, live, k, p);
      }
      StillLive(ds0, arenas0, live0, m0, descs, arenas, live, mem[..], {b});
    }

    /** free of a big block: its pages go back, cleared. */
    method FreeBigBlock(b: nat)
      requires Valid() && b in live && b / PGSIZE in arenas && arenas[b / PGSIZE].desc == None
      modifies this, pool.bits, mem
      ensures Valid() && live == old(live) - {b}
      ensures Foreign(arenas, pool.Contents()) == old(Foreign(arenas, pool.Contents()))
      ensures KeepsLive(old(descs), old(arenas), old(live), old(mem[..]), descs, arenas, live, mem[..], {b})
    {
      hide Inv, SameBytes, KeepsLive, Scan, Extent, BlockOf, DescsOk, Distinct, SameShape, Foreign;
      ghost var arenas0, used0, live0, m0 := arenas, pool.Contents(), live, mem[..];
      var p := b / PGSIZE;
      var n := arenas[p].freeCnt;
      BigCount(descs, arenas, used0, live, b);
      FreeBig(descs, arenas, used0, live, b);
      FreedForeign(arenas, used0, p);
      ghost var used1 := WithPages(used0, p, n, false);
      FillRange(p * PGSIZE, n * PGSIZE, 0xcc);
      arenas := arenas - {p};
      live := live - {b};
      LiveArenas(descs, arenas0, used0, live0, None);
      LiveArenas(descs, arenas, used1, live, None);
      PageWritesSafe(descs, arenas, used1, live, p, n, m0, mem[..], None);
      FewerArenas(descs, arenas0, p);
      Rebase(descs, arenas0, descs, arenas, live, m0, mem[..]);
      StillLive(descs, arenas0, live0, m0, descs, arenas, live, mem[..], {b});
      assert WithPages(used0, p, n, false) == SetRange(used0, p, n, false);
      pool.SetMultiple(p, n, false);
    }

    /** free; a null pointer is ignored. */
    method Free(b: Option<nat>)
      requires Valid() && (b.Some? ==> b.value in live)
      modifies this, pool.bits, mem
      ensures Valid()
      ensures live == (if b == None then old(live) else old(live) - {b.value})
      ensures Foreign(arenas, pool.Contents()) == old(Foreign(arenas, pool.Contents()))
      ensures KeepsLive(old(descs), old(arenas), old(live), old(mem[..]), descs, arenas, live, mem[..],
                        if b == None then {} else {b.value})
    {
      hide Inv, KeepsLive, Extent, Foreign;
      if b == None {
        NothingChanged(descs, arenas, live, mem[..]);
        return;
      }
      LiveArena(descs, arenas, pool.Contents(), live, b.value, None);
      if arenas[b.value / PGSIZE].desc.Some? {
        FreeBlock(b.value);
      } else {
        FreeBigBlock(b.value);
      }
    }

    // ---- realloc ----

    /** block_size; in an address space of 32 bits it does not wrap around. */
    method BlockSize(b: nat) returns (n: nat)
      requires Valid() && b in live
      ensures n == Extent(descs, arenas, b) >= live[b] && b + n <= mem.Length
    {
      LiveArena(descs, arenas, pool.Contents(), live, b, None);
      LiveExtent(descs, arenas, pool.Contents(), live, b);
      BigCount(descs, arenas, pool.Contents(), live, b);
      ExtentIs(descs, arenas, b);
      hide *;
      var a := arenas[b / PGSIZE];
      if a.desc.Some? {
        n := descs[a.desc.value].blockSize;
      } else {
        NoWrapAround(a.freeCnt, b % PGSIZE);
        n := BigSize(a.freeCnt, b % PGSIZE);
      }
    }

    /** memcpy between different live blocks. */
    method Copy(dst: nat, src: nat, n: nat)
      requires dst + n <= mem.Length && src + n <= mem.Length && Apart(dst, n, src, n)
      modifies mem
      ensures forall i :: 0 <= i < mem.Length ==>
              mem[i] == if dst <= i < dst + n then old(mem[src + (i - dst)]) else old(mem[i])
    {
      var i := 0;
      while i < n
        invariant i <= n
        invariant forall j :: 0 <= j < mem.Length ==>
                  mem[j] == if dst <= j < dst + i then old(mem[src + (j - dst)]) else old(mem[j])
      {
        mem[dst + i] := mem[src + i];
        i := i + 1;
      }
    }

    /** realloc: on success the new block starts with the bytes of the old one, up to the shorter
        of the two; on failure the old block is as it was.  `overrun` says that the code would copy more
        bytes than the new block holds, into whatever lies behind it: that is so exactly for a request
        above MAX_REQUEST and an old block of more than a page.  The model stops before such a copy. */
    method Realloc(oldBlock: Option<nat>, newSize: uint32) returns (b: Option<nat>, overrun: bool)
      requires Valid() && (oldBlock.Some? ==> oldBlock.value in live)
      modifies this, pool.bits, mem
      ensures Valid() && (newSize == 0 ==> b == None)
      ensures Foreign(arenas, pool.Contents()) == old(Foreign(arenas, pool.Contents()))
      ensures newSize == 0 ==> live == (if oldBlock == None then old(live) else old(live) - {oldBlock.value})
      ensures newSize > 0 && b == None ==> live == old(live)
      ensures b.Some? ==> b.value !in old(live) && Holds(descs, arenas, b.value, newSize)
      ensures overrun <==> b.Some? && oldBlock.Some? && newSize > MAX_REQUEST
                           && old(Extent(descs, arenas, oldBlock.value)) > PGSIZE - ARENA_SIZE
      ensures b.Some? && !overrun ==>
                live == (if oldBlock == None then old(live)
                    else old(live) - {oldBlock.value})[b.value := Granted(newSize)]
      ensures overrun ==> live == old(live)[b.value := Granted(newSize)]
      ensures b.Some? && oldBlock.Some? && !overrun ==>
                Moved(oldBlock.value, b.value, newSize, old(Extent(descs, arenas, oldBlock.value)), old(mem[..]),
                    mem[..])
      ensures KeepsLive(old(descs), old(arenas), old(live), old(mem[..]), descs, arenas, live, mem[..],
                        if oldBlock.Some? && (newSize == 0 || b.Some?) && !overrun then {oldBlock.value} else {})
    {
      hide Inv, KeepsLive, Extent, Exhausted, Moved, Granted, Foreign, Chosen, Snug;
      overrun := false;
      if newSize == 0 {
        Free(oldBlock);
        return None, false;
      }
      ghost var ds0, arenas0, live0, m0 := descs, arenas, live, mem[..];
      b := Malloc(newSize);
      if oldBlock.Some? && b.Some? {
        KeptBlock(ds0, arenas0, live0, m0, descs, arenas, live, mem[..], {}, oldBlock.value);
        var oldSize := BlockSize(oldBlock.value);
        if newSize > MAX_REQUEST && oldSize > PGSIZE - ARENA_SIZE {
          overrun := true;
        } else {
          MoveTo(oldBlock.value, b.value, oldSize, newSize, ds0, arenas0, live0, m0);
        }
      }
    }

    /** The bytes of the old block, up to the shorter of the two, at the start of the new one. */
    ghost predicate Moved(o: nat, x: nat, newSize: nat, oldSize: nat, m0: seq<Byte>, m: seq<Byte>) {
      var n := if newSize < oldSize then newSize else oldSize;
      x + n <= |m| && o + n <= |m0| && m[x..x + n] == m0[o..o + n]
    }

    /** memcpy to the new block, and free of the old one. */
    method MoveTo(o: nat, x: nat, oldSize: nat, newSize: uint32,
                  ghost ds0: seq<Desc>, ghost arenas0: Arenas, ghost live0: map<nat, nat>, ghost m0: seq<Byte>)
      requires Valid() && o in live0 && x !in live0 && live == live0[x := Granted(newSize)] && |m0| == mem.Length
      requires KeepsLive(ds0, arenas0, live0, m0, descs, arenas, live, mem[..], {})
      requires oldSize == Extent(descs, arenas, o)
      requires newSize <= Extent(descs, arenas, x) || oldSize <= Extent(descs, arenas, x)
      modifies this, pool.bits, mem
      ensures Valid() && live == (live0 - {o})[x := Granted(newSize)]
      ensures Extent(descs, arenas, x) == old(Extent(descs, arenas, x))
      ensures Foreign(arenas, pool.Contents()) == old(Foreign(arenas, pool.Contents()))
      ensures KeepsLive(ds0, arenas0, live0, m0, descs, arenas, live, mem[..], {o})
      ensures Moved(o, x, newSize, Extent(ds0, arenas0, o), m0, mem[..])
    {
      hide Inv, KeepsLive, Extent, Moved, Granted, Foreign;
      ghost var ds1, arenas1, live1, m1 := descs, arenas, live, mem[..];
      KeptBlock(ds0, arenas0, live0, m0, ds1, arenas1, live1, m1, {}, o);
      var minSize := if newSize < oldSize then newSize else oldSize;
      LiveExtent(ds1, arenas1, pool.Contents(), live1, x);
      LiveExtent(ds1, arenas1, pool.Contents(), live1, o);
      CopyApart(ds1, arenas1, pool.Contents(), live1, o, x, minSize);
      Copy(x, o, minSize);
      ghost var m2 := mem[..];
      IsMoved(o, x, newSize, oldSize, m0, m1, m2);
      CopiedKeeps(ds0, arenas0, live0, m0, ds1, arenas1, pool.Contents(), live1, m1, m2, x, minSize);
      ghost var size := Extent(ds1, arenas1, x);
      Free(Some(o));
      KeptBlock(ds1, arenas1, live1, m2, descs, arenas, live, mem[..], {o}, x);
      StillMoved(o, x, newSize, oldSize, m0, m2, mem[..], size);
      KeepsTwice(ds0, arenas0, live0, m0, ds1, arenas1, live1, m2, descs, arenas, live, mem[..], {o});
    }

    lemma IsMoved(o: nat, x: nat, newSize: nat, oldSize: nat, m0: seq<Byte>, m1: seq<Byte>, m2: seq<Byte>)
      requires var n := if newSize < oldSize then newSize else oldSize;
               && |m0| == |m1| == |m2| && x + n <= |m2| && o + oldSize <= |m1|
               && forall i :: 0 <= i < |m2| ==> m2[i] == if x <= i < x + n then m1[o + (i - x)] else m1[i]
      requires forall i | o <= i < o + oldSize :: m1[i] == m0[i]
      ensures Moved(o, x, newSize, oldSize, m0, m2)
    {
    }

    lemma StillMoved(o: nat, x: nat, newSize: nat, oldSize: nat, m0: seq<Byte>, m: seq<Byte>, m': seq<Byte>, size: nat)
      requires Moved(o, x, newSize, oldSize, m0, m) && |m'| == |m| && (newSize <= size || oldSize <= size)
      requires forall i | x <= i < x + size && i < |m'| :: m'[i] == m[i]
      ensures Moved(o, x, newSize, oldSize, m0, m')
    {
      var n := if newSize < oldSize then newSize else oldSize;
      assert m'[x..x + n] == m[x..x + n];
    }
  }

  /** What block_size computes for a big block of n pages that starts ofs bytes into the first. */
  function BigSize(n: nat, ofs: nat): nat {
    Arithmetic.U32(Arithmetic.U32(PGSIZE * n) - ofs)
  }

  lemma NoWrapAround(n: nat, ofs: nat)
    requires 0 < n <= ADDRESS_PAGES && 0 < ofs < PGSIZE
    ensures BigSize(n, ofs) == PGSIZE * n - ofs
  {
    if n == ADDRESS_PAGES {
      assert PGSIZE * n == 0x1_0000_0000;
    }
  }

  lemma ExtentIs(ds: seq<Desc>, arenas: Arenas, b: nat)
    requires b / PGSIZE in arenas
    ensures match arenas[b / PGSIZE]
            case Arena(Some(k), _) => k < |ds| ==> Extent(ds, arenas, b) == ds[k].blockSize
            case Arena(None, n) => n > 0 ==> Extent(ds, arenas, b) == PGSIZE * n - b % PGSIZE
  {
  }

  /** A block has room for the request just when the request is at most MAX_REQUEST; for a greater one
      it has what is left of a page. */
  ghost predicate Holds(ds: seq<Desc>, arenas: Arenas, b: nat, size: uint32) {
    && (size <= Extent(ds, arenas, b) <==> size <= MAX_REQUEST)
    && (size > MAX_REQUEST ==> Extent(ds, arenas, b) == PGSIZE - ARENA_SIZE)
  }

  lemma BigHolds(ds: seq<Desc>, arenas: Arenas, p: nat, size: uint32)
    requires p in arenas && arenas[p] == Arena(None, BigPages(size)) && BigPages(size) > 0
    ensures Holds(ds, arenas, p * PGSIZE + ARENA_SIZE, size)
  {
    BigPagesIs(size);
    BigEnough(size);
    hide BigPages;
    assert (p * PGSIZE + ARENA_SIZE) / PGSIZE == p && (p * PGSIZE + ARENA_SIZE) % PGSIZE == ARENA_SIZE;
  }

  lemma SmallRequest(ds: seq<Desc>, k: nat, size: uint32)
    requires DescsOk(ds) && k < |ds| && size <= ds[k].blockSize
    ensures size <= PGSIZE && Granted(size) == size
  {
    assert DescOk(ds[k]);
  }

  lemma SmallHolds(ds0: seq<Desc>, k: nat, ds: seq<Desc>, arenas: Arenas, b: nat, size: uint32)
    requires DescsOk(ds0) && k < |ds0| && size <= ds0[k].blockSize && size <= Extent(ds, arenas, b)
    ensures Holds(ds, arenas, b, size) && Granted(size) == size
  {
    SmallRequest(ds0, k, size);
    hide Extent, DescsOk;
  }

  lemma BigIsSnug(ds: seq<Desc>, arenas: Arenas, p: nat, size: uint32)
    requires p in arenas && arenas[p] == Arena(None, BigPages(size)) && BigPages(size) > 0
    ensures BigSnug(ds, arenas, p * PGSIZE + ARENA_SIZE, size)
  {
    BigPagesIs(size);
    hide BigPages;
    assert (p * PGSIZE + ARENA_SIZE) / PGSIZE == p && (p * PGSIZE + ARENA_SIZE) % PGSIZE == ARENA_SIZE;
  }

  lemma NoneFits(ds0: seq<Desc>, ds: seq<Desc>, arenas: Arenas, used: seq<bool>, size: uint32, b: nat)
    requires forall j :: 0 <= j < |ds| ==> ds[j].blockSize < size
    requires ds == ds0 && BigSnug(ds, arenas, b, size) && BigChosen(used, size, b)
    ensures Snug(ds, arenas, b, size) && Chosen(ds0, used, size, b)
  {
    hide BigSnug, BigChosen;
  }

  lemma ChosenFree(ds: seq<Desc>, used: seq<bool>, k: nat, size: uint32)
    requires Fits(ds, k, size) && ds[k].freeList != []
    ensures Chosen(ds, used, size, ds[k].freeList[0])
  {
    hide BigChosen;
  }

  lemma ChosenNew(ds: seq<Desc>, used: seq<bool>, k: nat, size: uint32, p: nat)
    requires DescsOk(ds) && Fits(ds, k, size) && ds[k].freeList == [] && Scan(used, 0, 1, false) == Some(p)
    ensures Blocks(ds[k], p) != [] && Chosen(ds, used, size, Blocks(ds[k], p)[0])
  {
    DescAt(ds, k);
    BlockAddress(ds[k], p, 0);
    hide BigChosen, DescsOk;
  }

  lemma SmallIsSnug(ds0: seq<Desc>, k: nat, ds: seq<Desc>, arenas: Arenas, b: nat, size: uint32)
    requires Fits(ds0, k, size) && |ds| == |ds0| && forall j :: 0 <= j < |ds| ==> ds[j].blockSize == ds0[j].blockSize
    requires b / PGSIZE in arenas && arenas[b / PGSIZE].desc == Some(k)
    ensures Snug(ds, arenas, b, size)
  {
    assert Fits(ds, k, size);
    hide BigSnug;
  }

  /** The first i blocks of an arena. */
  ghost predicate Gone(d: Desc, p: nat, i: nat, gone: set<nat>) {
    i <= d.blocksPerArena && forall b :: b in gone <==> b in Blocks(d, p)[..i]
  }

  lemma NoneGone(d: Desc, p: nat)
    ensures Gone(d, p, 0, {}) && Less(d.freeList, {}) == d.freeList
  {
    LessNothing(d.freeList);
  }

  lemma NextGone(d: Desc, p: nat, i: nat, gone: set<nat>)
    requires DescOk(d) && Distinct(d.freeList) && Gone(d, p, i, gone) && i < d.blocksPerArena
    requires forall b | b in Blocks(d, p) :: b in d.freeList
    ensures var b := Block(p, d.blockSize, i);
            && Gone(d, p, i + 1, gone + {b}) && b in Less(d.freeList, gone) && Distinct(Less(d.freeList, gone))
            && Less(Less(d.freeList, gone), {b}) == Less(d.freeList, gone + {b})
  {
    var b, bs := Block(p, d.blockSize, i), Blocks(d, p);
    BlocksMembers(d, p);
    assert bs[i] == b && b in bs && b !in bs[..i];
    assert bs[..i + 1] == bs[..i] + [b];
    hide Blocks;
    LessMore(d.freeList, gone, b);
    LessDistinct(d.freeList, gone);
  }

  lemma AllGone(d: Desc, p: nat, gone: set<nat>)
    requires Gone(d, p, d.blocksPerArena, gone)
    ensures gone == BlockSet(d, p)
  {
    assert Blocks(d, p)[..d.blocksPerArena] == Blocks(d, p);
  }

  lemma {:induction false} RemoveOne(list: seq<nat>, i: nat)
    requires Distinct(list) && i < |list|
    ensures Less(list, {list[i]}) == list[..i] + list[i + 1..]
  {
    var b := list[i];
    if i == 0 {
      LessAbsent(list[1..], b);
      assert list[..0] + list[1..] == list[1..];
    } else {
      RemoveOne(list[1..], i - 1);
      assert list[..i] + list[i + 1..] == [list[0]] + (list[1..][..i - 1] + list[1..][i..]);
    }
  }

  lemma {:induction false} LessAbsent(list: seq<nat>, b: nat)
    requires b !in list
    ensures Less(list, {b}) == list
  {
    if list != [] {
      LessAbsent(list[1..], b);
    }
  }

  lemma NothingChanged<T(!new)>(ds: seq<Desc>, arenas: Arenas, live: map<nat, nat>, m: seq<T>)
    ensures KeepsLive(ds, arenas, live, m, ds, arenas, live, m, {})
  {
    hide Extent;
  }

  lemma FewerArenas(ds: seq<Desc>, arenas: Arenas, p: nat)
    ensures SameShape(ds, arenas, ds, arenas - {p})
  {
  }

  lemma OnlyCounts(ds: seq<Desc>, arenas: Arenas, k: nat, p: nat, list: seq<nat>)
    requires k < |ds| && p in arenas && arenas[p].desc == Some(k)
    ensures forall n: nat :: SameShape(ds, arenas, WithList(ds, k, list), Counted(arenas, p, n))
  {
  }

  lemma Dropped(ds0: seq<Desc>, arenas0: Arenas, ds1: seq<Desc>, arenas1: Arenas, k: nat, p: nat)
    requires SameShape(ds0, arenas0, ds1, arenas1) && k < |ds1| && arenas1.Keys == arenas0.Keys
    ensures forall list :: SameShape(ds0, arenas0, WithList(ds1, k, list), arenas1 - {p})
    ensures forall list :: SameShape(ds1, arenas1, WithList(ds1, k, list), arenas1 - {p})
  {
  }

  lemma FreedInMemory(ds: seq<Desc>, arenas: Arenas, used: seq<bool>, live: map<nat, nat>, k: nat, b: nat)
    requires Inv(ds, arenas, used, live, None) && b in live && b / PGSIZE in arenas &&
             arenas[b / PGSIZE].desc == Some(k)
    ensures k < |ds| && b + ds[k].blockSize <= |used| * PGSIZE && LINKS <= ds[k].blockSize
    ensures forall c | c in [b] + ds[k].freeList :: c + LINKS <= |used| * PGSIZE
  {
    LiveArena(ds, arenas, used, live, b, None);
    LiveArenas(ds, arenas, used, live, None);
    DescAt(ds, k);
    LiveExtent(ds, arenas, used, live, b);
    FreeInMemory(ds, arenas, used, live, k, None);
  }

  /** Clearing a live block and changing links do not reach the other live blocks. */
  lemma FreedWritesSafe<T(!new)>(ds: seq<Desc>, arenas: Arenas, used: seq<bool>, live: map<nat, nat>, k: nat, b: nat,
                                 m0: seq<T>, m: seq<T>)
    requires Inv(ds, arenas, used, live, None) && b in live && b / PGSIZE in arenas &&
             arenas[b / PGSIZE].desc == Some(k)
    requires k < |ds| && |m| == |m0|
    requires forall i :: 0 <= i < |m| && !(b <= i < b + ds[k].blockSize) &&
                         (forall f | f in [b] + ds[k].freeList :: !(f <= i < f + LINKS)) ==>
                  m[i] == m0[i]
    ensures SameBytes(ds, arenas, live - {b}, m0, m)
  {
    LiveArenas(ds, arenas, used, live, None);
    DescAt(ds, k);
    hide Inv, Extent, DescsOk, Distinct;
    forall c, i | c in live - {b} && c <= i < c + Extent(ds, arenas, c) && i < |m| ensures m[i] == m0[i] {
      FreedApart(ds, arenas, used, live, k, b, c);
      forall f | f in [b] + ds[k].freeList ensures !(f <= i < f + LINKS) {
        assert f == b || f in ds[k].freeList;
      }
    }
  }

  lemma FreedApart(ds: seq<Desc>, arenas: Arenas, used: seq<bool>, live: map<nat, nat>, k: nat, b: nat, c: nat)
    requires Inv(ds, arenas, used, live, None) && b in live && b / PGSIZE in arenas &&
             arenas[b / PGSIZE].desc == Some(k)
    requires k < |ds| && c in live && c != b
    ensures Apart(c, Extent(ds, arenas, c), b, ds[k].blockSize)
    ensures forall f | f in ds[k].freeList :: Apart(c, Extent(ds, arenas, c), f, ds[k].blockSize)
  {
    assert Extent(ds, arenas, b) == ds[k].blockSize;
    hide Inv, Extent;
    if c < b {
      LiveApart(ds, arenas, used, live, c, b);
    } else {
      LiveApart(ds, arenas, used, live, b, c);
    }
    forall f | f in ds[k].freeList ensures Apart(c, Extent(ds, arenas, c), f, ds[k].blockSize) {
      LiveOffFree(ds, arenas, used, live, c, k, f, None);
    }
  }

  lemma LiveArenas(ds: seq<Desc>, arenas: Arenas, used: seq<bool>, live: map<nat, nat>, full: Option<nat>)
    requires Inv(ds, arenas, used, live, full)
    ensures DescsOk(ds) && forall c | c in live :: c / PGSIZE in arenas
  {
    forall c | c in live ensures c / PGSIZE in arenas {
      LiveArena(ds, arenas, used, live, c, full);
    }
  }

  lemma FirstOfArena(ds: seq<Desc>, k: nat, p: nat)
    requires DescsOk(ds) && k < |ds|
    ensures Blocks(ds[k], p) != [] && Blocks(ds[k], p)[0] / PGSIZE == p
  {
    DescAt(ds, k);
    BlockAddress(ds[k], p, 0);
  }

  lemma SameBytesSelf<T(!new)>(ds: seq<Desc>, arenas: Arenas, live: map<nat, nat>, m: seq<T>)
    ensures SameBytes(ds, arenas, live, m, m)
  {
  }

  lemma FoundFree(used: seq<bool>, n: nat)
    ensures match Scan(used, 0, n, false)
            case None => true
            case Some(p) =>
              && p + n <= |used| && (forall q :: p <= q < p + n ==> !used[q])
              && SetRange(used, p, n, true) == WithPages(used, p, n, true)
  {
  }

  /** A page that was not allocated is in no arena, and no live block starts there. */
  lemma NewPages(ds: seq<Desc>, arenas: Arenas, used: seq<bool>, live: map<nat, nat>, p: nat)
    requires Inv(ds, arenas, used, live, None) && p < |used| && !used[p]
    ensures p !in arenas && forall c | c in live :: c / PGSIZE in arenas && c / PGSIZE != p
  {
    assert p in arenas ==> ArenaOk(ds, arenas, used, p, None);
    forall c | c in live ensures c / PGSIZE in arenas {
      LiveArena(ds, arenas, used, live, c, None);
    }
  }

  lemma BigCount(ds: seq<Desc>, arenas: Arenas, used: seq<bool>, live: map<nat, nat>, b: nat)
    requires Inv(ds, arenas, used, live, None) && b in live
    ensures b / PGSIZE in arenas
    ensures arenas[b / PGSIZE].desc == None ==> 0 < arenas[b / PGSIZE].freeCnt <= |used| && b % PGSIZE == ARENA_SIZE
  {
    LiveArena(ds, arenas, used, live, b, None);
    assert ArenaOk(ds, arenas, used, b / PGSIZE, None);
  }

  lemma KeptBlock<T(!new)>(ds0: seq<Desc>, arenas0: Arenas, live0: map<nat, nat>, m0: seq<T>,
                           ds: seq<Desc>, arenas: Arenas, live: map<nat, nat>, m: seq<T>, except: set<nat>, c: nat)
    requires KeepsLive(ds0, arenas0, live0, m0, ds, arenas, live, m, except) && c in live0 && c !in except
    ensures c in live && Extent(ds, arenas, c) == Extent(ds0, arenas0, c) && |m| == |m0|
    ensures forall i | c <= i < c + Extent(ds0, arenas0, c) && i < |m| :: m[i] == m0[i]
  {
    hide Extent;
  }

  lemma CopyApart(ds: seq<Desc>, arenas: Arenas, used: seq<bool>, live: map<nat, nat>, o: nat, x: nat, n: nat)
    requires Inv(ds, arenas, used, live, None) && o in live && x in live && o != x
    requires n <= Extent(ds, arenas, o) && n <= Extent(ds, arenas, x)
    ensures Apart(x, n, o, n)
  {
    hide Inv, Extent;
    if o < x {
      LiveApart(ds, arenas, used, live, o, x);
    } else {
      LiveApart(ds, arenas, used, live, x, o);
    }
  }

  /** Copying into a new block leaves what was live before alone. */
  lemma CopiedKeeps<T(!new)>(ds0: seq<Desc>, arenas0: Arenas, live0: map<nat, nat>, m0: seq<T>,
                             ds: seq<Desc>, arenas: Arenas, used: seq<bool>, live: map<nat, nat>, m1: seq<T>,
                                 m: seq<T>, x: nat, n: nat)
    requires KeepsLive(ds0, arenas0, live0, m0, ds, arenas, live, m1, {}) && Inv(ds, arenas, used, live, None)
    requires x in live && x !in live0 && n <= Extent(ds, arenas, x) && |m| == |m1|
    requires forall i :: 0 <= i < |m| && !(x <= i < x + n) ==> m[i] == m1[i]
    ensures KeepsLive(ds0, arenas0, live0, m0, ds, arenas, live, m, {})
  {
    hide Inv, Extent;
    forall c, i | c in live0 && c <= i < c + Extent(ds0, arenas0, c) && i < |m| ensures m[i] == m0[i] {
      assert c in live && Extent(ds, arenas, c) == Extent(ds0, arenas0, c);
      if c < x {
        LiveApart(ds, arenas, used, live, c, x);
      } else {
        LiveApart(ds, arenas, used, live, x, c);
      }
    }
  }

  lemma KeepsTwice<T(!new)>(ds0: seq<Desc>, arenas0: Arenas, live0: map<nat, nat>, m0: seq<T>,
                            ds1: seq<Desc>, arenas1: Arenas, live1: map<nat, nat>, m1: seq<T>,
                            ds: seq<Desc>, arenas: Arenas, live: map<nat, nat>, m: seq<T>, except: set<nat>)
    requires KeepsLive(ds0, arenas0, live0, m0, ds1, arenas1, live1, m1, {})
    requires KeepsLive(ds1, arenas1, live1, m1, ds, arenas, live, m, except)
    ensures KeepsLive(ds0, arenas0, live0, m0, ds, arenas, live, m, except)
  {
    hide Extent;
  }
}
