/**
 The data structure of pintos/src/threads/malloc.c: descriptors with free lists, and arenas.  An
 address counts bytes from the base of the kernel pool; its page is its quotient by PGSIZE.
 */
module Heap {
  import opened BitTricks
  import opened Sequences
  import opened Wrappers

  const PGSIZE := 4096
  const ARENA_SIZE := 12          // sizeof (struct arena)
  const LINKS := 8                // sizeof (struct block)

  datatype Desc = Desc(blockSize: nat, blocksPerArena: nat, freeList: seq<nat>)

  /** `desc` is None for a big block, and then `freeCnt` counts its pages. */
  datatype Arena = Arena(desc: Option<nat>, freeCnt: nat)

  type Arenas = map<nat, Arena>

  // ---- blocks ----

  ghost predicate DescOk(d: Desc) {
    && LINKS <= d.blockSize && d.blocksPerArena == (PGSIZE - ARENA_SIZE) / d.blockSize && d.blocksPerArena > 0
  }

  /** arena_to_block */
  function Block(page: nat, bs: nat, i: nat): nat {
    page * PGSIZE + ARENA_SIZE + i * bs
  }

  /** The assertions of block_to_arena for a normal arena, and that the index is within it. */
  predicate BlockOf(bs: nat, cnt: nat, b: nat) {
    && bs > 0 && b % PGSIZE >= ARENA_SIZE && (b % PGSIZE - ARENA_SIZE) % bs == 0
    && Index(bs, b) < cnt
  }

  function Index(bs: nat, b: nat): nat
    requires bs > 0 && b % PGSIZE >= ARENA_SIZE
  {
    (b % PGSIZE - ARENA_SIZE) / bs
  }

  lemma DivMul(i: nat, m: nat)
    requires m > 0
    ensures i * m / m == i && i * m % m == 0
  {
    ModUnique(i * m, m, i, 0);
    DivIs(i * m, m, i);
  }

  lemma DivIs(x: nat, m: nat, q: nat)
    requires m > 0 && x == q * m
    ensures x / m == q
  {
    var q' := x / m;
    assert x == m * q' + x % m;
    if q < q' {
      MulStep(m, q, q');
    } else if q' < q {
      MulStep(m, q', q);
    }
  }

  /** The blocks of an arena fit in its page, after the header. */
  lemma BlockFits(d: Desc, i: nat)
    requires DescOk(d) && i < d.blocksPerArena
    ensures ARENA_SIZE + i * d.blockSize + d.blockSize <= PGSIZE
  {
    var n, m := d.blocksPerArena, d.blockSize;
    assert PGSIZE - ARENA_SIZE == m * n + (PGSIZE - ARENA_SIZE) % m;
    MulStep(m, i, n);
    assert m * i == i * m;
  }

  lemma BlockAddress(d: Desc, page: nat, i: nat)
    requires DescOk(d) && i < d.blocksPerArena
    ensures var b := Block(page, d.blockSize, i);
            && b / PGSIZE == page && b % PGSIZE == ARENA_SIZE + i * d.blockSize
            && b % PGSIZE + d.blockSize <= PGSIZE
            && BlockOf(d.blockSize, d.blocksPerArena, b) && Index(d.blockSize, b) == i
  {
    BlockFits(d, i);
    DivMul(i, d.blockSize);
    var k := i * d.blockSize;
    assert Block(page, d.blockSize, i) == page * PGSIZE + (ARENA_SIZE + k);
  }

  lemma BlockIs(d: Desc, b: nat)
    requires DescOk(d) && BlockOf(d.blockSize, d.blocksPerArena, b)
    ensures b == Block(b / PGSIZE, d.blockSize, Index(d.blockSize, b))
    ensures b % PGSIZE + d.blockSize <= PGSIZE
  {
    var ofs, m := b % PGSIZE - ARENA_SIZE, d.blockSize;
    assert ofs == m * (ofs / m) + ofs % m;
    assert m * (ofs / m) == (ofs / m) * m;
    BlockFits(d, Index(d.blockSize, b));
  }

  /** Two blocks of one arena do not overlap. */
  lemma BlocksApart(d: Desc, b: nat, c: nat)
    requires DescOk(d) && BlockOf(d.blockSize, d.blocksPerArena, b) && BlockOf(d.blockSize, d.blocksPerArena, c) &&
             b / PGSIZE == c / PGSIZE && b < c
    ensures b + d.blockSize <= c
  {
    BlockIs(d, b);
    BlockIs(d, c);
    var i, j, m := Index(d.blockSize, b), Index(d.blockSize, c), d.blockSize;
    if i < j {
      MulStep(m, i, j);
      assert m * i == i * m && m * j == j * m;
    } else if j < i {
      MulStep(m, j, i);
    }
  }

  // ---- the invariant ----

  /** The places in the arena at `page` whose blocks are on the free list. */
  ghost function FreePlaces(d: Desc, page: nat): set<nat> {
    set i | 0 <= i < d.blocksPerArena && Block(page, d.blockSize, i) in d.freeList
  }

  ghost predicate DescsOk(ds: seq<Desc>) {
    && (forall k | 0 <= k < |ds| :: DescOk(ds[k]) && Distinct(ds[k].freeList))
    && (forall j, k | 0 <= j < k < |ds| :: ds[j].blockSize < ds[k].blockSize)
  }

  /** The free blocks of descriptor k lie in arenas of that descriptor. */
  ghost predicate ListOk(d: Desc, k: nat, arenas: Arenas) {
    forall b: nat | b in d.freeList ::
      b / PGSIZE in arenas && arenas[b / PGSIZE].desc == Some(k) && BlockOf(d.blockSize, d.blocksPerArena, b)
  }

  ghost predicate FreeBlocksOk(ds: seq<Desc>, arenas: Arenas) {
    forall k | 0 <= k < |ds| :: ListOk(ds[k], k, arenas)
  }

  /** The count of an arena is that of its free blocks; only the arena `full`, in the middle of an
      operation, may have nothing but free blocks. */
  ghost predicate ArenaOk(ds: seq<Desc>, arenas: Arenas, used: seq<bool>, p: nat, full: Option<nat>)
    requires p in arenas
  {
    var a := arenas[p];
    p < |used| && used[p] &&
    match a.desc
    case Some(k) =>
      && k < |ds| && a.freeCnt == |FreePlaces(ds[k], p)| <= ds[k].blocksPerArena
      && (full != Some(p) ==> a.freeCnt < ds[k].blocksPerArena)
    case None => a.freeCnt > 0 && p + a.freeCnt <= |used| &&
                 forall q :: p < q < p + a.freeCnt ==> used[q] && q !in arenas
  }

  /** A live block is a block of an arena that is not free, or has pages of its own. */
  ghost predicate LiveOk(ds: seq<Desc>, arenas: Arenas, b: nat, size: nat) {
    size > 0 && b / PGSIZE in arenas &&
    match arenas[b / PGSIZE].desc
    case Some(k) => k < |ds| && BlockOf(ds[k].blockSize, ds[k].blocksPerArena, b) && b !in ds[k].freeList &&
       size <= ds[k].blockSize
    case None => b % PGSIZE == ARENA_SIZE && ARENA_SIZE + size <= arenas[b / PGSIZE].freeCnt * PGSIZE
  }

  /** Every block of every arena is free or live. */
  ghost predicate Accounted(ds: seq<Desc>, arenas: Arenas, live: map<nat, nat>, p: nat)
    requires p in arenas
  {
    match arenas[p].desc
    case Some(k) => k < |ds| && forall i {:trigger Block(p, ds[k].blockSize, i)} | 0 <= i < ds[k].blocksPerArena ::
                      Block(p, ds[k].blockSize, i) in ds[k].freeList || Block(p, ds[k].blockSize, i) in live
    case None => p * PGSIZE + ARENA_SIZE in live
  }

  ghost predicate Inv(ds: seq<Desc>, arenas: Arenas, used: seq<bool>, live: map<nat, nat>, full: Option<nat>) {
    && DescsOk(ds) && FreeBlocksOk(ds, arenas)
    && (forall p | p in arenas :: ArenaOk(ds, arenas, used, p, full))
    && (forall b | b in live :: LiveOk(ds, arenas, b, live[b]))
    && (forall p | p in arenas :: Accounted(ds, arenas, live, p))
  }

  /** block_size: what a live block may hold. */
  ghost function Extent(ds: seq<Desc>, arenas: Arenas, b: nat): nat {
    if b / PGSIZE in arenas then
      match arenas[b / PGSIZE].desc
      case Some(k) => if k < |ds| then ds[k].blockSize else 0
      case None => if arenas[b / PGSIZE].freeCnt > 0 then PGSIZE * arenas[b / PGSIZE].freeCnt - b % PGSIZE else 0
    else 0
  }

  /** A live block holds at least what was granted, and lies within memory. */
  lemma LiveExtent(ds: seq<Desc>, arenas: Arenas, used: seq<bool>, live: map<nat, nat>, b: nat)
    requires Inv(ds, arenas, used, live, None) && b in live
    ensures live[b] <= Extent(ds, arenas, b) && b + Extent(ds, arenas, b) <= |used| * PGSIZE
  {
    assert LiveOk(ds, arenas, b, live[b]) && ArenaOk(ds, arenas, used, b / PGSIZE, None);
    match arenas[b / PGSIZE].desc
    case Some(k) => BlockIs(ds[k], b);
    case None =>
  }

  /** A live block ends with its page, or the last of its pages. */
  lemma LiveEnd(ds: seq<Desc>, arenas: Arenas, used: seq<bool>, live: map<nat, nat>, b: nat)
    requires Inv(ds, arenas, used, live, None) && b in live
    ensures b / PGSIZE in arenas
    ensures match arenas[b / PGSIZE].desc
            case Some(k) => b + Extent(ds, arenas, b) <= (b / PGSIZE + 1) * PGSIZE
            case None =>
                 b % PGSIZE == ARENA_SIZE &&
                 b + Extent(ds, arenas, b) == (b / PGSIZE + arenas[b / PGSIZE].freeCnt) * PGSIZE
  {
    assert LiveOk(ds, arenas, b, live[b]) && ArenaOk(ds, arenas, used, b / PGSIZE, None);
    hide Inv, ArenaOk, FreePlaces;
    if arenas[b / PGSIZE].desc.Some? {
      var d := ds[arenas[b / PGSIZE].desc.value];
      LiveDesc(ds, arenas, used, live, b);
      hide DescOk, BlockOf;
      BlockIs(d, b);
    }
  }

  lemma LiveDesc(ds: seq<Desc>, arenas: Arenas, used: seq<bool>, live: map<nat, nat>, b: nat)
    requires Inv(ds, arenas, used, live, None) && b in live && b / PGSIZE in arenas && arenas[b / PGSIZE].desc.Some?
    ensures var k := arenas[b / PGSIZE].desc.value;
            k < |ds| && DescOk(ds[k]) && BlockOf(ds[k].blockSize, ds[k].blocksPerArena, b)
  {
    assert LiveOk(ds, arenas, b, live[b]);
    hide BlockOf, DescOk, ArenaOk, Accounted;
  }

  /** No page of a big block but the first is that of another block. */
  lemma LaterPage(ds: seq<Desc>, arenas: Arenas, used: seq<bool>, live: map<nat, nat>, b: nat, c: nat)
    requires Inv(ds, arenas, used, live, None) && b in live && c in live && b / PGSIZE < c / PGSIZE
    ensures b / PGSIZE in arenas
    ensures arenas[b / PGSIZE].desc == None ==> b / PGSIZE + arenas[b / PGSIZE].freeCnt <= c / PGSIZE
  {
    assert LiveOk(ds, arenas, b, live[b]) && LiveOk(ds, arenas, c, live[c]);
    assert ArenaOk(ds, arenas, used, b / PGSIZE, None);
    hide Inv, FreePlaces, BlockOf;
  }

  /** Live blocks never overlap. */
  lemma LiveApart(ds: seq<Desc>, arenas: Arenas, used: seq<bool>, live: map<nat, nat>, b: nat, c: nat)
    requires Inv(ds, arenas, used, live, None) && b in live && c in live && b < c
    ensures b + Extent(ds, arenas, b) <= c
  {
    hide *;
    LiveEnd(ds, arenas, used, live, b);
    LiveEnd(ds, arenas, used, live, c);
    var p, q := b / PGSIZE, c / PGSIZE;
    if p == q {
      if arenas[p].desc.Some? {
        LiveDesc(ds, arenas, used, live, b);
        LiveDesc(ds, arenas, used, live, c);
        BlocksApart(ds[arenas[p].desc.value], b, c);
        NormalExtent(ds, arenas, b);
      } else {
        SamePlace(b, c);
      }
    } else {
      PagesInOrder(b, c);
      LaterPage(ds, arenas, used, live, b, c);
    }
  }

  lemma NormalExtent(ds: seq<Desc>, arenas: Arenas, b: nat)
    requires b / PGSIZE in arenas && arenas[b / PGSIZE].desc.Some? && arenas[b / PGSIZE].desc.value < |ds|
    ensures Extent(ds, arenas, b) == ds[arenas[b / PGSIZE].desc.value].blockSize
  {
  }

  lemma SamePlace(b: nat, c: nat)
    requires b / PGSIZE == c / PGSIZE && b % PGSIZE == c % PGSIZE
    ensures b == c
  {
  }

  lemma PagesInOrder(b: nat, c: nat)
    requires b < c && b / PGSIZE != c / PGSIZE
    ensures b / PGSIZE < c / PGSIZE && c / PGSIZE * PGSIZE <= c
    ensures forall n: nat :: n <= c / PGSIZE ==> n * PGSIZE <= c
  {
  }

  // ---- operations on the data structure ----

  /** Descriptor k with another free list. */
  function WithList(ds: seq<Desc>, k: nat, list: seq<nat>): (r: seq<Desc>)
    requires k < |ds|
    ensures |r| == |ds|
  {
    ds[k := ds[k].(freeList := list)]
  }

  lemma WithListOk(ds: seq<Desc>, k: nat, list: seq<nat>)
    requires DescsOk(ds) && k < |ds| && Distinct(list)
    ensures DescsOk(WithList(ds, k, list))
  {
  }

  /** The arenas of other descriptors, and those whose blocks neither join nor leave the list,
      keep their free places. */
  lemma SamePlaces(d: Desc, list: seq<nat>, page: nat)
    requires forall i {:trigger Block(page, d.blockSize, i)} | 0 <= i < d.blocksPerArena ::
               Block(page, d.blockSize, i) in list <==> Block(page, d.blockSize, i) in d.freeList
    ensures FreePlaces(d.(freeList := list), page) == FreePlaces(d, page)
  {
  }

  /** All the blocks of an arena, in order. */
  function Blocks(d: Desc, page: nat): (s: seq<nat>)
    ensures |s| == d.blocksPerArena
  {
    seq(d.blocksPerArena, i requires 0 <= i < d.blocksPerArena => Block(page, d.blockSize, i))
  }

  lemma BlocksMembers(d: Desc, page: nat)
    requires DescOk(d)
    ensures Distinct(Blocks(d, page))
    ensures forall b | b in Blocks(d, page) :: b / PGSIZE == page && BlockOf(d.blockSize, d.blocksPerArena, b)
    ensures forall i | 0 <= i < d.blocksPerArena :: Block(page, d.blockSize, i) in Blocks(d, page)
    ensures forall q, i | q != page && 0 <= i < d.blocksPerArena :: Block(q, d.blockSize, i) !in Blocks(d, page)
  {
    var s := Blocks(d, page);
    forall i | 0 <= i < |s| ensures s[i] / PGSIZE == page && BlockOf(d.blockSize, d.blocksPerArena, s[i]) &&
        Index(d.blockSize, s[i]) == i {
      BlockAddress(d, page, i);
    }
    forall i | 0 <= i < |s| ensures Block(page, d.blockSize, i) in s {
      assert s[i] == Block(page, d.blockSize, i);
    }
    forall q, i | q != page && 0 <= i < d.blocksPerArena ensures Block(q, d.blockSize, i) !in s {
      BlockAddress(d, q, i);
    }
  }

  function Below(n: nat): (s: set<nat>)
    ensures |s| == n && forall i: nat :: i in s <==> i < n
  {
    if n == 0 then {} else Below(n - 1) + {n - 1}
  }

  lemma {:induction false} SubsetSize(a: set<nat>, b: set<nat>)
    requires a <= b
    ensures |a| <= |b|
    ensures |a| == |b| ==> a == b
  {
    assert b == a + (b - a);
    assert |b| == |a| + |b - a|;
  }

  /** An arena none of whose blocks is in use has all its blocks on the free list. */
  lemma AllFree(d: Desc, page: nat)
    requires |FreePlaces(d, page)| == d.blocksPerArena
    ensures forall i {:trigger Block(page, d.blockSize, i)} | 0 <= i < d.blocksPerArena ::
              Block(page, d.blockSize, i) in d.freeList
  {
    SubsetSize(FreePlaces(d, page), Below(d.blocksPerArena));
    forall i {:trigger Block(page, d.blockSize, i)} | 0 <= i < d.blocksPerArena
      ensures Block(page, d.blockSize, i) in d.freeList
    {
      assert i in Below(d.blocksPerArena);
    }
  }

  /** A new arena, all of whose blocks go on the empty free list. */
  lemma AddArena(ds: seq<Desc>, arenas: Arenas, used: seq<bool>, live: map<nat, nat>, k: nat, p: nat)
    requires Inv(ds, arenas, used, live, None) && k < |ds| && ds[k].freeList == [] && p < |used| && !used[p]
    ensures p !in arenas
    ensures Inv(WithList(ds, k, Blocks(ds[k], p)), arenas[p := Arena(Some(k), ds[k].blocksPerArena)],
                used[p := true], live, Some(p))
  {
    assert p in arenas ==> ArenaOk(ds, arenas, used, p, None);
    var ds', arenas', used' := WithList(ds, k, Blocks(ds[k], p)), arenas[p := Arena(Some(k), ds[k].blocksPerArena)],
        used[p := true];
    DescAt(ds, k);
    BlocksMembers(ds[k], p);
    WithListOk(ds, k, Blocks(ds[k], p));
    hide Blocks, BlockOf, Block, Index, DescsOk, DescOk, Distinct, FreeBlocksOk, ListOk, ArenaOk, Accounted, LiveOk,
        WithList;
    AddedFree(ds, arenas, k, p);
    forall b | b in live ensures LiveOk(ds', arenas', b, live[b]) {
      AddedLive(ds, arenas, k, p, b, live[b]);
    }
    forall q | q in arenas' ensures ArenaOk(ds', arenas', used', q, Some(p)) && Accounted(ds', arenas', live, q) {
      if q == p {
        AddedArena(ds, arenas, used, live, k, p);
      } else {
        OtherArena(ds, arenas, used, live, k, p, q);
      }
    }
  }

  lemma AddedLive(ds: seq<Desc>, arenas: Arenas, k: nat, p: nat, b: nat, size: nat)
    requires DescsOk(ds) && k < |ds| && p !in arenas && LiveOk(ds, arenas, b, size)
    ensures LiveOk(WithList(ds, k, Blocks(ds[k], p)), arenas[p := Arena(Some(k), ds[k].blocksPerArena)], b, size)
  {
    DescAt(ds, k);
    BlocksMembers(ds[k], p);
  }

  lemma DescAt(ds: seq<Desc>, k: nat)
    requires DescsOk(ds) && k < |ds|
    ensures DescOk(ds[k]) && Distinct(ds[k].freeList)
  {
  }

  lemma AddedFree(ds: seq<Desc>, arenas: Arenas, k: nat, p: nat)
    requires DescsOk(ds) && FreeBlocksOk(ds, arenas) && k < |ds| && p !in arenas
    ensures FreeBlocksOk(WithList(ds, k, Blocks(ds[k], p)), arenas[p := Arena(Some(k), ds[k].blocksPerArena)])
  {
    var ds', arenas' := WithList(ds, k, Blocks(ds[k], p)), arenas[p := Arena(Some(k), ds[k].blocksPerArena)];
    DescAt(ds, k);
    BlocksMembers(ds[k], p);
    hide Blocks, BlockOf, Block, DescsOk;
    forall j | 0 <= j < |ds'| ensures ListOk(ds'[j], j, arenas') {
      if j != k {
        assert ListOk(ds[j], j, arenas);
      }
    }
  }

  lemma AddedArena(ds: seq<Desc>, arenas: Arenas, used: seq<bool>, live: map<nat, nat>, k: nat, p: nat)
    requires DescsOk(ds) && k < |ds| && p < |used|
    ensures var ds', arenas' := WithList(ds, k, Blocks(ds[k], p)), arenas[p := Arena(Some(k), ds[k].blocksPerArena)];
            ArenaOk(ds', arenas', used[p := true], p, Some(p)) && Accounted(ds', arenas', live, p)
  {
    BlocksMembers(ds[k], p);
    assert FreePlaces(WithList(ds, k, Blocks(ds[k], p))[k], p) == Below(ds[k].blocksPerArena);
  }

  lemma OtherArena(ds: seq<Desc>, arenas: Arenas, used: seq<bool>, live: map<nat, nat>, k: nat, p: nat, q: nat)
    requires DescsOk(ds) && k < |ds| && ds[k].freeList == [] && p < |used| && !used[p]
    requires q in arenas && q != p && ArenaOk(ds, arenas, used, q, None) && Accounted(ds, arenas, live, q)
    ensures var ds', arenas' := WithList(ds, k, Blocks(ds[k], p)), arenas[p := Arena(Some(k), ds[k].blocksPerArena)];
            ArenaOk(ds', arenas', used[p := true], q, Some(p)) && Accounted(ds', arenas', live, q)
  {
    BlocksMembers(ds[k], p);
    if arenas[q].desc == Some(k) {
      SamePlaces(ds[k], Blocks(ds[k], p), q);
    }
  }

  // ---- taking a block ----

  function Counted(arenas: Arenas, p: nat, freeCnt: nat): Arenas
    requires p in arenas
  {
    arenas[p := arenas[p].(freeCnt := freeCnt)]
  }

  lemma Relisted(ds: seq<Desc>, arenas: Arenas, k: nat, list: seq<nat>, p: nat, n: nat)
    requires k < |ds| && FreeBlocksOk(ds, arenas) && p in arenas
    requires ListOk(ds[k].(freeList := list), k, arenas)
    ensures FreeBlocksOk(WithList(ds, k, list), Counted(arenas, p, n))
  {
    hide BlockOf;
    var ds', arenas' := WithList(ds, k, list), Counted(arenas, p, n);
    forall j | 0 <= j < |ds'| ensures ListOk(ds'[j], j, arenas') {
      assert j != k ==> ListOk(ds[j], j, arenas);
    }
  }

  lemma OtherLive(ds: seq<Desc>, arenas: Arenas, k: nat, list: seq<nat>, p: nat, n: nat, c: nat, size: nat)
    requires k < |ds| && p in arenas && arenas[p].desc == Some(k) && LiveOk(ds, arenas, c, size)
    requires c in list ==> c in ds[k].freeList
    ensures LiveOk(WithList(ds, k, list), Counted(arenas, p, n), c, size)
  {
    hide BlockOf;
  }

  /** An arena whose blocks the change of list does not touch. */
  lemma OtherCounts(ds: seq<Desc>, arenas: Arenas, used: seq<bool>, live: map<nat, nat>, k: nat, list: seq<nat>,
                    p: nat, n: nat, q: nat, live': map<nat, nat>, b: nat, full: Option<nat>, full': Option<nat>)
    requires k < |ds| && p in arenas && arenas[p].desc == Some(k) && b / PGSIZE == p
    requires q in arenas && q != p && ArenaOk(ds, arenas, used, q, full) && Accounted(ds, arenas, live, q)
    requires full != Some(q)
    requires forall c | c != b :: c in list <==> c in ds[k].freeList
    requires forall c | c != b && c in live :: c in live'
    requires forall i {:trigger Block(q, ds[k].blockSize, i)} | 0 <= i < ds[k].blocksPerArena ::
             Block(q, ds[k].blockSize, i) != b
    requires forall j, i | 0 <= j < |ds| && arenas[q].desc == Some(j) &&
             0 <= i < ds[j].blocksPerArena :: Block(q, ds[j].blockSize, i) != b
    ensures ArenaOk(WithList(ds, k, list), Counted(arenas, p, n), used, q, full')
    ensures Accounted(WithList(ds, k, list), Counted(arenas, p, n), live', q)
  {
    BigBlockElsewhere(arenas, q, b, k);
    hide Block;
    if arenas[q].desc == Some(k) {
      SamePlaces(ds[k], list, q);
    }
  }

  lemma BigBlockElsewhere(arenas: Arenas, q: nat, b: nat, k: nat)
    requires b / PGSIZE in arenas && arenas[b / PGSIZE].desc == Some(k) && q in arenas
    ensures arenas[q].desc == None ==> q * PGSIZE + ARENA_SIZE != b
  {
    assert (q * PGSIZE + ARENA_SIZE) / PGSIZE == q;
  }

  lemma BlocksElsewhere(d: Desc, q: nat, b: nat)
    requires DescOk(d) && q != b / PGSIZE
    ensures forall i {:trigger Block(q, d.blockSize, i)} | 0 <= i < d.blocksPerArena :: Block(q, d.blockSize, i) != b
  {
    forall i {:trigger Block(q, d.blockSize, i)} | 0 <= i < d.blocksPerArena ensures Block(q, d.blockSize, i) != b {
      BlockAddress(d, q, i);
    }
  }

  lemma TakenArena(ds: seq<Desc>, arenas: Arenas, used: seq<bool>, live: map<nat, nat>, k: nat, size: nat,
                   full: Option<nat>)
    requires DescsOk(ds) && k < |ds| && ds[k].freeList != [] && ListOk(ds[k], k, arenas)
    requires var p := ds[k].freeList[0] / PGSIZE;
             p in arenas && ArenaOk(ds, arenas, used, p, full) && Accounted(ds, arenas, live, p) &&
                 arenas[p].desc == Some(k)
    ensures var b := ds[k].freeList[0];
            var p, list := b / PGSIZE, ds[k].freeList[1..];
            && arenas[p].freeCnt > 0
            && ArenaOk(WithList(ds, k, list), Counted(arenas, p, arenas[p].freeCnt - 1), used, p, None)
            && Accounted(WithList(ds, k, list), Counted(arenas, p, arenas[p].freeCnt - 1), live[b := size], p)
  {
    var b, list := ds[k].freeList[0], ds[k].freeList;
    DescAt(ds, k);
    assert b in list && list == [b] + list[1..] && b !in list[1..];
    TakenPlaces(ds[k], b);
  }

  /** The first free block of a descriptor goes to a caller. */
  lemma TakeBlock(ds: seq<Desc>, arenas: Arenas, used: seq<bool>, live: map<nat, nat>, k: nat, size: nat,
                  full: Option<nat>)
    requires Inv(ds, arenas, used, live, full) && k < |ds| && ds[k].freeList != [] && 0 < size <= ds[k].blockSize
    requires full.Some? ==> full.value == ds[k].freeList[0] / PGSIZE
    ensures var b := ds[k].freeList[0];
            var p := b / PGSIZE;
            && p in arenas && arenas[p].desc == Some(k) && arenas[p].freeCnt > 0 && b !in live
            && BlockOf(ds[k].blockSize, ds[k].blocksPerArena, b)
            && Inv(WithList(ds, k, ds[k].freeList[1..]), Counted(arenas, p, arenas[p].freeCnt - 1), used,
               live[b := size], None)
  {
    hide ArenaOk, Accounted, LiveOk, FreeBlocksOk, DescsOk, DescOk, ListOk, WithList, BlockOf, Block, Distinct;
    var b, list := ds[k].freeList[0], ds[k].freeList[1..];
    var p := b / PGSIZE;
    FrontBlock(ds, arenas, used, live, k, full);
    TakenArena(ds, arenas, used, live, k, size, full);
    WithListOk(ds, k, list);
    var n := arenas[p].freeCnt - 1;
    var ds', arenas', live' := WithList(ds, k, list), Counted(arenas, p, n), live[b := size];
    Relisted(ds, arenas, k, list, p, n);
    NowLive(ds, arenas, k, list, n, b, size);
    forall c | c in live ensures c != b && LiveOk(ds', arenas', c, live[c]) {
      OtherLive(ds, arenas, k, list, p, n, c, live[c]);
    }
    forall q | q in arenas && q != p ensures ArenaOk(ds', arenas', used, q, None) && Accounted(ds', arenas', live', q) {
      UntouchedArena(ds, arenas, used, live, k, list, n, q, live', b, full, None);
    }
  }

  lemma FrontBlock(ds: seq<Desc>, arenas: Arenas, used: seq<bool>, live: map<nat, nat>, k: nat, full: Option<nat>)
    requires Inv(ds, arenas, used, live, full) && k < |ds| && ds[k].freeList != []
    ensures var b, list := ds[k].freeList[0], ds[k].freeList[1..];
            && b / PGSIZE in arenas && arenas[b / PGSIZE].desc == Some(k) && b !in live
            && BlockOf(ds[k].blockSize, ds[k].blocksPerArena, b) && b !in list && Distinct(list)
            && ListOk(ds[k], k, arenas) && ListOk(ds[k].(freeList := list), k, arenas)
            && (forall c | c != b :: c in list <==> c in ds[k].freeList)
  {
    var b, list := ds[k].freeList[0], ds[k].freeList[1..];
    DescAt(ds, k);
    assert ListOk(ds[k], k, arenas);
    assert b in live ==> LiveOk(ds, arenas, b, live[b]);
    hide BlockOf, Inv, FreeBlocksOk, ArenaOk, Accounted, DescsOk;
    FrontMembers(ds[k].freeList);
  }

  lemma FrontMembers(list: seq<nat>)
    requires list != [] && Distinct(list)
    ensures list[0] in list && list[0] !in list[1..] && Distinct(list[1..])
    ensures forall c | c != list[0] :: c in list[1..] <==> c in list
  {
    assert list == [list[0]] + list[1..];
  }

  lemma NowLive(ds: seq<Desc>, arenas: Arenas, k: nat, list: seq<nat>, n: nat, b: nat, size: nat)
    requires k < |ds| && b / PGSIZE in arenas && arenas[b / PGSIZE].desc == Some(k) && b !in list
    requires BlockOf(ds[k].blockSize, ds[k].blocksPerArena, b) && 0 < size <= ds[k].blockSize
    ensures LiveOk(WithList(ds, k, list), Counted(arenas, b / PGSIZE, n), b, size)
  {
    hide BlockOf;
  }

  lemma UntouchedArena(ds: seq<Desc>, arenas: Arenas, used: seq<bool>, live: map<nat, nat>, k: nat, list: seq<nat>,
                       n: nat, q: nat, live': map<nat, nat>, b: nat, full: Option<nat>, full': Option<nat>)
    requires DescsOk(ds) && k < |ds| && b / PGSIZE in arenas && arenas[b / PGSIZE].desc == Some(k)
    requires q in arenas && q != b / PGSIZE && ArenaOk(ds, arenas, used, q, full) && Accounted(ds, arenas, live, q)
    requires full != Some(q)
    requires forall c | c != b :: c in list <==> c in ds[k].freeList
    requires forall c | c != b && c in live :: c in live'
    ensures ArenaOk(WithList(ds, k, list), Counted(arenas, b / PGSIZE, n), used, q, full')
    ensures Accounted(WithList(ds, k, list), Counted(arenas, b / PGSIZE, n), live', q)
  {
    DescAt(ds, k);
    BlocksElsewhere(ds[k], q, b);
    match arenas[q].desc
    case Some(j) =>
      DescAt(ds, j);
      BlocksElsewhere(ds[j], q, b);
      hide ArenaOk, Accounted, Block;
      OtherCounts(ds, arenas, used, live, k, list, b / PGSIZE, n, q, live', b, full, full');
    case None =>
      BigBlockElsewhere(arenas, q, b, k);
  }

  /** What one block does to the free places. */
  lemma TakenPlaces(d: Desc, b: nat)
    requires DescOk(d) && BlockOf(d.blockSize, d.blocksPerArena, b) && d.freeList != [] && d.freeList[0] == b
    requires b !in d.freeList[1..]
    ensures |FreePlaces(d.(freeList := d.freeList[1..]), b / PGSIZE)| == |FreePlaces(d, b / PGSIZE)| - 1
    ensures forall q, i {:trigger Block(q, d.blockSize, i)} | q != b / PGSIZE &&
            0 <= i < d.blocksPerArena :: Block(q, d.blockSize, i) != b
  {
    var p, rest := b / PGSIZE, d.freeList[1..];
    assert d.freeList == [b] + rest;
    BlockIs(d, b);
    var at := Index(d.blockSize, b);
    forall i | 0 <= i < d.blocksPerArena && i != at ensures Block(p, d.blockSize, i) != b {
      BlockAddress(d, p, i);
    }
    assert FreePlaces(d, p) == FreePlaces(d.(freeList := rest), p) + {at};
    assert at !in FreePlaces(d.(freeList := rest), p);
    forall q, i {:trigger Block(q, d.blockSize, i)} | q != p &&
        0 <= i < d.blocksPerArena ensures Block(q, d.blockSize, i) != b {
      BlockAddress(d, q, i);
    }
  }

  // ---- giving a block back ----

  lemma PutArena(ds: seq<Desc>, arenas: Arenas, used: seq<bool>, live: map<nat, nat>, k: nat, b: nat)
    requires DescsOk(ds) && k < |ds| && BlockOf(ds[k].blockSize, ds[k].blocksPerArena, b) && b !in ds[k].freeList
    requires var p := b / PGSIZE;
             p in arenas && ArenaOk(ds, arenas, used, p, None) && Accounted(ds, arenas, live, p) &&
                 arenas[p].desc == Some(k)
    ensures var p, list := b / PGSIZE, [b] + ds[k].freeList;
            && ArenaOk(WithList(ds, k, list), Counted(arenas, p, arenas[p].freeCnt + 1), used, p, Some(p))
            && Accounted(WithList(ds, k, list), Counted(arenas, p, arenas[p].freeCnt + 1), live - {b}, p)
  {
    var list := [b] + ds[k].freeList;
    DescAt(ds, k);
    assert list[1..] == ds[k].freeList;
    TakenPlaces(ds[k].(freeList := list), b);
    assert ds[k].(freeList := list).(freeList := list[1..]) == ds[k];
    PlacesBound(ds[k].(freeList := list), b / PGSIZE);
  }

  lemma PlacesBound(d: Desc, page: nat)
    ensures |FreePlaces(d, page)| <= d.blocksPerArena
  {
    SubsetSize(FreePlaces(d, page), Below(d.blocksPerArena));
  }

  /** A live block goes back to the front of its descriptor's list. */
  lemma PutBlock(ds: seq<Desc>, arenas: Arenas, used: seq<bool>, live: map<nat, nat>, k: nat, b: nat)
    requires Inv(ds, arenas, used, live, None) && b in live && b / PGSIZE in arenas &&
             arenas[b / PGSIZE].desc == Some(k)
    ensures var p := b / PGSIZE;
            && k < |ds| && BlockOf(ds[k].blockSize, ds[k].blocksPerArena, b) && b !in ds[k].freeList
            && arenas[p].freeCnt < ds[k].blocksPerArena
            && Inv(WithList(ds, k, [b] + ds[k].freeList), Counted(arenas, p, arenas[p].freeCnt + 1), used, live - {b},
               Some(p))
  {
    hide ArenaOk, Accounted, LiveOk, FreeBlocksOk, DescsOk, DescOk, ListOk, WithList, BlockOf, Block, Distinct;
    LiveBlock(ds, arenas, used, live, k, b);
    var p, list := b / PGSIZE, [b] + ds[k].freeList;
    PutArena(ds, arenas, used, live, k, b);
    WithListOk(ds, k, list);
    var n := arenas[p].freeCnt + 1;
    var ds', arenas', live' := WithList(ds, k, list), Counted(arenas, p, n), live - {b};
    Relisted(ds, arenas, k, list, p, n);
    forall c | c in live' ensures LiveOk(ds', arenas', c, live'[c]) {
      OtherLive(ds, arenas, k, list, p, n, c, live[c]);
    }
    forall q | q in arenas && q != p ensures ArenaOk(ds', arenas', used, q, Some(p)) &&
        Accounted(ds', arenas', live', q) {
      UntouchedArena(ds, arenas, used, live, k, list, n, q, live', b, None, Some(p));
    }
  }

  lemma LiveBlock(ds: seq<Desc>, arenas: Arenas, used: seq<bool>, live: map<nat, nat>, k: nat, b: nat)
    requires Inv(ds, arenas, used, live, None) && b in live && b / PGSIZE in arenas &&
             arenas[b / PGSIZE].desc == Some(k)
    ensures k < |ds| && BlockOf(ds[k].blockSize, ds[k].blocksPerArena, b) && b !in ds[k].freeList
    ensures arenas[b / PGSIZE].freeCnt < ds[k].blocksPerArena
    ensures Distinct([b] + ds[k].freeList) && ListOk(ds[k].(freeList := [b] + ds[k].freeList), k, arenas)
    ensures forall c | c != b :: c in [b] + ds[k].freeList <==> c in ds[k].freeList
  {
    assert LiveOk(ds, arenas, b, live[b]) && ArenaOk(ds, arenas, used, b / PGSIZE, None);
    DescAt(ds, k);
    assert ListOk(ds[k], k, arenas);
    hide BlockOf;
  }

  // ---- dropping an arena ----

  /** The list without the blocks in `gone`. */
  function Less(list: seq<nat>, gone: set<nat>): (r: seq<nat>)
    ensures forall b :: b in r <==> b in list && b !in gone
  {
    if list == [] then []
    else if list[0] in gone then Less(list[1..], gone)
    else [list[0]] + Less(list[1..], gone)
  }

  lemma {:induction false} LessDistinct(list: seq<nat>, gone: set<nat>)
    requires Distinct(list)
    ensures Distinct(Less(list, gone))
  {
    if list != [] {
      LessDistinct(list[1..], gone);
    }
  }

  lemma {:induction false} LessMore(list: seq<nat>, gone: set<nat>, b: nat)
    ensures Less(Less(list, gone), {b}) == Less(list, gone + {b})
  {
    if list != [] {
      LessMore(list[1..], gone, b);
      if list[0] !in gone {
        var r := Less(list[1..], gone);
        assert ([list[0]] + r)[0] == list[0] && ([list[0]] + r)[1..] == r;
      }
    }
  }

  lemma {:induction false} LessNothing(list: seq<nat>)
    ensures Less(list, {}) == list
  {
    if list != [] {
      LessNothing(list[1..]);
    }
  }

  /** The blocks of an arena. */
  ghost function BlockSet(d: Desc, page: nat): set<nat> {
    set b | b in Blocks(d, page)
  }

  lemma DroppedLists(ds: seq<Desc>, arenas: Arenas, k: nat, p: nat)
    requires DescsOk(ds) && FreeBlocksOk(ds, arenas) && k < |ds| && p in arenas && arenas[p].desc == Some(k)
    ensures FreeBlocksOk(WithList(ds, k, Less(ds[k].freeList, BlockSet(ds[k], p))), arenas - {p})
  {
    var list := Less(ds[k].freeList, BlockSet(ds[k], p));
    var ds' := WithList(ds, k, list);
    DescAt(ds, k);
    BlocksMembers(ds[k], p);
    forall b | b in list ensures b / PGSIZE != p {
      assert ListOk(ds[k], k, arenas) && b in ds[k].freeList;
      BlockIs(ds[k], b);
      assert b in BlockSet(ds[k], b / PGSIZE) <==> b in Blocks(ds[k], b / PGSIZE);
      BlocksMembers(ds[k], b / PGSIZE);
    }
    hide BlockOf, Blocks, Block, BlockSet, Less, DescsOk;
    forall j | 0 <= j < |ds'| ensures ListOk(ds'[j], j, arenas - {p}) {
      assert ListOk(ds[j], j, arenas);
    }
  }

  /** A live block is not in an arena all of whose blocks are free. */
  lemma NoneLive(ds: seq<Desc>, arenas: Arenas, k: nat, p: nat, c: nat, size: nat)
    requires DescsOk(ds) && k < |ds| && p in arenas && arenas[p].desc == Some(k)
    requires |FreePlaces(ds[k], p)| == ds[k].blocksPerArena && LiveOk(ds, arenas, c, size)
    ensures c / PGSIZE != p
    ensures LiveOk(WithList(ds, k, Less(ds[k].freeList, BlockSet(ds[k], p))), arenas - {p}, c, size)
  {
    AllFree(ds[k], p);
    DescAt(ds, k);
    if c / PGSIZE == p {
      BlockIs(ds[k], c);
    }
    hide BlockOf, Block, BlockSet, Less;
  }

  lemma DroppedOthers(ds: seq<Desc>, arenas: Arenas, used: seq<bool>, live: map<nat, nat>, k: nat, p: nat, q: nat)
    requires DescsOk(ds) && k < |ds| && p in arenas && arenas[p].desc == Some(k) && p < |used|
    requires q in arenas && q != p && ArenaOk(ds, arenas, used, q, Some(p)) && Accounted(ds, arenas, live, q)
    ensures ArenaOk(WithList(ds, k, Less(ds[k].freeList, BlockSet(ds[k], p))), arenas - {p}, used[p := false], q, None)
    ensures Accounted(WithList(ds, k, Less(ds[k].freeList, BlockSet(ds[k], p))), arenas - {p}, live, q)
  {
    DescAt(ds, k);
    BlocksMembers(ds[k], p);
    var list := Less(ds[k].freeList, BlockSet(ds[k], p));
    assert forall i {:trigger Block(q, ds[k].blockSize, i)} | 0 <= i < ds[k].blocksPerArena ::
        Block(q, ds[k].blockSize, i) !in BlockSet(ds[k], p);
    hide BlockSet, Less, Block;
    if arenas[q].desc == Some(k) {
      SamePlaces(ds[k], list, q);
    }
  }

  /** The blocks of an entirely unused arena leave the list, and its page goes back. */
  lemma DropArena(ds: seq<Desc>, arenas: Arenas, used: seq<bool>, live: map<nat, nat>, k: nat, p: nat)
    requires Inv(ds, arenas, used, live, Some(p)) && k < |ds| && p in arenas && arenas[p].desc == Some(k)
    requires arenas[p].freeCnt >= ds[k].blocksPerArena
    ensures p < |used| && used[p] && arenas[p].freeCnt == ds[k].blocksPerArena
    ensures forall b | b in Blocks(ds[k], p) :: b in ds[k].freeList
    ensures Inv(WithList(ds, k, Less(ds[k].freeList, BlockSet(ds[k], p))), arenas - {p}, used[p := false], live, None)
  {
    var list := Less(ds[k].freeList, BlockSet(ds[k], p));
    assert ArenaOk(ds, arenas, used, p, Some(p));
    DescAt(ds, k);
    AllFree(ds[k], p);
    LessDistinct(ds[k].freeList, BlockSet(ds[k], p));
    WithListOk(ds, k, list);
    hide ArenaOk, Accounted, LiveOk, FreeBlocksOk, DescsOk, DescOk, ListOk, WithList, BlockOf, Block, Distinct,
        BlockSet, Less;
    DroppedLists(ds, arenas, k, p);
    forall c | c in live ensures LiveOk(WithList(ds, k, list), arenas - {p}, c, live[c]) {
      NoneLive(ds, arenas, k, p, c, live[c]);
    }
    forall q | q in arenas && q != p
      ensures ArenaOk(WithList(ds, k, list), arenas - {p}, used[p := false], q, None)
      ensures Accounted(WithList(ds, k, list), arenas - {p}, live, q)
    {
      DroppedOthers(ds, arenas, used, live, k, p, q);
    }
  }

  /** No arena is entirely unused: the exception no longer applies. */
  lemma NotFull(ds: seq<Desc>, arenas: Arenas, used: seq<bool>, live: map<nat, nat>, k: nat, p: nat)
    requires Inv(ds, arenas, used, live, Some(p)) && k < |ds| && p in arenas && arenas[p].desc == Some(k)
    requires arenas[p].freeCnt < ds[k].blocksPerArena
    ensures Inv(ds, arenas, used, live, None)
  {
    forall q | q in arenas ensures ArenaOk(ds, arenas, used, q, None) {
      assert ArenaOk(ds, arenas, used, q, Some(p));
    }
  }

  // ---- big blocks ----

  /** The pages from p to p + n, taken or given back. */
  function WithPages(used: seq<bool>, p: nat, n: nat, v: bool): (r: seq<bool>)
    requires p + n <= |used|
    ensures |r| == |used| && forall q :: 0 <= q < |used| ==> r[q] == if p <= q < p + n then v else used[q]
  {
    used[..p] + seq(n, i => v) + used[p + n..]
  }

  lemma AddBig(ds: seq<Desc>, arenas: Arenas, used: seq<bool>, live: map<nat, nat>, p: nat, n: nat, size: nat)
    requires Inv(ds, arenas, used, live, None) && n > 0 && p + n <= |used| && forall q :: p <= q < p + n ==> !used[q]
    requires 0 < size && ARENA_SIZE + size <= n * PGSIZE
    ensures p * PGSIZE + ARENA_SIZE !in live
    ensures Inv(ds, arenas[p := Arena(None, n)], WithPages(used, p, n, true), live[p * PGSIZE + ARENA_SIZE := size],
            None)
  {
    hide ArenaOk, Accounted, LiveOk, DescsOk, ListOk, FreeBlocksOk, WithPages;
    var b := p * PGSIZE + ARENA_SIZE;
    var arenas', used', live' := arenas[p := Arena(None, n)], WithPages(used, p, n, true), live[b := size];
    assert b / PGSIZE == p && b % PGSIZE == ARENA_SIZE;
    forall q | q in arenas ensures !(p <= q < p + n) && ArenaOk(ds, arenas', used', q, None) &&
        Accounted(ds, arenas', live', q) {
      BigOther(ds, arenas, used, live, p, n, b, size, q);
    }
    NewBig(ds, arenas, used, live, p, n, b, size);
    forall c | c in live ensures c != b && LiveOk(ds, arenas', c, live[c]) {
      BigOtherLive(ds, arenas, p, n, c, live[c]);
    }
    assert p !in arenas;
    BigLists(ds, arenas, arenas');
  }

  lemma BigOther(ds: seq<Desc>, arenas: Arenas, used: seq<bool>, live: map<nat, nat>, p: nat, n: nat, b: nat,
                 size: nat, q: nat)
    requires n > 0 && p + n <= |used| && forall r :: p <= r < p + n ==> !used[r]
    requires q in arenas && ArenaOk(ds, arenas, used, q, None) && Accounted(ds, arenas, live, q)
    ensures !(p <= q < p + n)
    ensures ArenaOk(ds, arenas[p := Arena(None, n)], WithPages(used, p, n, true), q, None)
    ensures Accounted(ds, arenas[p := Arena(None, n)], live[b := size], q)
  {
    hide FreePlaces, Block;
    assert !used[p];
    var used' := WithPages(used, p, n, true);
    if arenas[q].desc == None {
      forall r | q < r < q + arenas[q].freeCnt ensures used'[r] && r !in arenas[p := Arena(None, n)] {
        assert used[r] && r !in arenas;
      }
    }
  }

  lemma NewBig(ds: seq<Desc>, arenas: Arenas, used: seq<bool>, live: map<nat, nat>, p: nat, n: nat, b: nat, size: nat)
    requires n > 0 && p + n <= |used| && forall q | q in arenas :: !(p <= q < p + n)
    requires 0 < size && ARENA_SIZE + size <= n * PGSIZE && b == p * PGSIZE + ARENA_SIZE
    ensures ArenaOk(ds, arenas[p := Arena(None, n)], WithPages(used, p, n, true), p, None)
    ensures Accounted(ds, arenas[p := Arena(None, n)], live[b := size], p)
    ensures LiveOk(ds, arenas[p := Arena(None, n)], b, size)
  {
  }

  lemma BigOtherLive(ds: seq<Desc>, arenas: Arenas, p: nat, n: nat, c: nat, size: nat)
    requires LiveOk(ds, arenas, c, size) && p !in arenas
    ensures c != p * PGSIZE + ARENA_SIZE && LiveOk(ds, arenas[p := Arena(None, n)], c, size)
  {
    hide BlockOf;
    assert (p * PGSIZE + ARENA_SIZE) / PGSIZE == p;
  }

  lemma BigLists(ds: seq<Desc>, arenas: Arenas, arenas': Arenas)
    requires FreeBlocksOk(ds, arenas)
    requires forall q | q in arenas && arenas[q].desc.Some? :: q in arenas' && arenas'[q] == arenas[q]
    ensures FreeBlocksOk(ds, arenas')
  {
    hide BlockOf;
    forall j | 0 <= j < |ds| ensures ListOk(ds[j], j, arenas') {
      assert ListOk(ds[j], j, arenas);
    }
  }

  lemma FreeBig(ds: seq<Desc>, arenas: Arenas, used: seq<bool>, live: map<nat, nat>, b: nat)
    requires Inv(ds, arenas, used, live, None) && b in live && b / PGSIZE in arenas && arenas[b / PGSIZE].desc == None
    ensures var p := b / PGSIZE;
            var n := arenas[p].freeCnt;
            && b == p * PGSIZE + ARENA_SIZE && p + n <= |used| && (forall q :: p <= q < p + n ==> used[q])
            && Inv(ds, arenas - {p}, WithPages(used, p, n, false), live - {b}, None)
  {
    hide ArenaOk, Accounted, LiveOk, DescsOk, ListOk, FreeBlocksOk, WithPages;
    var p, n := b / PGSIZE, arenas[b / PGSIZE].freeCnt;
    BigSpan(ds, arenas, used, live[b], b);
    var arenas', used', live' := arenas - {p}, WithPages(used, p, n, false), live - {b};
    forall q | q in arenas' ensures ArenaOk(ds, arenas', used', q, None) && Accounted(ds, arenas', live', q) {
      BigGone(ds, arenas, used, live, b, q);
    }
    forall c | c in live' ensures LiveOk(ds, arenas', c, live'[c]) {
      BigGoneLive(ds, arenas, b, c, live[b], live[c]);
    }
    BigLists(ds, arenas, arenas');
  }

  lemma BigSpan(ds: seq<Desc>, arenas: Arenas, used: seq<bool>, size: nat, b: nat)
    requires LiveOk(ds, arenas, b, size) && ArenaOk(ds, arenas, used, b / PGSIZE, None) &&
             arenas[b / PGSIZE].desc == None
    ensures var p := b / PGSIZE;
            var n := arenas[p].freeCnt;
            b == p * PGSIZE + ARENA_SIZE && p + n <= |used| && forall q :: p <= q < p + n ==> used[q]
  {
  }

  lemma BigGone(ds: seq<Desc>, arenas: Arenas, used: seq<bool>, live: map<nat, nat>, b: nat, q: nat)
    requires DescsOk(ds) && b / PGSIZE in arenas && arenas[b / PGSIZE].desc == None
    requires ArenaOk(ds, arenas, used, b / PGSIZE, None)
    requires q in arenas && q != b / PGSIZE && ArenaOk(ds, arenas, used, q, None) && Accounted(ds, arenas, live, q)
    ensures var p, n := b / PGSIZE, arenas[b / PGSIZE].freeCnt;
            && p + n <= |used|
            && ArenaOk(ds, arenas - {p}, WithPages(used, p, n, false), q, None) &&
               Accounted(ds, arenas - {p}, live - {b}, q)
  {
    BigNotBlock(ds, arenas, q, b);
    hide FreePlaces, Block;
  }

  lemma BigGoneLive(ds: seq<Desc>, arenas: Arenas, b: nat, c: nat, sizeB: nat, size: nat)
    requires LiveOk(ds, arenas, b, sizeB) && arenas[b / PGSIZE].desc == None && LiveOk(ds, arenas, c, size) && c != b
    ensures LiveOk(ds, arenas - {b / PGSIZE}, c, size)
  {
    hide BlockOf;
  }

  lemma BigNotBlock(ds: seq<Desc>, arenas: Arenas, q: nat, b: nat)
    requires DescsOk(ds) && q in arenas && q != b / PGSIZE
    ensures q * PGSIZE + ARENA_SIZE != b
    ensures arenas[q].desc.Some? && arenas[q].desc.value < |ds| ==>
              forall i {:trigger Block(q, ds[arenas[q].desc.value].blockSize, i)} |
                  0 <= i < ds[arenas[q].desc.value].blocksPerArena ::
                Block(q, ds[arenas[q].desc.value].blockSize, i) != b
  {
    if arenas[q].desc.Some? && arenas[q].desc.value < |ds| {
      DescAt(ds, arenas[q].desc.value);
      BlocksElsewhere(ds[arenas[q].desc.value], q, b);
    }
  }

  // ---- live blocks and the rest of memory ----

  predicate Apart(a: nat, n: nat, b: nat, m: nat) {
    a + n <= b || b + m <= a
  }

  /** A live block does not touch a free one. */
  lemma LiveOffFree(ds: seq<Desc>, arenas: Arenas, used: seq<bool>, live: map<nat, nat>, c: nat, k: nat, f: nat,
                    full: Option<nat>)
    requires Inv(ds, arenas, used, live, full) && c in live && k < |ds| && f in ds[k].freeList
    ensures Apart(c, Extent(ds, arenas, c), f, ds[k].blockSize)
  {
    hide FreePlaces, Accounted, BlockOf, Block;
    assert LiveOk(ds, arenas, c, live[c]) && ListOk(ds[k], k, arenas);
    assert ArenaOk(ds, arenas, used, c / PGSIZE, full);
    hide Inv, FreeBlocksOk, ListOk;
    DescAt(ds, k);
    BlockIs(ds[k], f);
    match arenas[c / PGSIZE].desc
    case Some(j) =>
      DescAt(ds, j);
      BlockIs(ds[j], c);
      if f / PGSIZE == c / PGSIZE {
        if c < f {
          BlocksApart(ds[k], c, f);
        } else {
          BlocksApart(ds[k], f, c);
        }
      }
    case None => BigApart(ds, arenas, used, c, f / PGSIZE, full);
  }

  /** A big block touches only its own pages, none of which is another arena. */
  lemma BigApart(ds: seq<Desc>, arenas: Arenas, used: seq<bool>, c: nat, q: nat, full: Option<nat>)
    requires c / PGSIZE in arenas && arenas[c / PGSIZE].desc == None && c % PGSIZE == ARENA_SIZE
    requires ArenaOk(ds, arenas, used, c / PGSIZE, full)
    requires (q in arenas && q != c / PGSIZE) || (q < |used| && !used[q])
    ensures Apart(c, Extent(ds, arenas, c), q * PGSIZE, PGSIZE)
  {
    var p, n := c / PGSIZE, arenas[c / PGSIZE].freeCnt;
    assert !(p < q < p + n) && q != p;
    assert c == p * PGSIZE + ARENA_SIZE;
  }

  /** A live block does not touch a page that is not allocated. */
  lemma LiveOffPage(ds: seq<Desc>, arenas: Arenas, used: seq<bool>, live: map<nat, nat>, c: nat, p: nat,
                    full: Option<nat>)
    requires Inv(ds, arenas, used, live, full) && c in live && p < |used| && !used[p]
    ensures Apart(c, Extent(ds, arenas, c), p * PGSIZE, PGSIZE)
  {
    hide FreePlaces, Accounted, BlockOf, Block;
    assert LiveOk(ds, arenas, c, live[c]) && ArenaOk(ds, arenas, used, c / PGSIZE, full);
    hide Inv;
    match arenas[c / PGSIZE].desc
    case Some(j) =>
      DescAt(ds, j);
      BlockIs(ds[j], c);
    case None => BigApart(ds, arenas, used, c, p, full);
  }

  lemma LiveArena(ds: seq<Desc>, arenas: Arenas, used: seq<bool>, live: map<nat, nat>, c: nat, full: Option<nat>)
    requires Inv(ds, arenas, used, live, full) && c in live
    ensures c / PGSIZE in arenas
    ensures match arenas[c / PGSIZE].desc
            case Some(k) => k < |ds| && live[c] <= ds[k].blockSize
            case None => c % PGSIZE == ARENA_SIZE
  {
    assert LiveOk(ds, arenas, c, live[c]);
  }

  // ---- the pages of the pool ----

  ghost predicate Spans(arenas: Arenas, p: nat, q: nat) {
    p in arenas && arenas[p].desc == None && p <= q < p + arenas[p].freeCnt
  }

  ghost predicate Owned(arenas: Arenas, q: nat) {
    q in arenas || exists p :: Spans(arenas, p, q)
  }

  /** The pages in use that no arena has: the rest of the kernel holds them. */
  ghost function Foreign(arenas: Arenas, used: seq<bool>): set<nat> {
    set q: nat | q < |used| && used[q] && !Owned(arenas, q)
  }

  lemma AddedForeign(arenas: Arenas, used: seq<bool>, p: nat, k: nat, n: nat)
    requires p < |used| && !used[p] && p !in arenas
    ensures Foreign(arenas[p := Arena(Some(k), n)], used[p := true]) == Foreign(arenas, used)
  {
    OwnedBesides(arenas, arenas[p := Arena(Some(k), n)], p);
    assert Owned(arenas[p := Arena(Some(k), n)], p);
    hide Owned;
  }

  /** A change at page p that is no big block, before or after. */
  lemma OwnedBesides(arenas: Arenas, arenas': Arenas, p: nat)
    requires arenas' - {p} == arenas - {p}
    requires p in arenas ==> arenas[p].desc.Some?
    requires p in arenas' ==> arenas'[p].desc.Some?
    ensures forall q: nat | q != p :: Owned(arenas', q) <==> Owned(arenas, q)
  {
    forall q: nat, r: nat ensures Spans(arenas', r, q) <==> Spans(arenas, r, q) {
      assert r != p ==> (r in arenas <==> r in arenas - {p}) && (r in arenas' <==> r in arenas' - {p});
      assert r != p && r in arenas ==> arenas[r] == (arenas - {p})[r] == arenas'[r];
    }
    forall q: nat | q != p ensures q in arenas' <==> q in arenas {
      assert (q in arenas <==> q in arenas - {p}) && (q in arenas' <==> q in arenas' - {p});
    }
  }

  lemma CountedForeign(arenas: Arenas, used: seq<bool>, p: nat, n: nat)
    requires p in arenas && arenas[p].desc.Some?
    ensures Foreign(Counted(arenas, p, n), used) == Foreign(arenas, used)
  {
    OwnedBesides(arenas, Counted(arenas, p, n), p);
    assert Owned(arenas, p) && Owned(Counted(arenas, p, n), p);
    hide Owned;
  }

  lemma DroppedForeign(arenas: Arenas, used: seq<bool>, p: nat)
    requires p < |used| && p in arenas && arenas[p].desc.Some?
    ensures Foreign(arenas - {p}, used[p := false]) == Foreign(arenas, used)
  {
    OwnedBesides(arenas, arenas - {p}, p);
    assert Owned(arenas, p);
    hide Owned;
  }

  lemma BigForeign(arenas: Arenas, used: seq<bool>, p: nat, n: nat)
    requires p + n <= |used| && n > 0 && p !in arenas && forall q :: p <= q < p + n ==> !used[q]
    ensures Foreign(arenas[p := Arena(None, n)], WithPages(used, p, n, true)) == Foreign(arenas, used)
  {
    OwnedBeyond(arenas, p, n);
    hide Owned, WithPages;
  }

  /** A big block owns its pages and changes nothing else. */
  lemma OwnedBeyond(arenas: Arenas, p: nat, n: nat)
    requires p !in arenas && n > 0
    ensures forall q: nat :: Owned(arenas[p := Arena(None, n)], q) <==> Owned(arenas, q) || p <= q < p + n
  {
    var arenas' := arenas[p := Arena(None, n)];
    forall q: nat ensures Owned(arenas', q) <==> Owned(arenas, q) || p <= q < p + n {
      assert Spans(arenas', p, q) <==> p <= q < p + n;
      if r: nat :| Spans(arenas, r, q) {
        assert Spans(arenas', r, q);
      }
      if r: nat :| Spans(arenas', r, q) {
        assert r != p ==> Spans(arenas, r, q);
      }
    }
  }

  lemma FreedForeign(arenas: Arenas, used: seq<bool>, p: nat)
    requires p in arenas && arenas[p].desc == None && arenas[p].freeCnt > 0 && p + arenas[p].freeCnt <= |used|
    ensures Foreign(arenas - {p}, WithPages(used, p, arenas[p].freeCnt, false)) == Foreign(arenas, used)
  {
    OwnedBeyond(arenas - {p}, p, arenas[p].freeCnt);
    assert (arenas - {p})[p := Arena(None, arenas[p].freeCnt)] == arenas;
    hide Owned, WithPages;
  }

  /** There is an arena at a page exactly while a live block starts in it, so freeing every block gives
      all pages back. */
  lemma ArenaIffLive(ds: seq<Desc>, arenas: Arenas, used: seq<bool>, live: map<nat, nat>, p: nat)
    requires Inv(ds, arenas, used, live, None)
    ensures p in arenas <==> exists b :: b in live && b / PGSIZE == p
  {
    if b :| b in live && b / PGSIZE == p {
      LiveArena(ds, arenas, used, live, b, None);
    }
    if p in arenas {
      assert ArenaOk(ds, arenas, used, p, None) && Accounted(ds, arenas, live, p);
      match arenas[p].desc
      case None => assert (p * PGSIZE + ARENA_SIZE) / PGSIZE == p;
      case Some(k) =>
        DescAt(ds, k);
        SomeTaken(ds[k], p);
        var i :| 0 <= i < ds[k].blocksPerArena && Block(p, ds[k].blockSize, i) !in ds[k].freeList;
        BlockAddress(ds[k], p, i);
    }
  }

  lemma SomeTaken(d: Desc, p: nat)
    requires |FreePlaces(d, p)| < d.blocksPerArena
    ensures exists i :: 0 <= i < d.blocksPerArena && Block(p, d.blockSize, i) !in d.freeList
  {
    if forall i :: 0 <= i < d.blocksPerArena ==> Block(p, d.blockSize, i) in d.freeList {
      AllPlaces(d, p);
    }
  }

  lemma AllPlaces(d: Desc, p: nat)
    requires forall i :: 0 <= i < d.blocksPerArena ==> Block(p, d.blockSize, i) in d.freeList
    ensures |FreePlaces(d, p)| == d.blocksPerArena
  {
    assert FreePlaces(d, p) == Below(d.blocksPerArena);
  }

  // ---- memory ----

  /** The live blocks hold in m what they held in m0. */
  ghost predicate SameBytes<T(!new)>(ds: seq<Desc>, arenas: Arenas, live: map<nat, nat>, m0: seq<T>, m: seq<T>) {
    |m| == |m0| && forall c, i | c in live && c <= i < c + Extent(ds, arenas, c) && i < |m| :: m[i] == m0[i]
  }

  lemma SameBytesTransitive<T(!new)>(ds: seq<Desc>, arenas: Arenas, live: map<nat, nat>, m0: seq<T>, m1: seq<T>,
                                     m2: seq<T>)
    requires SameBytes(ds, arenas, live, m0, m1) && SameBytes(ds, arenas, live, m1, m2)
    ensures SameBytes(ds, arenas, live, m0, m2)
  {
  }

  /** What was live, save for `except`, is live still, with the same size, extent and bytes. */
  ghost predicate KeepsLive<T(!new)>(ds0: seq<Desc>, arenas0: Arenas, live0: map<nat, nat>, m0: seq<T>,
                                     ds: seq<Desc>, arenas: Arenas, live: map<nat, nat>, m: seq<T>, except: set<nat>) {
    && |m| == |m0|
    && (forall c | c in live0 && c !in except ::
          c in live && live[c] == live0[c] && Extent(ds, arenas, c) == Extent(ds0, arenas0, c))
    && (forall c, i | c in live0 && c !in except && c <= i < c + Extent(ds0, arenas0, c) && i < |m| :: m[i] == m0[i])
  }

  /** Writes to a page that is not allocated. */
  lemma PageWritesSafe<T(!new)>(ds: seq<Desc>, arenas: Arenas, used: seq<bool>, live: map<nat, nat>, p: nat, n: nat,
                                m0: seq<T>, m: seq<T>, full: Option<nat>)
    requires Inv(ds, arenas, used, live, full) && p + n <= |used| && forall q :: p <= q < p + n ==> !used[q]
    requires |m| == |m0|
    requires forall i :: 0 <= i < |m| && !(p * PGSIZE <= i < (p + n) * PGSIZE) ==> m[i] == m0[i]
    ensures SameBytes(ds, arenas, live, m0, m)
  {
    hide Inv, Extent;
    forall c, i | c in live && c <= i < c + Extent(ds, arenas, c) && i < |m| ensures m[i] == m0[i] {
      if p * PGSIZE <= i < (p + n) * PGSIZE {
        LiveOffPage(ds, arenas, used, live, c, i / PGSIZE, full);
      }
    }
  }

  /** Writes to the links of free blocks. */
  lemma LinkWritesSafe<T(!new)>(ds: seq<Desc>, arenas: Arenas, used: seq<bool>, live: map<nat, nat>, k: nat,
                                m0: seq<T>, m: seq<T>, full: Option<nat>)
    requires Inv(ds, arenas, used, live, full) && k < |ds| && |m| == |m0|
    requires forall i :: 0 <= i < |m| && (forall b | b in ds[k].freeList :: !(b <= i < b + LINKS)) ==> m[i] == m0[i]
    ensures SameBytes(ds, arenas, live, m0, m)
  {
    DescAt(ds, k);
    hide Inv, Extent;
    forall c, i | c in live && c <= i < c + Extent(ds, arenas, c) && i < |m| ensures m[i] == m0[i] {
      forall b | b in ds[k].freeList ensures !(b <= i < b + LINKS) {
        LiveOffFree(ds, arenas, used, live, c, k, b, full);
      }
    }
  }

  lemma FreeInMemory(ds: seq<Desc>, arenas: Arenas, used: seq<bool>, live: map<nat, nat>, k: nat, full: Option<nat>)
    requires Inv(ds, arenas, used, live, full) && k < |ds|
    ensures forall b | b in ds[k].freeList :: b + LINKS <= |used| * PGSIZE
  {
    DescAt(ds, k);
    assert ListOk(ds[k], k, arenas);
    forall b | b in ds[k].freeList ensures b + LINKS <= |used| * PGSIZE {
      BlockIs(ds[k], b);
      assert ArenaOk(ds, arenas, used, b / PGSIZE, full);
    }
  }

  /** The same descriptors, and arenas of the same kind where both have one. */
  ghost predicate SameShape(ds0: seq<Desc>, arenas0: Arenas, ds: seq<Desc>, arenas: Arenas) {
    && |ds| == |ds0| && (forall k :: 0 <= k < |ds| ==> ds[k].blockSize == ds0[k].blockSize)
    && (forall q | q in arenas0 && q in arenas ::
          arenas[q].desc == arenas0[q].desc && (arenas0[q].desc == None ==> arenas[q].freeCnt == arenas0[q].freeCnt))
  }

  lemma ShapeExtent(ds0: seq<Desc>, arenas0: Arenas, ds: seq<Desc>, arenas: Arenas, c: nat)
    requires SameShape(ds0, arenas0, ds, arenas) && c / PGSIZE in arenas0 && c / PGSIZE in arenas
    ensures Extent(ds, arenas, c) == Extent(ds0, arenas0, c)
  {
  }

  lemma Rebase<T(!new)>(ds0: seq<Desc>, arenas0: Arenas, ds: seq<Desc>, arenas: Arenas, live: map<nat, nat>,
                        m: seq<T>, m': seq<T>)
    requires SameShape(ds0, arenas0, ds, arenas) && SameBytes(ds, arenas, live, m, m')
    requires forall c | c in live :: c / PGSIZE in arenas0 && c / PGSIZE in arenas
    ensures SameBytes(ds0, arenas0, live, m, m')
  {
    hide Extent, SameShape;
    forall c, i | c in live && c <= i < c + Extent(ds0, arenas0, c) && i < |m'| ensures m'[i] == m[i] {
      ShapeExtent(ds0, arenas0, ds, arenas, c);
    }
  }

  lemma StillLive<T(!new)>(ds0: seq<Desc>, arenas0: Arenas, live0: map<nat, nat>, m0: seq<T>,
                           ds: seq<Desc>, arenas: Arenas, live: map<nat, nat>, m: seq<T>, except: set<nat>)
    requires SameShape(ds0, arenas0, ds, arenas) && SameBytes(ds0, arenas0, live0 - except, m0, m)
    requires forall c | c in live0 && c !in except ::
               c in live && live[c] == live0[c] && c / PGSIZE in arenas0 && c / PGSIZE in arenas
    ensures KeepsLive(ds0, arenas0, live0, m0, ds, arenas, live, m, except)
  {
    hide Extent, SameShape;
    forall c | c in live0 && c !in except ensures Extent(ds, arenas, c) == Extent(ds0, arenas0, c) {
      ShapeExtent(ds0, arenas0, ds, arenas, c);
    }
  }

  lemma AllStillLive<T(!new)>(ds0: seq<Desc>, arenas0: Arenas, live0: map<nat, nat>, m0: seq<T>,
                              ds: seq<Desc>, arenas: Arenas, live: map<nat, nat>, m: seq<T>)
    requires SameShape(ds0, arenas0, ds, arenas) && SameBytes(ds0, arenas0, live0, m0, m)
    requires forall c | c in live0 :: c in live && live[c] == live0[c] && c / PGSIZE in arenas0 && c / PGSIZE in arenas
    ensures KeepsLive(ds0, arenas0, live0, m0, ds, arenas, live, m, {})
  {
    hide SameShape, SameBytes, KeepsLive;
    assert live0 - {} == live0;
    StillLive(ds0, arenas0, live0, m0, ds, arenas, live, m, {});
  }
}
