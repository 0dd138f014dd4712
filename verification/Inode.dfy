/**
 pintos/src/filesys/inode.c, called by one thread at a time: an open inode reads, writes and
 grows its file through the buffer cache.  Each operation is proved against the file as a
 growable sequence of bytes.

 One case is outside its contracts: a huge file growing past its last second-level array.  A large
 file growing past what a huge one can hold, which the code does not check, is a case in them.
 */
module Inode {
  import opened BufferCache
  import opened Bytes
  import opened InodeLayout
  import opened Sequences
  import opened Store
  import opened Wrappers

  /** A huge file grows within its last second-level array. */
  predicate Growable(d: DiskInode, newSize: nat) {
    && newSize <= OFF_MAX
    && (d.sizeType == HUGE && d.length < newSize ==> Arrays(Sectors(newSize)) == Arrays(Sectors(d.length)))
  }

  /** The free sectors are enough for the file to grow: for a whole new file where its type changes,
      and else for the sectors that it lacks. */
  ghost predicate EnoughToGrow(d: DiskInode, used: seq<bool>, newSize: nat) {
    && Sectors(newSize) <= HUGE_SECTORS
    && if d.sizeType == SMALL || (d.sizeType == LARGE && newSize > PER_ARRAY * SECTOR_SIZE)
       then EnoughBigger(used, newSize)
       else |Free(used)| >= Sectors(newSize) - Sectors(d.length)
  }

  /** A write that ends at n can be made. */
  ghost predicate RoomFor(d: DiskInode, used: seq<bool>, n: nat) {
    Growable(d, n) && (n <= d.length || EnoughToGrow(d, used, n))
  }

  // ---- growing in place ----

  lemma SameCountGrown(view: seq<Sector>, used: seq<bool>, d: DiskInode, sector: nat, d': DiskInode)
    requires WellFormed(view, used, d, sector) && d' == d.(length := d'.length)
    requires d.length <= d'.length <= OFF_MAX && Sectors(d'.length) == Sectors(d.length)
    ensures var view' := view[sector := EncodeInode(d')];
            && WellFormed(view', used, d', sector) && Contents(view', d') == Extend(Contents(view, d), d'.length)
            && Keeps(view, used, view', used, Own(view, d, sector))
            && OwnGrows(used, Own(view, d, sector), Own(view', d', sector))
            && OwnsNew(used, used, Own(view', d', sector))
  {
    var view' := view[sector := EncodeInode(d')];
    InodeRoundTrip(d');
    assert AgreeOn(view, view', MetaBlocks(view, d)) && AgreeOn(view, view', Blocks(view, d));
    SameLayout(view, view', d);
    SameCountLayout(view', d, d');
    assert sector in Own(view, d, sector);
    hide Blocks, MetaBlocks, Marked, TailClear, Contents, Separate, Own, EncodeInode, DecodeInode, AgreeOn;
    Grown(view, used, d, view', used, d', sector, [], {});
  }

  lemma SameCountLayout(view: seq<Sector>, d: DiskInode, d': DiskInode)
    requires Sized(d) && d' == d.(length := d'.length) && Sectors(d'.length) == Sectors(d.length)
    ensures Sized(d') && Blocks(view, d') == Blocks(view, d) + [] && MetaBlocks(view, d') == MetaBlocks(view, d)
    ensures Marked(view, d) ==> Marked(view, d')
  {
  }

  /** The sectors of an array that was filled in place. */
  lemma FilledFresh(view0: seq<Sector>, used0: seq<bool>, view: seq<Sector>, used: seq<bool>, a: seq<nat>,
                    from: nat, to: nat, alloc: set<nat>)
    requires Grows(view0, used0, view, used, alloc) && from <= to <= |a| && Filled(view, a, from, to, alloc)
    ensures Distinct(a[from..to])
    ensures forall b | b in a[from..to] :: b < |view| && !used0[b] && used[b] && view[b] == ZERO_SECTOR && b in alloc
    ensures forall b: nat | b < |used0| && b < |used| && used[b] && !used0[b] :: b in a[from..to]
  {
  }

  /** What the two last writes of a growth in place leave alone. */
  lemma ArrayAndInode(view0: seq<Sector>, used0: seq<bool>, view: seq<Sector>, used: seq<bool>, alloc: set<nat>,
                      d: DiskInode, sector: nat, m: nat, x: Sector, y: Sector)
    requires WellFormed(view0, used0, d, sector) && Grows(view0, used0, view, used, alloc)
    requires m in MetaBlocks(view0, d)
    ensures m < |view| && m != sector && m !in alloc && sector !in alloc
    ensures var view': seq<Sector> := view[m := x][sector := y];
            && Keeps(view0, used0, view', used, Own(view0, d, sector)) && AgreeOn(view0, view', Blocks(view0, d))
            && view'[m] == x && view'[sector] == y
            && (forall b | b in MetaBlocks(view0, d) && b != m :: b < |view| && view'[b] == view0[b])
            && (forall b | b in alloc :: b < |view| && view'[b] == view[b])
  {
    hide Blocks, MetaBlocks, Marked, TailClear, Distinct;
    assert m in Own(view0, d, sector) && sector in Own(view0, d, sector);
  }

  /** The two last writes of a growth in place: the array and the inode. */
  ghost function Finish(view: seq<Sector>, m: nat, a: seq<nat>, sector: nat, d: DiskInode): (r: seq<Sector>)
    requires m < |view| && sector < |view| && IsArray(a) && Encodable(d)
  {
    var view1: seq<Sector> := view[m := EncodeTable(a)];
    view1[sector := EncodeInode(d)]
  }

  lemma LargeGrown(view0: seq<Sector>, used0: seq<bool>, d: DiskInode, sector: nat, view: seq<Sector>, used: seq<bool>,
                   a: seq<nat>, alloc: set<nat>, d': DiskInode)
    requires WellFormed(view0, used0, d, sector) && d.sizeType == LARGE && d' == d.(length := d'.length)
    requires d.length <= d'.length <= OFF_MAX && Sized(d') && Sectors(d.length) <= Sectors(d'.length)
    requires Grows(view0, used0, view, used, alloc) && IsArray(a)
    requires Filled(view, a, Sectors(d.length), Sectors(d'.length), alloc)
    requires forall k :: 0 <= k < Sectors(d.length) ==> a[k] == TableAt(view0, d.start)[k]
    requires Sectors(d'.length) < PER_ARRAY ==> a[Sectors(d'.length)] == INVALID
    ensures d.start < |view| && sector < |view| && Encodable(d')
    ensures var view' := Finish(view, d.start, a, sector, d');
            && WellFormed(view', used, d', sector) && Contents(view', d') == Extend(Contents(view0, d), d'.length)
            && Keeps(view0, used0, view', used, Own(view0, d, sector))
            && OwnGrows(used0, Own(view0, d, sector), Own(view', d', sector))
            && OwnsNew(used0, used, Own(view', d', sector))
  {
    assert MetaBlocks(view0, d) == [d.start];
    ArrayAndInode(view0, used0, view, used, alloc, d, sector, d.start, EncodeTable(a), EncodeInode(d'));
    InodeRoundTrip(d');
    TableRoundTrip(a);
    var n0, n := Sectors(d.length), Sectors(d'.length);
    FilledFresh(view0, used0, view, used, a, n0, n, alloc);
    hide Blocks, MetaBlocks, Marked, TailClear, Contents, Separate, Own, EncodeInode, DecodeInode, AgreeOn,
         EncodeTable, Table, Filled, Grows, Distinct, Keeps;
    var view' := Finish(view, d.start, a, sector, d');
    LargeGrownLayout(view0, view', d, d', a);
    Grown(view0, used0, d, view', used, d', sector, a[n0..n], alloc);
  }

  lemma LargeGrownLayout(view0: seq<Sector>, view': seq<Sector>, d: DiskInode, d': DiskInode, a: seq<nat>)
    requires Sized(d) && Sized(d') && d.sizeType == LARGE && d' == d.(length := d'.length)
    requires Sectors(d.length) <= Sectors(d'.length) && IsArray(a)
    requires d.start < |view'| && Table(view'[d.start]) == a
    requires forall k :: 0 <= k < Sectors(d.length) ==> a[k] == TableAt(view0, d.start)[k]
    requires Sectors(d'.length) < PER_ARRAY ==> a[Sectors(d'.length)] == INVALID
    ensures Blocks(view', d') == Blocks(view0, d) + a[Sectors(d.length)..Sectors(d'.length)]
    ensures MetaBlocks(view', d') == MetaBlocks(view0, d)
    ensures Marked(view', d')
  {
    hide Table;
    assert TableAt(view', d.start) == a;
    assert MetaBlocks(view0, d) == [d.start] == MetaBlocks(view', d');
  }

  lemma LastArray(view: seq<Sector>, d: DiskInode, c: nat)
    requires Sized(d) && d.sizeType == HUGE && c == Arrays(Sectors(d.length)) && c > 0
    ensures c <= PER_ARRAY && TableAt(view, d.start)[c - 1] in MetaBlocks(view, d)
  {
    assert MetaBlocks(view, d)[c] == TableAt(view, d.start)[c - 1];
  }

  lemma HugeGrown(view0: seq<Sector>, used0: seq<bool>, d: DiskInode, sector: nat, view: seq<Sector>, used: seq<bool>,
                  c: nat, m: nat, a: seq<nat>, from: nat, to: nat, alloc: set<nat>, d': DiskInode)
    requires WellFormed(view0, used0, d, sector) && d.sizeType == HUGE && d' == d.(length := d'.length)
    requires d.length <= d'.length <= OFF_MAX && Sized(d')
    requires c == Arrays(Sectors(d.length)) == Arrays(Sectors(d'.length)) && c > 0
    requires m == TableAt(view0, d.start)[c - 1]
    requires from == Sectors(d.length) - (c - 1) * PER_ARRAY && to == Sectors(d'.length) - (c - 1) * PER_ARRAY
    requires 0 < from <= to <= PER_ARRAY
    requires Grows(view0, used0, view, used, alloc) && IsArray(a) && Filled(view, a, from, to, alloc)
    requires forall k :: 0 <= k < from ==> a[k] == TableAt(view0, m)[k]
    requires to < PER_ARRAY ==> a[to] == INVALID
    ensures m < |view| && sector < |view| && Encodable(d')
    ensures var view' := Finish(view, m, a, sector, d');
            && WellFormed(view', used, d', sector) && Contents(view', d') == Extend(Contents(view0, d), d'.length)
            && Keeps(view0, used0, view', used, Own(view0, d, sector))
            && OwnGrows(used0, Own(view0, d, sector), Own(view', d', sector))
            && OwnsNew(used0, used, Own(view', d', sector))
  {
    WellFormedParts(view0, used0, d, sector, d');
    hide *;
    LastArray(view0, d, c);
    ArrayAndInode(view0, used0, view, used, alloc, d, sector, m, EncodeTable(a), EncodeInode(d'));
    InodeRoundTrip(d');
    TableRoundTrip(a);
    FilledFresh(view0, used0, view, used, a, from, to, alloc);
    FinishIs(view, m, a, sector, d');
    var view' := Finish(view, m, a, sector, d');
    HugeGrownLayout(view0, view', d, d', c, m, a, from, to);
    Grown(view0, used0, d, view', used, d', sector, a[from..to], alloc);
  }

  lemma WellFormedParts(view: seq<Sector>, used: seq<bool>, d: DiskInode, sector: nat, d': DiskInode)
    requires WellFormed(view, used, d, sector) && d' == d.(length := d'.length) && d'.length <= OFF_MAX
    ensures |view| == |used| && sector < |view| && Sized(d) && Encodable(d')
    ensures Marked(view, d) && Distinct(MetaBlocks(view, d))
  {
  }

  lemma FinishIs(view: seq<Sector>, m: nat, a: seq<nat>, sector: nat, d: DiskInode)
    requires m < |view| && sector < |view| && IsArray(a) && Encodable(d)
    ensures Finish(view, m, a, sector, d) == view[m := EncodeTable(a)][sector := EncodeInode(d)]
  {
  }

  lemma HugeGrownLayout(view0: seq<Sector>, view': seq<Sector>, d: DiskInode, d': DiskInode,
                        c: nat, m: nat, a: seq<nat>, from: nat, to: nat)
    requires Sized(d) && Sized(d') && d.sizeType == HUGE && d' == d.(length := d'.length) && d.length <= d'.length
    requires c == Arrays(Sectors(d.length)) == Arrays(Sectors(d'.length)) && c > 0
    requires m == TableAt(view0, d.start)[c - 1] && Distinct(MetaBlocks(view0, d)) && Marked(view0, d)
    requires from == Sectors(d.length) - (c - 1) * PER_ARRAY && to == Sectors(d'.length) - (c - 1) * PER_ARRAY
    requires 0 < from <= to <= PER_ARRAY && IsArray(a)
    requires |view'| == |view0| && m < |view'| && Table(view'[m]) == a
    requires forall b | b in MetaBlocks(view0, d) && b != m :: b < |view'| && view'[b] == view0[b]
    requires forall k :: 0 <= k < from ==> a[k] == TableAt(view0, m)[k]
    requires to < PER_ARRAY ==> a[to] == INVALID
    ensures Blocks(view', d') == Blocks(view0, d) + a[from..to]
    ensures MetaBlocks(view', d') == MetaBlocks(view0, d)
    ensures Marked(view', d')
  {
    OtherTables(view0, view', d, c, m);
    assert TableAt(view', m) == a;
    hide Table, TableAt, Distinct, MetaBlocks;
    forall k: nat | k < Sectors(d'.length) ensures Block(view', d', k) == (Blocks(view0, d) + a[from..to])[k] {
      HugeGrownBlock(view0, view', d, d', c, m, a, from, to, k);
    }
    hide Block, Marked;
    SameMetas(view0, view', d, d');
    HugeGrownMarks(view0, view', d, d', c, m, a, to);
  }

  lemma OtherTables(view0: seq<Sector>, view': seq<Sector>, d: DiskInode, c: nat, m: nat)
    requires Sized(d) && d.sizeType == HUGE && c == Arrays(Sectors(d.length)) && c > 0
    requires m == TableAt(view0, d.start)[c - 1] && Distinct(MetaBlocks(view0, d)) && |view'| == |view0|
    requires forall b | b in MetaBlocks(view0, d) && b != m :: b < |view'| && view'[b] == view0[b]
    ensures TableAt(view', d.start) == TableAt(view0, d.start)
    ensures forall k: nat | k + 1 < c ::
                  TableAt(view', TableAt(view0, d.start)[k]) == TableAt(view0, TableAt(view0, d.start)[k])
  {
    var ms := MetaBlocks(view0, d);
    assert ms[0] == d.start && ms[c] == m && ms[0] in ms;
    forall k: nat | k + 1 < c ensures TableAt(view', TableAt(view0, d.start)[k]) ==
        TableAt(view0, TableAt(view0, d.start)[k]) {
      assert ms[k + 1] == TableAt(view0, d.start)[k] && ms[k + 1] != ms[c] && ms[k + 1] in ms;
    }
  }

  lemma HugeGrownMarks(view0: seq<Sector>, view': seq<Sector>, d: DiskInode, d': DiskInode, c: nat, m: nat,
                       a: seq<nat>, to: nat)
    requires Sized(d) && Sized(d') && d.sizeType == HUGE && d' == d.(length := d'.length)
    requires c == Arrays(Sectors(d.length)) == Arrays(Sectors(d'.length)) && c > 0
    requires m == TableAt(view0, d.start)[c - 1] && Marked(view0, d) && IsArray(a)
    requires to == Sectors(d'.length) - (c - 1) * PER_ARRAY && (to < PER_ARRAY ==> a[to] == INVALID)
    requires TableAt(view', d.start) == TableAt(view0, d.start) && TableAt(view', m) == a
    ensures Marked(view', d')
  {
    hide TableAt;
    var n := Sectors(d'.length);
    assert n % PER_ARRAY != 0 ==> to == n % PER_ARRAY && n / PER_ARRAY == c - 1;
  }

  lemma SameMetas(view0: seq<Sector>, view': seq<Sector>, d: DiskInode, d': DiskInode)
    requires Sized(d) && Sized(d') && d.sizeType == HUGE && d' == d.(length := d'.length)
    requires Arrays(Sectors(d.length)) == Arrays(Sectors(d'.length))
    requires TableAt(view', d.start) == TableAt(view0, d.start)
    ensures MetaBlocks(view', d') == MetaBlocks(view0, d)
  {
    hide TableAt;
  }

  lemma HugeGrownBlock(view0: seq<Sector>, view': seq<Sector>, d: DiskInode, d': DiskInode,
                       c: nat, m: nat, a: seq<nat>, from: nat, to: nat, k: nat)
    requires Sized(d) && Sized(d') && d.sizeType == HUGE && d' == d.(length := d'.length) && d.length <= d'.length
    requires c == Arrays(Sectors(d.length)) == Arrays(Sectors(d'.length)) && c > 0
    requires m == TableAt(view0, d.start)[c - 1] && TableAt(view', d.start) == TableAt(view0, d.start)
    requires TableAt(view', m) == a && IsArray(a)
    requires from == Sectors(d.length) - (c - 1) * PER_ARRAY && to == Sectors(d'.length) - (c - 1) * PER_ARRAY
    requires 0 < from <= to <= PER_ARRAY && k < Sectors(d'.length)
    requires forall j: nat | j + 1 < c ::
                  TableAt(view', TableAt(view0, d.start)[j]) == TableAt(view0, TableAt(view0, d.start)[j])
    requires forall j :: 0 <= j < from ==> a[j] == TableAt(view0, m)[j]
    ensures |Blocks(view0, d) + a[from..to]| == Sectors(d'.length)
    ensures Block(view', d', k) == (Blocks(view0, d) + a[from..to])[k]
  {
    hide TableAt;
    if k / PER_ARRAY == c - 1 {
      assert k % PER_ARRAY == k - (c - 1) * PER_ARRAY;
    } else {
      assert k / PER_ARRAY + 1 < c && k < Sectors(d.length);
    }
  }

  // ---- reading and writing within the file ----

  /** A piece of one sector of the file is a piece of the file. */
  lemma ChunkOfContents(view: seq<Sector>, d: DiskInode, offset: nat, n: nat)
    requires Sized(d) && offset < d.length && n <= d.length - offset && n <= SECTOR_SIZE - offset % SECTOR_SIZE
    requires Block(view, d, offset / SECTOR_SIZE) < |view|
    ensures view[Block(view, d, offset / SECTOR_SIZE)][offset % SECTOR_SIZE..offset % SECTOR_SIZE + n]
         == Contents(view, d)[offset..offset + n]
  {
    var x := view[Block(view, d, offset / SECTOR_SIZE)][offset % SECTOR_SIZE..offset % SECTOR_SIZE + n];
    forall j | 0 <= j < n ensures x[j] == Contents(view, d)[offset..offset + n][j] {
      assert (offset + j) / SECTOR_SIZE == offset / SECTOR_SIZE;
      assert (offset + j) % SECTOR_SIZE == offset % SECTOR_SIZE + j;
    }
  }

  lemma OverlayMore(c: seq<Byte>, offset: nat, bytes: seq<Byte>, piece: seq<Byte>)
    requires offset + |bytes| + |piece| <= |c|
    ensures Overlay(Overlay(c, offset, bytes), offset + |bytes|, piece) == Overlay(c, offset, bytes + piece)
  {
  }

  lemma OverlayNothing(c: seq<Byte>, offset: nat)
    requires offset <= |c|
    ensures Overlay(c, offset, []) == c
  {
  }

  lemma ReadNothing(c: seq<Byte>, offset: nat)
    ensures ReadBack(c, offset, 0) == []
  {
  }

  lemma ReadMore(c: seq<Byte>, offset: nat, n: nat, k: nat)
    requires offset + n + k <= |c| && k > 0
    ensures ReadBack(c, offset, n) + c[offset + n..offset + n + k] == ReadBack(c, offset, n + k)
  {
  }

  /** Stopping early is right exactly at the end of the file. */
  lemma ReadAll(c: seq<Byte>, offset: nat, n: nat, size: nat)
    requires n <= size && (n < size ==> offset + n >= |c|)
    ensures ReadBack(c, offset, n) == ReadBack(c, offset, size)
  {
  }

  lemma KeepsSelf(view: seq<Sector>, used: seq<bool>, own: set<nat>)
    requires |view| == |used|
    ensures Keeps(view, used, view, used, own)
  {
  }

  class Inode {
    const store: Store
    const sector: nat
    var data: DiskInode
    var denyWriteCnt: nat

    ghost predicate Valid()
      reads this, store.cache.entries, store.cache.device, store.freeMap.bits
      ensures Valid() ==> Sized(data) && store.Valid() && store.freeMap.Valid()
    {
      && store.Valid() && this as object !in store.Repr()
      && WellFormed(store.View(), store.Used(), data, sector)
    }

    /** The file as a sequence of bytes. */
    ghost function File(): (c: seq<Byte>)
      requires Sized(data)
      reads this, store.cache.entries, store.cache.device
    {
      Contents(store.View(), data)
    }

    /** The sectors of the file. */
    ghost function Footprint(): set<nat>
      requires Sized(data)
      reads this, store.cache.entries, store.cache.device
    {
      Own(store.View(), data, sector)
    }

    /** inode_open of an inode that is not open yet. */
    constructor (store: Store, sector: nat)
      requires store.Valid() && sector < store.freeMap.bitCnt
      requires WellFormed(store.View(), store.Used(), DecodeInode(store.View()[sector]), sector)
      modifies store.Repr()
      ensures Valid() && this.store == store && this.sector == sector
      ensures store.View() == old(store.View()) && store.Used() == old(store.Used())
      ensures data == DecodeInode(old(store.View())[sector])
    {
      var s := store.cache.Read(sector);
      this.store, this.sector := store, sector;
      data, denyWriteCnt := DecodeInode(s), 0;
    }

    /** byte_to_sector; None is SECTOR_INVALID. */
    method ByteToSector(pos: nat) returns (s: Option<nat>)
      requires Valid()
      modifies store.cache.entries, store.cache.device
      ensures Valid() && data == old(data) && store.View() == old(store.View()) && store.Used() == old(store.Used())
      ensures s.Some? <==> pos < data.length
      ensures s.Some? ==> s.value == Block(store.View(), data, pos / SECTOR_SIZE) && s.value < store.freeMap.bitCnt
    {
      hide WellFormed, Table, Sectors;
      if pos >= data.length {
        return None;
      }
      var k := pos / SECTOR_SIZE;
      SectorInFile(pos, data.length);
      BlocksOnDisk(store.View(), store.Used(), data, sector, k);
      if data.sizeType == SMALL {
        s := Some(data.start + k);
      } else if data.sizeType == LARGE {
        var first := store.cache.Read(data.start);
        s := Some(Table(first)[k]);
      } else {
        var first := store.cache.Read(data.start);
        var second := store.cache.Read(Table(first)[k / PER_ARRAY]);
        s := Some(Table(second)[k % PER_ARRAY]);
      }
    }

    /** inode_read_at */
    method ReadAt(size: nat, offset: nat) returns (buffer: seq<Byte>)
      requires Valid()
      modifies store.cache.entries, store.cache.device
      ensures Valid() && data == old(data) && store.View() == old(store.View()) && store.Used() == old(store.Used())
      ensures buffer == ReadBack(File(), offset, size)
    {
      hide WellFormed, Contents, Block, Sized, Sectors, ReadBack;
      buffer := [];
      ghost var c := File();
      ReadNothing(c, offset);
      while |buffer| < size
        invariant Valid() && data == old(data) && store.View() == old(store.View()) && store.Used() == old(store.Used())
        invariant |buffer| <= size && (buffer != [] ==> offset + |buffer| <= data.length)
        invariant buffer == ReadBack(c, offset, |buffer|)
        decreases size - |buffer|
      {
        var at := offset + |buffer|;
        var s := ByteToSector(at);
        if s == None {
          break;
        }
        var chunk := ChunkSize(at, size - |buffer|);
        ChunkOfContents(store.View(), data, at, chunk);
        ReadMore(c, offset, |buffer|, chunk);
        var bounce := store.cache.Read(s.value);
        buffer := buffer + bounce[at % SECTOR_SIZE..at % SECTOR_SIZE + chunk];
      }
      ReadAll(c, offset, |buffer|, size);
    }

    /** How much of the `left` bytes from `at` on lies in one sector, and in the file. */
    function ChunkSize(at: nat, left: nat): (n: nat)
      requires at < data.length && left > 0
      reads this
      ensures 0 < n <= left && n <= data.length - at && n <= SECTOR_SIZE - at % SECTOR_SIZE
    {
      var inodeLeft := data.length - at;
      var sectorLeft := SECTOR_SIZE - at % SECTOR_SIZE;
      var minLeft := if inodeLeft < sectorLeft then inodeLeft else sectorLeft;
      if left < minLeft then left else minLeft
    }

    /** The loop of inode_write_at. */
    method WriteLoop(buffer: seq<Byte>, offset: nat) returns (written: nat)
      requires Valid()
      modifies store.cache.entries, store.cache.device
      ensures Valid() && data == old(data) && store.Used() == old(store.Used())
      ensures written == if offset >= data.length then 0
                         else if offset + |buffer| <= data.length then |buffer| else data.length - offset
      ensures File() == if offset > data.length then old(File()) else Overlay(old(File()), offset, buffer[..written])
      ensures Footprint() == old(Footprint())
      ensures Keeps(old(store.View()), old(store.Used()), store.View(), store.Used(), Footprint())
    {
      hide *;
      written := 0;
      ghost var c, view0, used0, own := File(), store.View(), store.Used(), Footprint();
      ghost var bytes: seq<Byte> := [];
      NothingOverlaid(offset);
      while written < |buffer|
        invariant written <= |buffer| && bytes == buffer[..written]
        invariant Overlaid(c, view0, used0, own, offset, bytes) && data == old(data)
        invariant written > 0 ==> offset + written <= data.length
        decreases |buffer| - written
      {
        var at := offset + written;
        var s := NextSector(at, c, view0, used0, own, offset, bytes);
        if s == None {
          break;
        }
        var chunk := ChunkSize(at, |buffer| - written);
        var piece := buffer[written..written + chunk];
        WriteMore(s.value, at, piece, c, view0, used0, own, offset, bytes);
        bytes := bytes + piece;
        written := written + chunk;
      }
      IsOverlaid(c, view0, used0, own, offset, bytes);
    }

    /** Since the loop began in the given state, `bytes` were written from `offset` on. */
    ghost predicate Overlaid(c: seq<Byte>, view0: seq<Sector>, used0: seq<bool>, own: set<nat>, offset: nat,
                             bytes: seq<Byte>)
      reads this, store.cache.entries, store.cache.device, store.freeMap.bits
    {
      && Valid() && store.Used() == used0 && |c| == data.length
      && (offset <= data.length ==> offset + |bytes| <= data.length)
      && File() == (if offset > data.length then c else Overlay(c, offset, bytes))
      && Footprint() == own && Keeps(view0, used0, store.View(), used0, own)
    }

    lemma NothingOverlaid(offset: nat)
      requires Valid()
      ensures Overlaid(File(), store.View(), store.Used(), Footprint(), offset, [])
    {
      if offset <= |File()| {
        OverlayNothing(File(), offset);
      }
      KeepsSelf(store.View(), store.Used(), Footprint());
    }

    lemma IsOverlaid(c: seq<Byte>, view0: seq<Sector>, used0: seq<bool>, own: set<nat>, offset: nat, bytes: seq<Byte>)
      requires Overlaid(c, view0, used0, own, offset, bytes)
      ensures Valid() && store.Used() == used0 && |c| == data.length
      ensures offset <= data.length ==> offset + |bytes| <= data.length
      ensures File() == if offset > data.length then c else Overlay(c, offset, bytes)
      ensures Footprint() == own && Keeps(view0, used0, store.View(), used0, own)
    {
    }

    method NextSector(at: nat, ghost c: seq<Byte>, ghost view0: seq<Sector>, ghost used0: seq<bool>,
                      ghost own: set<nat>,
                      ghost offset: nat, ghost bytes: seq<Byte>) returns (s: Option<nat>)
      requires Overlaid(c, view0, used0, own, offset, bytes)
      modifies store.cache.entries, store.cache.device
      ensures Overlaid(c, view0, used0, own, offset, bytes) && data == old(data)
      ensures s.Some? <==> at < data.length
      ensures s.Some? ==> Sized(data) && at / SECTOR_SIZE < Sectors(data.length)
      ensures s.Some? ==> s.value == Block(store.View(), data, at / SECTOR_SIZE)
    {
      s := ByteToSector(at);
    }

    method WriteMore(s: nat, at: nat, piece: seq<Byte>, ghost c: seq<Byte>, ghost view0: seq<Sector>,
                     ghost used0: seq<bool>,
                     ghost own: set<nat>, ghost offset: nat, ghost bytes: seq<Byte>)
      requires Overlaid(c, view0, used0, own, offset, bytes) && at == offset + |bytes| && Sized(data)
      requires at < data.length && at + |piece| <= data.length && |piece| <= SECTOR_SIZE - at % SECTOR_SIZE
      requires at / SECTOR_SIZE < Sectors(data.length) && s == Block(store.View(), data, at / SECTOR_SIZE)
      modifies store.cache.entries, store.cache.device
      ensures Overlaid(c, view0, used0, own, offset, bytes + piece) && data == old(data)
    {
      ghost var view1 := store.View();
      OverlayMore(c, offset, bytes, piece);
      hide WellFormed, Contents, Overlay, Own, Block, Keeps, Sized, Sectors;
      WriteChunk(s, at, piece);
      KeepsTransitive(view0, used0, view1, used0, store.View(), used0, own, own);
    }

    /** bcache_write_at of bytes that lie in one sector, `s`, of the file. */
    method WriteChunk(s: nat, at: nat, bytes: seq<Byte>)
      requires Valid() && at + |bytes| <= data.length && |bytes| <= SECTOR_SIZE - at % SECTOR_SIZE
      requires at < data.length && s == Block(store.View(), data, at / SECTOR_SIZE)
      modifies store.cache.entries, store.cache.device
      ensures Valid() && data == old(data) && store.Used() == old(store.Used())
      ensures File() == Overlay(old(File()), at, bytes) && Footprint() == old(Footprint())
      ensures Keeps(old(store.View()), old(store.Used()), store.View(), store.Used(), Footprint())
    {
      DataWrite(store.View(), store.Used(), data, sector, at / SECTOR_SIZE, at % SECTOR_SIZE, bytes);
      hide WellFormed, Contents, Overlay, Own, Patch, Block, Keeps;
      store.cache.WriteAt(s, bytes, at % SECTOR_SIZE);
    }

    // ---- growth ----

    /** The file grew by zeros, and only its own sectors and unallocated ones were written. */
    ghost predicate Extended(c: seq<Byte>, newSize: nat, view0: seq<Sector>, used0: seq<bool>, own: set<nat>)
      reads this, store.cache.entries, store.cache.device, store.freeMap.bits
    {
      && Valid() && data.length == newSize && File() == Extend(c, newSize)
      && Keeps(view0, used0, store.View(), store.Used(), own) && OwnGrows(used0, own, Footprint())
      && OwnsNew(used0, store.Used(), Footprint())
    }

    /** The inode is that of a new file of zeros, whose other sectors were unallocated. */
    ghost predicate Replaced(newSize: nat, view0: seq<Sector>, used0: seq<bool>)
      reads this, store.cache.entries, store.cache.device, store.freeMap.bits
    {
      && Valid() && data.length == newSize && File() == Fill(newSize, 0)
      && Keeps(view0, used0, store.View(), store.Used(), {sector})
      && OwnGrows(used0, {sector}, Footprint()) && OwnsNew(used0, store.Used(), Footprint())
    }

    ghost predicate Unchanged(c: seq<Byte>, d: DiskInode)
      reads this, store.cache.entries, store.cache.device, store.freeMap.bits
    {
      Valid() && data == d && File() == c
    }

    method ReadTable(s: nat) returns (a: seq<nat>)
      requires store.Valid() && s < store.freeMap.bitCnt
      modifies store.cache.entries, store.cache.device
      ensures store.Valid() && store.View() == old(store.View()) && store.Used() == old(store.Used())
      ensures IsArray(a) && a == TableAt(store.View(), s)
    {
      var x := store.cache.Read(s);
      a := Table(x);
    }

    /** inode_expand_sectors of a large inode within its array. */
    method GrowLarge(newSize: nat) returns (ok: bool)
      requires Valid() && data.sizeType == LARGE && data.length < newSize <= OFF_MAX && Sectors(newSize) <= PER_ARRAY
      modifies this`data, store.Repr()
      ensures store.Valid() && data == old(data).(length := newSize)
      ensures ok <==> |Free(old(store.Used()))| >= Sectors(newSize) - Sectors(old(data).length)
      ensures ok ==> Extended(old(File()), newSize, old(store.View()), old(store.Used()), old(Footprint()))
    {
      ghost var view0, used0, d, c, own := store.View(), store.Used(), data, File(), Footprint();
      MonotoneSectors(data.length, newSize);
      InodeSector(view0, used0, d, sector);
      var numOri := Sectors(data.length);
      data := data.(length := newSize);
      var numNew := Sectors(newSize);
      assert Sized(data);
      hide WellFormed, Contents, Keeps, Own, Sectors, Extended, Sized, Free, OwnsNew;
      if numOri == numNew {
        WriteLength(d);
        ok := true;
      } else {
        ok := GrowArray(numOri, numNew, d);
      }
      if ok {
        IsExtended(c, newSize, view0, used0, own);
      }
    }

    lemma IsExtended(c: seq<Byte>, newSize: nat, view0: seq<Sector>, used0: seq<bool>, own: set<nat>)
      requires Valid() && data.length == newSize && File() == Extend(c, newSize)
      requires Keeps(view0, used0, store.View(), store.Used(), own) && OwnGrows(used0, own, Footprint())
      requires OwnsNew(used0, store.Used(), Footprint())
      ensures Extended(c, newSize, view0, used0, own)
    {
    }

    /** The file grows within its last sector: only the inode changes. */
    method WriteLength(ghost d: DiskInode)
      requires store.Valid() && this as object !in store.Repr() && WellFormed(store.View(), store.Used(), d, sector)
      requires data == d.(length := data.length) && d.length <= data.length <= OFF_MAX
      requires Sectors(d.length) == Sectors(data.length)
      modifies store.Repr()
      ensures Valid()
      ensures File() == Extend(Contents(old(store.View()), d), data.length)
      ensures Keeps(old(store.View()), old(store.Used()), store.View(), store.Used(), Own(old(store.View()), d, sector))
      ensures OwnGrows(old(store.Used()), Own(old(store.View()), d, sector), Footprint())
      ensures OwnsNew(old(store.Used()), store.Used(), Footprint())
    {
      SameCountGrown(store.View(), store.Used(), d, sector, data);
      InodeSector(store.View(), store.Used(), d, sector);
      hide *;
      store.WriteSector(sector, EncodeInode(data));
    }

    method GrowArray(numOri: nat, numNew: nat, ghost d: DiskInode) returns (ok: bool)
      requires store.Valid() && this as object !in store.Repr() && WellFormed(store.View(), store.Used(), d, sector)
      requires d.sizeType == LARGE && data == d.(length := data.length) && d.length <= data.length <= OFF_MAX
      requires numOri == Sectors(d.length) < numNew == Sectors(data.length) <= PER_ARRAY
      modifies store.Repr()
      ensures store.Valid() && (ok ==> Valid())
      ensures ok ==> File() == Extend(Contents(old(store.View()), d), data.length)
      ensures ok ==> Keeps(old(store.View()), old(store.Used()), store.View(), store.Used(),
              Own(old(store.View()), d, sector))
      ensures ok ==> OwnGrows(old(store.Used()), Own(old(store.View()), d, sector), Footprint())
      ensures ok ==> OwnsNew(old(store.Used()), store.Used(), Footprint())
      ensures ok <==> |Free(old(store.Used()))| >= Sectors(data.length) - Sectors(d.length)
    {
      ghost var view0, used0 := store.View(), store.Used();
      OnDisk(view0, used0, d, sector);
      var table := ReadTable(data.start);
      // the marker that the code asserts
      assert numOri == PER_ARRAY || table[numOri] == INVALID;
      assert store.View() == view0 && store.Used() == used0;
      assert Sized(data) && Sized(d);
      hide WellFormed, Sectors, Sized, Free;
      ghost var alloc;
      ok, table, alloc := store.FillArray(table, numOri, numNew);
      if !ok {
        return;
      }
      if numNew < PER_ARRAY {
        FilledMarker(store.View(), table, numOri, numNew, alloc, INVALID);
        table := table[numNew := INVALID];
      }
      ghost var view := store.View();
      LargeGrown(view0, used0, d, sector, view, store.Used(), table, alloc, data);
      hide *;
      store.WriteSector(data.start, EncodeTable(table));
      store.WriteSector(sector, EncodeInode(data));
      FinishIs(view, data.start, table, sector, data);
    }

    /** inode_expand_sectors of a huge inode within its last second-level array. */
    method GrowHuge(newSize: nat) returns (ok: bool)
      requires Valid() && data.sizeType == HUGE && data.length < newSize <= OFF_MAX
      requires Arrays(Sectors(newSize)) == Arrays(Sectors(data.length))
      modifies this`data, store.Repr()
      ensures store.Valid() && data == old(data).(length := newSize)
      ensures ok <==> |Free(old(store.Used()))| >= Sectors(newSize) - Sectors(old(data).length)
      ensures ok ==> Extended(old(File()), newSize, old(store.View()), old(store.Used()), old(Footprint()))
    {
      hide WellFormed, Contents, Keeps, Own, Extended, Free, OwnsNew, Sectors, Arrays, Sized;
      SizedNow(store.View(), store.Used(), data, sector, newSize);
      ghost var view0, used0, d, c, own := store.View(), store.Used(), data, File(), Footprint();
      var numOri := Sectors(data.length);
      data := data.(length := newSize);
      var numNew := Sectors(newSize);
      var cnt1 := Arrays(numOri);
      var ori := if numOri % PER_ARRAY == 0 then PER_ARRAY else numOri % PER_ARRAY;
      var new2 := if numNew % PER_ARRAY == 0 then PER_ARRAY else numNew % PER_ARRAY;
      if numOri == numNew {
        WriteLength(d);
        ok := true;
      } else {
        LastCounts(d.length, newSize, cnt1, ori, new2);
        // the assertion of the code
        assert new2 != ori;
        hide *;
        ok := GrowLastArray(cnt1, ori, new2, d);
      }
      if ok {
        IsExtended(c, newSize, view0, used0, own);
      }
    }

    method GrowLastArray(cnt1: nat, ori: nat, new2: nat, ghost d: DiskInode) returns (ok: bool)
      requires store.Valid() && this as object !in store.Repr() && WellFormed(store.View(), store.Used(), d, sector)
      requires d.sizeType == HUGE && data == d.(length := data.length) && d.length <= data.length <= OFF_MAX
      requires cnt1 == Arrays(Sectors(d.length)) == Arrays(Sectors(data.length)) && 0 < cnt1 <= PER_ARRAY
      requires ori == Sectors(d.length) - (cnt1 - 1) * PER_ARRAY &&
               new2 == Sectors(data.length) - (cnt1 - 1) * PER_ARRAY
      requires 0 < ori <= new2 <= PER_ARRAY
      modifies store.Repr()
      ensures store.Valid() && (ok ==> Valid())
      ensures ok ==> File() == Extend(Contents(old(store.View()), d), data.length)
      ensures ok ==> Keeps(old(store.View()), old(store.Used()), store.View(), store.Used(),
              Own(old(store.View()), d, sector))
      ensures ok ==> OwnGrows(old(store.Used()), Own(old(store.View()), d, sector), Footprint())
      ensures ok ==> OwnsNew(old(store.Used()), store.Used(), Footprint())
      ensures ok <==> |Free(old(store.Used()))| >= Sectors(data.length) - Sectors(d.length)
    {
      hide WellFormed, Sectors, Arrays, Sized, Contents, Own, Keeps, OwnGrows, Extend, Free, OwnsNew;
      ghost var view0, used0 := store.View(), store.Used();
      OnDisk(view0, used0, d, sector);
      SizedBoth(view0, used0, d, data, sector, cnt1);
      var first := ReadTable(data.start);
      var m := first[cnt1 - 1];
      var second := ReadTable(m);
      assert store.View() == view0 && store.Used() == used0;
      ghost var alloc;
      ok, second, alloc := store.FillArray(second, ori, new2);
      if !ok {
        return;
      }
      if new2 < PER_ARRAY {
        FilledMarker(store.View(), second, ori, new2, alloc, INVALID);
        second := second[new2 := INVALID];
      }
      ghost var view := store.View();
      HugeGrown(view0, used0, d, sector, view, store.Used(), cnt1, m, second, ori, new2, alloc, data);
      hide *;
      store.WriteSector(m, EncodeTable(second));
      store.WriteSector(sector, EncodeInode(data));
      FinishIs(view, m, second, sector, data);
    }

    /** What a growing file keeps beside its contents. */
    static predicate SameKind(d: DiskInode, d': DiskInode) {
      d'.funcType == d.funcType && d'.parent == d.parent
    }

    /** inode_expand_is_destructive */
    predicate Destructive(newSize: nat)
      reads this
    {
      data.sizeType == SMALL || (data.sizeType == LARGE && newSize > PER_ARRAY * SECTOR_SIZE)
    }

    /** inode_expand_sectors where the type changes: a new file of zeros is created over the
        inode's sector, and the inode read again.  `complete` is that of CreateHuge. */
    method Recreate(newSize: nat) returns (ok: bool, complete: bool)
      requires Valid() && 0 < newSize <= OFF_MAX
      modifies this`data, store.Repr()
      ensures store.Valid() && (!complete ==> ok)
      ensures Sectors(newSize) > HUGE_SECTORS ==> !ok || !complete
      ensures !complete ==> DiskFull(old(store.Used())) || Sectors(newSize) > HUGE_SECTORS
      ensures ok && complete ==> Replaced(newSize, old(store.View()), old(store.Used())) && SameKind(old(data), data)
      ensures !ok ==> Unchanged(old(File()), old(data))
      ensures ok && complete <==> Sectors(newSize) <= HUGE_SECTORS && EnoughBigger(old(store.Used()), newSize)
    {
      hide WellFormed, Contents, Keeps, Own, Created, Replaced, Unchanged, Sectors, Recreated, DiskFull, EnoughBigger;
      ghost var view0, used0, c, d := store.View(), store.Used(), File(), data;
      InodeSector(view0, used0, data, sector);
      ok, complete := store.CreateBigger(sector, newSize, data.funcType, data.parent);
      if !ok {
        OtherFile(view0, used0, store.View(), store.Used(), {}, data, sector);
        IsUnchanged(c, d);
      } else if complete {
        IsCreated(newSize, view0, used0, if newSize > PER_ARRAY * SECTOR_SIZE then HUGE else LARGE, d);
        var x := store.cache.Read(sector);
        data := DecodeInode(x);
        IsReplaced(newSize, view0, used0);
      }
    }

    lemma IsUnchanged(c: seq<Byte>, d: DiskInode)
      requires Valid() && data == d && File() == c
      ensures Unchanged(c, d)
    {
    }

    /** What Created says once the inode is read again. */
    ghost predicate Recreated(newSize: nat, view0: seq<Sector>, used0: seq<bool>, view: seq<Sector>, used: seq<bool>,
                              d: DiskInode) {
      && WellFormed(view, used, d, sector) && d.length == newSize && Contents(view, d) == Fill(newSize, 0)
      && Keeps(view0, used0, view, used, {sector})
      && OwnGrows(used0, {sector}, Own(view, d, sector)) && OwnsNew(used0, used, Own(view, d, sector))
    }

    lemma IsCreated(newSize: nat, view0: seq<Sector>, used0: seq<bool>, sizeType: Byte, d: DiskInode)
      requires store.Valid()
      requires Created(view0, used0, store.View(), store.Used(), sector, newSize, sizeType, d.funcType, d.parent)
      ensures sector < |store.View()|
      ensures Recreated(newSize, view0, used0, store.View(), store.Used(), DecodeInode(store.View()[sector]))
      ensures SameKind(d, DecodeInode(store.View()[sector]))
    {
    }

    lemma IsReplaced(newSize: nat, view0: seq<Sector>, used0: seq<bool>)
      requires store.Valid() && this as object !in store.Repr()
      requires Recreated(newSize, view0, used0, store.View(), store.Used(), data)
      ensures Replaced(newSize, view0, used0)
    {
    }

    /** inode_expand_sectors */
    method ExpandSectors(newSize: nat) returns (ok: bool, complete: bool, destructive: bool)
      requires Valid() && data.length < newSize && Growable(data, newSize)
      modifies this`data, store.Repr()
      ensures store.Valid() && (!complete ==> ok)
      ensures Sectors(newSize) > HUGE_SECTORS ==> !ok || !complete
      ensures !complete ==>
                    DiskFull(old(store.Used())) || (old(data).sizeType == LARGE && Sectors(newSize) > HUGE_SECTORS)
      ensures ok && complete ==> destructive == old(Destructive(newSize))
      ensures ok && complete ==>
                if destructive then Replaced(newSize, old(store.View()), old(store.Used()))
                else Extended(old(File()), newSize, old(store.View()), old(store.Used()), old(Footprint()))
      ensures ok && complete ==> SameKind(old(data), data)
      ensures ok && complete <==> EnoughToGrow(old(data), old(store.Used()), newSize)
      ensures !ok && old(Destructive(newSize)) ==> Unchanged(old(File()), old(data))
    {
      InodeSector(store.View(), store.Used(), data, sector);
      SizeBounds(newSize);
      assert Unchanged(File(), data);
      hide WellFormed, Contents, Keeps, Own, Sectors, Arrays, Extended, Replaced, Unchanged, Free, EnoughBigger;
      complete, destructive := true, false;
      if data.sizeType == SMALL {
        if newSize > HUGE_SECTORS * SECTOR_SIZE {
          return false, true, false;
        }
        destructive := true;
        ok, complete := Recreate(newSize);
      } else if data.sizeType == LARGE {
        if newSize > PER_ARRAY * SECTOR_SIZE {
          destructive := true;
          ok, complete := Recreate(newSize);
        } else {
          ok := GrowLarge(newSize);
        }
      } else {
        if newSize > HUGE_SECTORS * SECTOR_SIZE {
          return false, true, false;
        }
        ok := GrowHuge(newSize);
      }
    }

    /** inode_expand.  With an empty file it reports success whatever happened; the file is then
        still empty. */
    method Expand(newSize: nat) returns (ok: bool, complete: bool)
      requires Valid() && data.length < newSize && Growable(data, newSize) && denyWriteCnt == 0
      modifies this`data, store.Repr()
      ensures store.Valid()
      ensures !complete ==>
                    DiskFull(old(store.Used())) || (old(data).sizeType == LARGE && Sectors(newSize) > HUGE_SECTORS)
      ensures Sectors(newSize) > HUGE_SECTORS && old(data).length > 0 ==> !ok || !complete
      ensures ok && complete ==>
                    Extended(old(File()), newSize, old(store.View()), old(store.Used()), old(Footprint())) ||
                    (old(data).length == 0 && Unchanged(old(File()), old(data)))
      ensures ok && complete ==> SameKind(old(data), data)
      ensures ok && complete && data.length == newSize <==> EnoughToGrow(old(data), old(store.Used()), newSize)
      ensures !ok && old(Destructive(newSize)) ==> Unchanged(old(File()), old(data))
    {
      ghost var view0, used0, c, own, d := store.View(), store.Used(), File(), Footprint(), data;
      InodeSector(view0, used0, data, sector);
      EmptyIsSmall(view0, used0, data, sector);
      hide WellFormed, Contents, Keeps, Own, Extended, Replaced, Unchanged, Sectors, Arrays, EnoughToGrow, OwnsNew;
      var destructiveReal;
      var originalLength := data.length;
      if originalLength == 0 {
        ok, complete, destructiveReal := ExpandSectors(newSize);
        if ok && complete && destructiveReal {
          EmptyExtended(newSize, view0, used0, own);
        }
        return true, complete;
      }
      var destructive := Destructive(newSize);
      if destructive {
        var original := ReadAt(originalLength, 0);
        ReadWhole(c);
        ok, complete, destructiveReal := ExpandSectors(newSize);
        if !ok || !complete {
          return;
        }
        assert destructive == destructiveReal;
        ghost var view1, used1 := store.View(), store.Used();
        FromReplaced(newSize, view0, used0);
        ghost var own1 := Footprint();
        var written := WriteLoop(original, 0);
        WholeRestored(c, newSize, view0, used0, own, view1, used1, own1);
        if written != originalLength {
          ok := false;
        }
      } else {
        ok, complete, destructiveReal := ExpandSectors(newSize);
        assert ok && complete ==> destructive == destructiveReal;
      }
    }

    lemma EmptyExtended(newSize: nat, view0: seq<Sector>, used0: seq<bool>, own: set<nat>)
      requires Replaced(newSize, view0, used0) && sector in own
      ensures Extended([], newSize, view0, used0, own)
    {
    }

    lemma FromReplaced(newSize: nat, view0: seq<Sector>, used0: seq<bool>)
      requires Replaced(newSize, view0, used0)
      ensures Valid() && data.length == newSize && File() == Fill(newSize, 0)
      ensures Keeps(view0, used0, store.View(), store.Used(), {sector})
      ensures OwnGrows(used0, {sector}, Footprint()) && OwnsNew(used0, store.Used(), Footprint())
    {
    }

    lemma WholeRestored(c: seq<Byte>, newSize: nat, view0: seq<Sector>, used0: seq<bool>, own: set<nat>,
                        view1: seq<Sector>, used1: seq<bool>, own1: set<nat>)
      requires Valid() && |c| <= newSize == data.length && store.Used() == used1 && sector in own
      requires File() == Overlay(Fill(newSize, 0), 0, c[..|c|])
      requires Keeps(view0, used0, view1, used1, {sector}) && Keeps(view1, used1, store.View(), used1, own1)
      requires OwnGrows(used0, {sector}, own1) && own1 == Footprint() && OwnsNew(used0, used1, own1)
      ensures Extended(c, newSize, view0, used0, own)
    {
      hide WellFormed, Contents, Own, Overlay, Extend, Sized;
      RestoredBytes(c, newSize);
      KeepsMore(view0, used0, view1, used1, {sector}, own);
      KeepsTransitive(view0, used0, view1, used1, store.View(), used1, own, own1);
      hide Keeps;
    }

    /** inode_write_at.  `grown` says that the file needed no growth or that growth succeeded; then
        every byte is written.  Otherwise nothing is, and unless the growth was in place the file
        is as it was.  `complete` is false only where the code goes wrong: when a file is to be made huge
        and no sector can be allocated, or when a large file is to have more than HUGE_SECTORS sectors. */
    method WriteAt(buffer: seq<Byte>, offset: nat) returns (written: nat, complete: bool, grown: bool)
      requires Valid() && Growable(data, offset + |buffer|)
      modifies this`data, store.Repr()
      ensures store.Valid()
      ensures denyWriteCnt > 0 ==> written == 0 && !grown && Unchanged(old(File()), old(data))
      ensures grown <==>
                denyWriteCnt == 0 &&
                (offset + |buffer| <= old(data).length ||
                 EnoughToGrow(old(data), old(store.Used()), offset + |buffer|))
      ensures grown ==>
                    complete && Valid() && written == |buffer| &&
                    File() == InodeLayout.Written(old(File()), offset, buffer)
      ensures grown ==> Keeps(old(store.View()), old(store.Used()), store.View(), store.Used(), old(Footprint()))
      ensures grown ==> OwnsNew(old(store.Used()), store.Used(), Footprint()) && SameKind(old(data), data)
      ensures !grown ==> written == 0
      ensures !complete ==>
                    DiskFull(old(store.Used())) || (old(data).sizeType == LARGE &&
                    Sectors(offset + |buffer|) > HUGE_SECTORS)
      ensures Sectors(offset + |buffer|) > HUGE_SECTORS && 0 < old(data).length < offset + |buffer| ==> !grown
      ensures !grown && complete && old(Destructive(offset + |buffer|)) ==> Unchanged(old(File()), old(data))
    {
      hide WellFormed, Contents, Keeps, Own, OwnGrows, Extended, Unchanged, Ready, Sectors, Arrays, Written, Sized,
          OwnsNew, EnoughToGrow;
      ghost var view0, used0, c, own, d := store.View(), store.Used(), File(), Footprint(), data;
      IsUnchanged(c, d);
      if denyWriteCnt > 0 {
        return 0, true, false;
      }
      complete := true;
      var expanded := true;
      if offset + |buffer| > data.length {
        var ok;
        ok, complete := Expand(offset + |buffer|);
        if !ok || !complete {
          return 0, complete, false;
        }
        expanded := data.length > 0;
        AfterGrowth(c, d, offset + |buffer|, view0, used0, own);
      } else {
        NoGrowth(offset + |buffer|);
      }
      grown := expanded;
      if expanded {
        written := WriteGrown(buffer, offset, c, view0, used0, own);
      } else {
        written := WriteEmpty(buffer, offset, c, d);
      }
    }

    /** A run of writes to an empty file, up to the first that is outside of the contracts or for which
        the file cannot grow; the first is made exactly when there is room for it. */
    method WriteAll(ws: seq<Write>) returns (done: nat)
      requires Valid() && File() == [] && denyWriteCnt == 0
      modifies this`data, store.Repr()
      ensures done <= |ws| && (done == |ws| ==> Valid() && File() == After(ws))
      ensures ws != [] ==>
                (done > 0 <==> RoomFor(old(data), old(store.Used()), ws[0].offset + |ws[0].data|))
    {
      hide WellFormed, Contents, Keeps, Own, Written, Destructive, Unchanged, EnoughToGrow;
      done := 0;
      while done < |ws|
        invariant done <= |ws| && Valid() && File() == After(ws[..done]) && denyWriteCnt == 0
        invariant done == 0 ==> data == old(data) && store.Used() == old(store.Used())
        invariant done > 0 ==> RoomFor(old(data), old(store.Used()), ws[0].offset + |ws[0].data|)
      {
        var w := ws[done];
        if !Growable(data, w.offset + |w.data|) {
          return;
        }
        var written, complete, grown := WriteAt(w.data, w.offset);
        if !grown {
          return;
        }
        AfterOne(ws, done);
        done := done + 1;
      }
      assert ws[..|ws|] == ws;
    }

    /** Whatever the run of writes, if all of them succeed then a read gives the byte that was written
        last at each place, zero where none was, and nothing past the farthest end. */
    method ReadAfterAll(ws: seq<Write>, size: nat, offset: nat) returns (done: nat, r: seq<Byte>)
      requires Valid() && File() == [] && denyWriteCnt == 0
      modifies this`data, store.Repr()
      ensures done == |ws| ==>
                && |r| == (if offset >= FarthestEnd(ws) then 0
                           else if offset + size <= FarthestEnd(ws) then size else FarthestEnd(ws) - offset)
                && forall i :: 0 <= i < |r| ==> r[i] == LastWritten(ws, offset + i)
    {
      hide WellFormed, Contents, Keeps, Own, ReadBack, After;
      r := [];
      done := WriteAll(ws);
      if done == |ws| {
        r := ReadAt(size, offset);
        ReadAfterWrites(ws, offset, size);
      }
    }

    /** The file is as long as it must be for a write that ends at n. */
    ghost predicate Ready(c: seq<Byte>, n: nat, view0: seq<Sector>, used0: seq<bool>, own: set<nat>)
      reads this, store.cache.entries, store.cache.device, store.freeMap.bits
    {
      && Valid() && n <= data.length && File() == Extend(c, n)
      && Keeps(view0, used0, store.View(), store.Used(), own) && OwnGrows(used0, own, Footprint())
      && OwnsNew(used0, store.Used(), Footprint())
    }

    lemma NoGrowth(n: nat)
      requires Valid() && n <= data.length
      ensures Ready(File(), n, store.View(), store.Used(), Footprint())
    {
    }

    lemma AfterGrowth(c: seq<Byte>, d: DiskInode, n: nat, view0: seq<Sector>, used0: seq<bool>, own: set<nat>)
      requires n > 0
      requires Extended(c, n, view0, used0, own) || (d.length == 0 && Unchanged(c, d))
      ensures data.length > 0 ==> Ready(c, n, view0, used0, own) && data.length == n
      ensures data.length == 0 ==> d.length == 0 && Unchanged(c, d)
    {
    }

    method WriteGrown(buffer: seq<Byte>, offset: nat, ghost c: seq<Byte>, ghost view0: seq<Sector>,
                      ghost used0: seq<bool>,
                      ghost own: set<nat>) returns (written: nat)
      requires Ready(c, offset + |buffer|, view0, used0, own)
      modifies store.cache.entries, store.cache.device
      ensures Valid() && data == old(data) && written == |buffer|
      ensures File() == InodeLayout.Written(c, offset, buffer)
      ensures Keeps(view0, used0, store.View(), store.Used(), own) && OwnsNew(used0, store.Used(), Footprint())
    {
      ghost var view1, used1, own1 := store.View(), store.Used(), Footprint();
      hide WellFormed, Contents, Keeps, Own, OwnGrows, Sectors, Overlay, Extend, OwnsNew;
      WholeBuffer(buffer);
      written := WriteLoop(buffer, offset);
      KeepsTransitive(view0, used0, view1, used1, store.View(), used1, own, own1);
    }

    /** The growth of an empty file failed unnoticed: the first look-up of a sector ends the loop. */
    method WriteEmpty(buffer: seq<Byte>, offset: nat, ghost c: seq<Byte>, ghost d: DiskInode) returns (written: nat)
      requires Unchanged(c, d) && d.length == 0
      modifies store.cache.entries, store.cache.device
      ensures written == 0 && store.Valid() && Unchanged(c, d)
    {
      OverlayNothing([], 0);
      written := WriteLoop(buffer, offset);
    }
  }

  lemma WholeBuffer(buffer: seq<Byte>)
    ensures buffer[..|buffer|] == buffer
  {
  }

  lemma RestoredBytes(c: seq<Byte>, n: nat)
    requires |c| <= n
    ensures Overlay(Fill(n, 0), 0, c[..|c|]) == Extend(c, n)
  {
  }

  lemma KeepsMore(view0: seq<Sector>, used0: seq<bool>, view: seq<Sector>, used: seq<bool>, own: set<nat>,
                  own': set<nat>)
    requires Keeps(view0, used0, view, used, own) && own <= own'
    ensures Keeps(view0, used0, view, used, own')
  {
  }

  lemma EmptyIsSmall(view: seq<Sector>, used: seq<bool>, d: DiskInode, sector: nat)
    requires WellFormed(view, used, d, sector)
    ensures d.length == 0 ==> d.sizeType == SMALL && Contents(view, d) == []
  {
  }

  lemma ReadWhole(c: seq<Byte>)
    ensures ReadBack(c, 0, |c|) == c && c[..|c|] == c
  {
  }

  lemma InodeSector(view: seq<Sector>, used: seq<bool>, d: DiskInode, sector: nat)
    requires WellFormed(view, used, d, sector)
    ensures |view| == |used| < INVALID && sector < |view| && used[sector] && d.parent < WORD
    ensures d.sizeType == SMALL || d.sizeType == LARGE || d.sizeType == HUGE
    ensures sector in Own(view, d, sector)
    ensures Own(view, d, sector) !! {}
  {
  }

  lemma SizeBounds(n: nat)
    ensures Sectors(n) <= PER_ARRAY <==> n <= PER_ARRAY * SECTOR_SIZE
    ensures Sectors(n) <= HUGE_SECTORS <==> n <= HUGE_SECTORS * SECTOR_SIZE
  {
  }

  lemma SectorInFile(pos: nat, length: nat)
    requires pos < length
    ensures pos / SECTOR_SIZE < Sectors(length)
  {
  }

  lemma SizedBoth(view: seq<Sector>, used: seq<bool>, d: DiskInode, d': DiskInode, sector: nat, cnt1: nat)
    requires WellFormed(view, used, d, sector) && d.sizeType == HUGE && d' == d.(length := d'.length)
    requires d.length <= d'.length <= OFF_MAX && cnt1 == Arrays(Sectors(d'.length)) <= PER_ARRAY
    ensures Sized(d) && Sized(d') && Encodable(d')
  {
  }

  lemma OnDisk(view: seq<Sector>, used: seq<bool>, d: DiskInode, sector: nat)
    requires WellFormed(view, used, d, sector)
    ensures sector < |view|
    ensures d.sizeType != SMALL ==> d.start < |view|
    ensures d.sizeType == HUGE && Arrays(Sectors(d.length)) > 0 ==>
              TableAt(view, d.start)[Arrays(Sectors(d.length)) - 1] < |view|
  {
    if d.sizeType != SMALL {
      assert MetaBlocks(view, d)[0] in MetaBlocks(view, d);
    }
    if d.sizeType == HUGE && Arrays(Sectors(d.length)) > 0 {
      LastArray(view, d, Arrays(Sectors(d.length)));
    }
  }

  lemma SizedNow(view: seq<Sector>, used: seq<bool>, d: DiskInode, sector: nat, newSize: nat)
    requires WellFormed(view, used, d, sector) && d.sizeType == HUGE && d.length < newSize <= OFF_MAX
    requires Arrays(Sectors(newSize)) == Arrays(Sectors(d.length))
    ensures Sized(d) && Sized(d.(length := newSize)) && Encodable(d) && Encodable(d.(length := newSize))
    ensures Sectors(newSize) <= HUGE_SECTORS && |view| == |used|
  {
  }

  lemma LastCounts(length: nat, newSize: nat, c: nat, from: nat, to: nat)
    requires length < newSize && Sectors(length) != Sectors(newSize)
    requires c == Arrays(Sectors(length)) == Arrays(Sectors(newSize)) && Sectors(newSize) <= HUGE_SECTORS
    requires from == if Sectors(length) % PER_ARRAY == 0 then PER_ARRAY else Sectors(length) % PER_ARRAY
    requires to == if Sectors(newSize) % PER_ARRAY == 0 then PER_ARRAY else Sectors(newSize) % PER_ARRAY
    ensures 0 < c <= PER_ARRAY && 0 < from < to <= PER_ARRAY
    ensures from == Sectors(length) - (c - 1) * PER_ARRAY && to == Sectors(newSize) - (c - 1) * PER_ARRAY
  {
  }

  lemma BlocksOnDisk(view: seq<Sector>, used: seq<bool>, d: DiskInode, sector: nat, k: nat)
    requires WellFormed(view, used, d, sector) && k < Sectors(d.length)
    ensures Block(view, d, k) < |view| && (d.sizeType == SMALL || d.sizeType == LARGE || d.sizeType == HUGE)
    ensures d.sizeType != SMALL ==> d.start < |view|
    ensures d.sizeType == HUGE ==> TableAt(view, d.start)[k / PER_ARRAY] < |view|
  {
    assert Blocks(view, d)[k] in Blocks(view, d);
    if d.sizeType != SMALL {
      assert MetaBlocks(view, d)[0] in MetaBlocks(view, d);
    }
    if d.sizeType == HUGE {
      assert MetaBlocks(view, d)[1 + k / PER_ARRAY] in MetaBlocks(view, d);
    }
  }

  // ---- runs of writes ----

  datatype Write = Write(offset: nat, data: seq<Byte>)

  /** The file after a run of writes into an empty one, as WriteAt makes it. */
  function After(ws: seq<Write>): seq<Byte> {
    if ws == [] then [] else Written(After(ws[..|ws| - 1]), ws[|ws| - 1].offset, ws[|ws| - 1].data)
  }

  lemma AfterOne(ws: seq<Write>, i: nat)
    requires i < |ws|
    ensures After(ws[..i + 1]) == Written(After(ws[..i]), ws[i].offset, ws[i].data)
  {
    assert ws[..i + 1][..i] == ws[..i];
  }

  /** The byte that the last write to cover a place left there; zero if none did. */
  function LastWritten(ws: seq<Write>, i: nat): Byte {
    if ws == [] then 0
    else
      var w := ws[|ws| - 1];
      if w.offset <= i < w.offset + |w.data| then w.data[i - w.offset] else LastWritten(ws[..|ws| - 1], i)
  }

  function FarthestEnd(ws: seq<Write>): nat {
    if ws == [] then 0
    else
      var end := ws[|ws| - 1].offset + |ws[|ws| - 1].data|;
      var before := FarthestEnd(ws[..|ws| - 1]);
      if end > before then end else before
  }

  /** Reading after any run of writes gives the last bytes written, zeros in the gaps, and nothing
      past the farthest end. */
  lemma {:induction false} ReadAfterWrites(ws: seq<Write>, offset: nat, size: nat)
    ensures |After(ws)| == FarthestEnd(ws)
    ensures var r := ReadBack(After(ws), offset, size);
            && |r| == (if offset >= FarthestEnd(ws) then 0
                       else if offset + size <= FarthestEnd(ws) then size else FarthestEnd(ws) - offset)
            && forall i :: 0 <= i < |r| ==> r[i] == LastWritten(ws, offset + i)
  {
    AfterIs(ws);
    var r := ReadBack(After(ws), offset, size);
    forall i | 0 <= i < |r| ensures r[i] == LastWritten(ws, offset + i) {
      assert r[i] == After(ws)[offset + i];
    }
  }

  lemma {:induction false} AfterIs(ws: seq<Write>)
    ensures |After(ws)| == FarthestEnd(ws)
    ensures forall i: nat | i < FarthestEnd(ws) :: After(ws)[i] == LastWritten(ws, i)
    ensures forall i: nat | i >= FarthestEnd(ws) :: LastWritten(ws, i) == 0
  {
    if ws != [] {
      AfterIs(ws[..|ws| - 1]);
    }
  }
}
