/**
 The on-disk form of pintos/src/filesys/inode.c: inodes and sector arrays as bytes, and which
 sectors hold which part of a file.  `view` is the disk as the buffer cache shows it.
 */
module InodeLayout {
  import opened Bytes
  import opened Sequences

  const WORD := 0x1_0000_0000
  const OFF_MAX := 0x7FFF_FFFF
  const INODE_MAGIC := 0x494e4f44

  const SMALL: Byte := 1
  const LARGE: Byte := 2
  const HUGE: Byte := 3

  const PER_ARRAY := 128          // SECTORS_PER_ARRAY
  const SMALL_SECTORS := 0x40
  const HUGE_SECTORS := 16384     // SECTORS_PER_ARRAY squared
  const INVALID := 0xFFFF_FFFF    // SECTOR_INVALID as a block_sector_t

  // ---- little-endian words ----

  function Le32(x: nat): (r: seq<Byte>)
    requires x < WORD
    ensures |r| == 4
  {
    [x % 256, x / 256 % 256, x / 65536 % 256, x / 16777216]
  }

  function FromLe32(b: seq<Byte>): (x: nat)
    requires |b| == 4
    ensures x < WORD
  {
    var b0: nat, b1: nat, b2: nat, b3: nat := b[0], b[1], b[2], b[3];
    b0 + 256 * b1 + 65536 * b2 + 16777216 * b3
  }

  lemma Le32RoundTrip(x: nat)
    requires x < WORD
    ensures FromLe32(Le32(x)) == x
  {
    Halves(x, 256);
    Halves(x / 256, 256);
    Halves(x / 65536, 256);
    assert x / 256 / 256 == x / 65536;
    assert x / 65536 / 256 == x / 16777216;
  }

  lemma Halves(x: nat, m: nat)
    requires m > 0
    ensures x == m * (x / m) + x % m
  {
  }

  // ---- sector arrays ----

  ghost predicate IsArray(a: seq<nat>) {
    |a| == PER_ARRAY && forall i :: 0 <= i < PER_ARRAY ==> a[i] < WORD
  }

  function Table(s: Sector): (a: seq<nat>)
    ensures IsArray(a)
  {
    seq(PER_ARRAY, i requires 0 <= i < PER_ARRAY => FromLe32(s[4 * i..4 * i + 4]))
  }

  function EncodeTable(a: seq<nat>): Sector
    requires IsArray(a)
  {
    seq(SECTOR_SIZE, b requires 0 <= b < SECTOR_SIZE => Le32(a[b / 4])[b % 4])
  }

  lemma EncodedWord(a: seq<nat>, i: nat)
    requires IsArray(a) && i < PER_ARRAY
    ensures EncodeTable(a)[4 * i..4 * i + 4] == Le32(a[i])
  {
    hide Le32;
    forall k | 0 <= k < 4 ensures EncodeTable(a)[4 * i..4 * i + 4][k] == Le32(a[i])[k] {
      assert (4 * i + k) / 4 == i && (4 * i + k) % 4 == k;
    }
  }

  lemma TableRoundTrip(a: seq<nat>)
    requires IsArray(a)
    ensures Table(EncodeTable(a)) == a
  {
    hide Le32, FromLe32;
    forall i | 0 <= i < PER_ARRAY ensures Table(EncodeTable(a))[i] == a[i] {
      EncodedWord(a, i);
      Le32RoundTrip(a[i]);
    }
  }

  // ---- disk inodes ----

  datatype DiskInode = DiskInode(start: nat, parent: nat, length: nat, sizeType: Byte, funcType: Byte)

  predicate Encodable(d: DiskInode) {
    d.start < WORD && d.parent < WORD && d.length <= OFF_MAX
  }

  function EncodeInode(d: DiskInode): Sector
    requires Encodable(d)
  {
    Le32(d.start) + Le32(d.parent) + Le32(d.length) + [d.sizeType, d.funcType, 0, 0] + Le32(INODE_MAGIC) +
    Fill(SECTOR_SIZE - 20, 0)
  }

  function DecodeInode(s: Sector): DiskInode {
    DiskInode(FromLe32(s[0..4]), FromLe32(s[4..8]), FromLe32(s[8..12]), s[12], s[13])
  }

  lemma InodeRoundTrip(d: DiskInode)
    requires Encodable(d)
    ensures DecodeInode(EncodeInode(d)) == d
  {
    var s := EncodeInode(d);
    Le32RoundTrip(d.start);
    Le32RoundTrip(d.parent);
    Le32RoundTrip(d.length);
    assert s[0..4] == Le32(d.start);
    assert s[4..8] == Le32(d.parent);
    assert s[8..12] == Le32(d.length);
  }

  // ---- which sectors hold a file ----

  /** bytes_to_sectors */
  function Sectors(length: nat): nat {
    (length + SECTOR_SIZE - 1) / SECTOR_SIZE
  }

  /** DIV_ROUND_UP (n, SECTORS_PER_ARRAY) */
  function Arrays(n: nat): nat {
    (n + PER_ARRAY - 1) / PER_ARRAY
  }

  /** The array stored in a sector; a sector off the disk holds nothing. */
  function TableAt(view: seq<Sector>, s: nat): (a: seq<nat>)
    ensures IsArray(a)
  {
    if s < |view| then Table(view[s]) else Table(ZERO_SECTOR)
  }

  /** The sector of the k-th block of the file, by the type of its inode. */
  function Block(view: seq<Sector>, d: DiskInode, k: nat): nat
    requires d.sizeType == LARGE ==> k < PER_ARRAY
    requires d.sizeType != SMALL && d.sizeType != LARGE ==> k < HUGE_SECTORS
  {
    if d.sizeType == SMALL then d.start + k
    else if d.sizeType == LARGE then TableAt(view, d.start)[k]
    else TableAt(view, TableAt(view, d.start)[k / PER_ARRAY])[k % PER_ARRAY]
  }

  /** The k-th sector that holds an array of sectors. */
  function MetaBlock(view: seq<Sector>, d: DiskInode, k: nat): nat
    requires k <= PER_ARRAY
  {
    if k == 0 then d.start else TableAt(view, d.start)[k - 1]
  }

  function Metas(d: DiskInode): nat {
    if d.sizeType == SMALL then 0
    else if d.sizeType == LARGE then 1
    else 1 + Arrays(Sectors(d.length))
  }

  function Capacity(sizeType: Byte): nat {
    if sizeType == SMALL then SMALL_SECTORS
    else if sizeType == LARGE then PER_ARRAY
    else HUGE_SECTORS
  }

  predicate Sized(d: DiskInode) {
    && (d.sizeType == SMALL || d.sizeType == LARGE || d.sizeType == HUGE)
    && Sectors(d.length) <= Capacity(d.sizeType)
    && (d.sizeType != SMALL ==> d.length > 0)
  }

  lemma SizedFits(d: DiskInode)
    requires Sized(d)
    ensures Metas(d) <= PER_ARRAY + 1
  {
  }

  function Blocks(view: seq<Sector>, d: DiskInode): (r: seq<nat>)
    requires Sized(d)
    ensures |r| == Sectors(d.length)
  {
    seq(Sectors(d.length), k requires 0 <= k < Sectors(d.length) => Block(view, d, k))
  }

  function MetaBlocks(view: seq<Sector>, d: DiskInode): (r: seq<nat>)
    requires Sized(d)
    ensures |r| == Metas(d)
  {
    SizedFits(d);
    seq(Metas(d), k requires 0 <= k < Metas(d) => MetaBlock(view, d, k))
  }

  /** The sectors of the file and of its arrays, all different, on the disk, allocated, and none of
      them the inode's own. */
  ghost predicate Separate(view: seq<Sector>, used: seq<bool>, d: DiskInode, sector: nat)
    requires Sized(d)
  {
    var blocks, metas := Blocks(view, d), MetaBlocks(view, d);
    && |used| == |view| && sector < |view| && used[sector]
    && Distinct(blocks) && Distinct(metas) && sector !in blocks && sector !in metas
    && (forall b | b in blocks :: b < |view| && used[b] && b !in metas)
    && (forall m | m in metas :: m < |view| && used[m])
  }

  /** The markers after the last entry of the arrays that may grow in place. */
  ghost predicate Marked(view: seq<Sector>, d: DiskInode)
    requires Sized(d)
  {
    var n := Sectors(d.length);
    && (d.sizeType == LARGE && n < PER_ARRAY ==> TableAt(view, d.start)[n] == INVALID)
    && (d.sizeType == HUGE && Arrays(n) < PER_ARRAY ==> TableAt(view, d.start)[Arrays(n)] == INVALID)
    && (d.sizeType == HUGE && n > 0 && n % PER_ARRAY != 0 ==>
          TableAt(view, TableAt(view, d.start)[n / PER_ARRAY])[n % PER_ARRAY] == INVALID)
  }

  /** The bytes past the end of the file in its last sector are clear. */
  ghost predicate TailClear(view: seq<Sector>, d: DiskInode)
    requires Sized(d)
  {
    forall b {:trigger Byte(view, d, b)} :: d.length <= b < Sectors(d.length) * SECTOR_SIZE ==> Byte(view, d, b) == 0
  }

  /** Byte b of the sectors of the file. */
  function Byte(view: seq<Sector>, d: DiskInode, b: int): Byte
    requires Sized(d) && 0 <= b < Sectors(d.length) * SECTOR_SIZE
  {
    var s := Block(view, d, b / SECTOR_SIZE);
    if s < |view| then view[s][b % SECTOR_SIZE] else 0
  }

  /** What the file holds. */
  function Contents(view: seq<Sector>, d: DiskInode): (c: seq<Byte>)
    requires Sized(d)
    ensures |c| == d.length
  {
    seq(d.length, b requires 0 <= b < d.length => Byte(view, d, b))
  }

  ghost predicate WellFormed(view: seq<Sector>, used: seq<bool>, d: DiskInode, sector: nat) {
    && |view| < INVALID
    && Sized(d) && Encodable(d)
    && Separate(view, used, d, sector)
    && Marked(view, d)
    && TailClear(view, d)
    && DecodeInode(view[sector]) == d
  }

  // ---- what writes leave alone ----

  /** Two views that agree on the arrays of a file agree on where its blocks are. */
  ghost predicate AgreeOn(view: seq<Sector>, view': seq<Sector>, ms: seq<nat>) {
    |view'| == |view| && forall m | m in ms && m < |view| :: view'[m] == view[m]
  }

  lemma SameTables(view: seq<Sector>, view': seq<Sector>, d: DiskInode, k: nat)
    requires Sized(d) && AgreeOn(view, view', MetaBlocks(view, d)) && k < Metas(d)
    ensures TableAt(view', MetaBlock(view, d, k)) == TableAt(view, MetaBlock(view, d, k))
  {
    assert MetaBlocks(view, d)[k] in MetaBlocks(view, d);
  }

  lemma SameBlock(view: seq<Sector>, view': seq<Sector>, d: DiskInode, k: nat)
    requires Sized(d) && AgreeOn(view, view', MetaBlocks(view, d)) && k < Sectors(d.length)
    ensures Block(view', d, k) == Block(view, d, k)
  {
    if d.sizeType != SMALL {
      SameTables(view, view', d, 0);
    }
    if d.sizeType == HUGE {
      SameTables(view, view', d, 1 + k / PER_ARRAY);
    }
  }

  lemma SameLayout(view: seq<Sector>, view': seq<Sector>, d: DiskInode)
    requires Sized(d) && AgreeOn(view, view', MetaBlocks(view, d))
    ensures Blocks(view', d) == Blocks(view, d) && MetaBlocks(view', d) == MetaBlocks(view, d)
    ensures Marked(view, d) ==> Marked(view', d)
  {
    forall k | 0 <= k < Sectors(d.length) ensures Block(view', d, k) == Block(view, d, k) {
      SameBlock(view, view', d, k);
    }
    if d.sizeType != SMALL {
      SameTables(view, view', d, 0);
    }
    var n := Sectors(d.length);
    if d.sizeType == HUGE && n % PER_ARRAY != 0 {
      SameTables(view, view', d, 1 + n / PER_ARRAY);
    }
  }

  /** All sectors that belong to the file. */
  ghost function Own(view: seq<Sector>, d: DiskInode, sector: nat): set<nat>
    requires Sized(d)
  {
    {sector} + (set b | b in Blocks(view, d)) + (set m | m in MetaBlocks(view, d))
  }

  /** Allocated sectors stay allocated, and those outside `own` keep what they hold. */
  ghost predicate Keeps(view0: seq<Sector>, used0: seq<bool>, view: seq<Sector>, used: seq<bool>, own: set<nat>) {
    && |view| == |view0| == |used| == |used0|
    && (forall s :: 0 <= s < |used0| && used0[s] ==> used[s])
    && (forall s :: 0 <= s < |used0| && used0[s] && s !in own ==> view[s] == view0[s])
  }

  /** The sectors in `own'` were in `own` or unallocated. */
  ghost predicate OwnGrows(used0: seq<bool>, own: set<nat>, own': set<nat>) {
    forall s | s in own' :: s in own || (s < |used0| && !used0[s])
  }

  /** The sectors allocated in between all belong to the file: none is lost. */
  ghost predicate OwnsNew(used0: seq<bool>, used: seq<bool>, own: set<nat>) {
    forall s: nat | s < |used0| && s < |used| && used[s] && !used0[s] :: s in own
  }

  lemma KeepsTransitive(view0: seq<Sector>, used0: seq<bool>, view1: seq<Sector>, used1: seq<bool>,
                        view2: seq<Sector>, used2: seq<bool>, own: set<nat>, own': set<nat>)
    requires Keeps(view0, used0, view1, used1, own) && Keeps(view1, used1, view2, used2, own')
    requires OwnGrows(used0, own, own')
    ensures Keeps(view0, used0, view2, used2, own)
  {
  }

  /** A file none of whose sectors was written is still there, unchanged. */
  lemma OtherFile(view0: seq<Sector>, used0: seq<bool>, view: seq<Sector>, used: seq<bool>, own: set<nat>,
                  d: DiskInode, sector: nat)
    requires Keeps(view0, used0, view, used, own) && WellFormed(view0, used0, d, sector)
    requires Own(view0, d, sector) !! own
    ensures WellFormed(view, used, d, sector) && Contents(view, d) == Contents(view0, d)
    ensures Own(view, d, sector) == Own(view0, d, sector)
  {
    KeptOwn(view0, used0, view, used, own, d, sector);
    SameLayout(view0, view, d);
    forall b | 0 <= b < Sectors(d.length) * SECTOR_SIZE ensures Byte(view, d, b) == Byte(view0, d, b) {
      SameByte(view0, view, d, b);
    }
    SeparateGrows(view0, used0, view, used, own, d, sector);
    SameSeparate(view0, view, used, d, sector);
    hide Byte, Block, Marked, Blocks, MetaBlocks, Sectors, Distinct, Own, Separate, Keeps, AgreeOn;
  }

  lemma KeptOwn(view0: seq<Sector>, used0: seq<bool>, view: seq<Sector>, used: seq<bool>, own: set<nat>,
                d: DiskInode, sector: nat)
    requires Keeps(view0, used0, view, used, own) && Sized(d) && Separate(view0, used0, d, sector)
    requires Own(view0, d, sector) !! own
    ensures AgreeOn(view0, view, MetaBlocks(view0, d)) && AgreeOn(view0, view, Blocks(view0, d))
    ensures view[sector] == view0[sector]
  {
    hide Blocks, MetaBlocks, Distinct;
    assert forall m | m in MetaBlocks(view0, d) :: m in Own(view0, d, sector);
    assert forall m | m in Blocks(view0, d) :: m in Own(view0, d, sector);
    assert sector in Own(view0, d, sector);
  }

  lemma SeparateGrows(view0: seq<Sector>, used0: seq<bool>, view: seq<Sector>, used: seq<bool>, own: set<nat>,
                      d: DiskInode, sector: nat)
    requires Keeps(view0, used0, view, used, own) && Sized(d) && Separate(view0, used0, d, sector)
    ensures Separate(view0, used, d, sector)
  {
    hide Blocks, MetaBlocks, Distinct;
  }

  lemma SameByte(view: seq<Sector>, view': seq<Sector>, d: DiskInode, b: int)
    requires Sized(d) && 0 <= b < Sectors(d.length) * SECTOR_SIZE
    requires Blocks(view', d) == Blocks(view, d)
    requires AgreeOn(view, view', Blocks(view, d))
    ensures Byte(view', d, b) == Byte(view, d, b)
  {
    assert Blocks(view, d)[b / SECTOR_SIZE] in Blocks(view, d);
    assert Blocks(view', d)[b / SECTOR_SIZE] == Block(view', d, b / SECTOR_SIZE);
  }

  // ---- the file as a sequence of bytes ----

  /** Writing past the end fills the gap with zeros. */
  function Extend(c: seq<Byte>, n: nat): (r: seq<Byte>)
    ensures |r| == if n > |c| then n else |c|
  {
    if n > |c| then c + Fill(n - |c|, 0) else c
  }

  function Overlay(c: seq<Byte>, offset: nat, data: seq<Byte>): (r: seq<Byte>)
    requires offset + |data| <= |c|
    ensures |r| == |c|
    ensures forall i :: 0 <= i < |c| ==> r[i] == if offset <= i < offset + |data| then data[i - offset] else c[i]
  {
    c[..offset] + data + c[offset + |data|..]
  }

  function Written(c: seq<Byte>, offset: nat, data: seq<Byte>): seq<Byte> {
    Overlay(Extend(c, offset + |data|), offset, data)
  }

  function ReadBack(c: seq<Byte>, offset: nat, size: nat): seq<Byte> {
    if offset >= |c| then []
    else if offset + size <= |c| then c[offset..offset + size]
    else c[offset..]
  }

  /** One write into a data sector, as a write into the file. */
  lemma DataWrite(view: seq<Sector>, used: seq<bool>, d: DiskInode, sector: nat, k: nat, offset: nat, data: seq<Byte>)
    requires WellFormed(view, used, d, sector)
    requires k < Sectors(d.length) && offset + |data| <= SECTOR_SIZE && k * SECTOR_SIZE + offset + |data| <= d.length
    ensures Block(view, d, k) < |view|
    ensures var view' := view[Block(view, d, k) := Patch(view[Block(view, d, k)], offset, data)];
            && WellFormed(view', used, d, sector)
            && Contents(view', d) == Overlay(Contents(view, d), k * SECTOR_SIZE + offset, data)
            && Own(view', d, sector) == Own(view, d, sector)
            && Keeps(view, used, view', used, Own(view, d, sector))
  {
    var s := Block(view, d, k);
    BlockApart(view, used, d, sector, k, if s < |view| then Patch(view[s], offset, data) else ZERO_SECTOR);
    var view' := view[s := Patch(view[s], offset, data)];
    SameLayout(view, view', d);
    SameSeparate(view, view', used, d, sector);
    PatchBytes(view, view', used, d, sector, k, offset, data);
    hide Byte, Block, Patch, Marked, Blocks, MetaBlocks, Sectors, Distinct, Own, Contents, TailClear, Overlay, Separate;
  }

  lemma BlockApart(view: seq<Sector>, used: seq<bool>, d: DiskInode, sector: nat, k: nat, x: Sector)
    requires Sized(d) && Separate(view, used, d, sector) && k < Sectors(d.length)
    ensures Block(view, d, k) < |view| && Block(view, d, k) != sector && Block(view, d, k) in Own(view, d, sector)
    ensures AgreeOn(view, view[Block(view, d, k) := x], MetaBlocks(view, d))
    ensures Keeps(view, used, view[Block(view, d, k) := x], used, Own(view, d, sector))
  {
    var s := Block(view, d, k);
    assert Blocks(view, d)[k] == s && s in Blocks(view, d);
  }

  lemma PatchBytes(view: seq<Sector>, view': seq<Sector>, used: seq<bool>, d: DiskInode, sector: nat,
                   k: nat, offset: nat, data: seq<Byte>)
    requires Sized(d) && Separate(view, used, d, sector) && TailClear(view, d)
    requires k < Sectors(d.length) && offset + |data| <= SECTOR_SIZE && k * SECTOR_SIZE + offset + |data| <= d.length
    requires Block(view, d, k) < |view| &&
             view' == view[Block(view, d, k) := Patch(view[Block(view, d, k)], offset, data)]
    requires Blocks(view', d) == Blocks(view, d)
    ensures TailClear(view', d)
    ensures Contents(view', d) == Overlay(Contents(view, d), k * SECTOR_SIZE + offset, data)
  {
    forall b | 0 <= b < Sectors(d.length) * SECTOR_SIZE
      ensures Byte(view', d, b) ==
              if k * SECTOR_SIZE + offset <= b < k * SECTOR_SIZE + offset + |data|
              then data[b - k * SECTOR_SIZE - offset] else Byte(view, d, b)
    {
      DataWriteByte(view, view', d, k, offset, data, b);
    }
    hide Byte, Block, Patch, Separate, Blocks;
  }

  lemma SameSeparate(view: seq<Sector>, view': seq<Sector>, used: seq<bool>, d: DiskInode, sector: nat)
    requires Sized(d) && |view'| == |view| && Blocks(view', d) == Blocks(view, d) &&
             MetaBlocks(view', d) == MetaBlocks(view, d)
    ensures Separate(view, used, d, sector) ==> Separate(view', used, d, sector)
    ensures Own(view', d, sector) == Own(view, d, sector)
  {
    hide Blocks, MetaBlocks, Distinct;
  }

  lemma DataWriteByte(view: seq<Sector>, view': seq<Sector>, d: DiskInode, k: nat, offset: nat, data: seq<Byte>, b: nat)
    requires Sized(d) && k < Sectors(d.length) && offset + |data| <= SECTOR_SIZE && b < Sectors(d.length) * SECTOR_SIZE
    requires Block(view, d, k) < |view| &&
             view' == view[Block(view, d, k) := Patch(view[Block(view, d, k)], offset, data)]
    requires Blocks(view', d) == Blocks(view, d) && Distinct(Blocks(view, d))
    ensures Byte(view', d, b) ==
            if k * SECTOR_SIZE + offset <= b < k * SECTOR_SIZE + offset + |data|
            then data[b - k * SECTOR_SIZE - offset] else Byte(view, d, b)
  {
    var j := b / SECTOR_SIZE;
    assert Blocks(view', d)[j] == Block(view', d, j) && Blocks(view, d)[j] == Block(view, d, j);
    assert Blocks(view, d)[k] == Block(view, d, k);
    if j == k {
      assert b == k * SECTOR_SIZE + b % SECTOR_SIZE;
    } else {
      assert Blocks(view, d)[j] != Blocks(view, d)[k];
    }
  }

  // ---- allocation ----

  /** The sectors in `alloc` were free and are now allocated; only they may have been written. */
  ghost predicate Grows(view0: seq<Sector>, used0: seq<bool>, view: seq<Sector>, used: seq<bool>, alloc: set<nat>) {
    && |view| == |view0| == |used| == |used0|
    && (forall s | s in alloc :: s < |used0| && !used0[s])
    && (forall s :: 0 <= s < |used0| ==> (used[s] <==> used0[s] || s in alloc))
    && (forall s :: 0 <= s < |view0| && s !in alloc ==> view[s] == view0[s])
  }

  ghost function Free(used: seq<bool>): set<nat> {
    set s: nat | s < |used| && !used[s]
  }

  /** Allocation takes that many of the free sectors. */
  lemma GrowsFree(view0: seq<Sector>, used0: seq<bool>, view: seq<Sector>, used: seq<bool>, alloc: set<nat>)
    requires Grows(view0, used0, view, used, alloc)
    ensures |Free(used)| == |Free(used0)| - |alloc|
  {
    assert Free(used) == Free(used0) - alloc && alloc <= Free(used0);
  }

  lemma GrowsNone(view: seq<Sector>, used: seq<bool>)
    requires |used| == |view|
    ensures Grows(view, used, view, used, {})
  {
  }

  lemma GrowsTransitive(view0: seq<Sector>, used0: seq<bool>, view1: seq<Sector>, used1: seq<bool>,
                        view2: seq<Sector>, used2: seq<bool>, alloc: set<nat>, alloc': set<nat>)
    requires Grows(view0, used0, view1, used1, alloc) && Grows(view1, used1, view2, used2, alloc')
    ensures Grows(view0, used0, view2, used2, alloc + alloc') && alloc !! alloc'
    ensures forall s | s in alloc && s < |view1| :: view2[s] == view1[s]
  {
  }

  lemma GrowsWrite(view0: seq<Sector>, used0: seq<bool>, view: seq<Sector>, used: seq<bool>, alloc: set<nat>, s: nat,
                   x: Sector)
    requires Grows(view0, used0, view, used, alloc) && s in alloc
    ensures s < |view| && Grows(view0, used0, view[s := x], used, alloc)
  {
  }

  lemma GrowsKeeps(view0: seq<Sector>, used0: seq<bool>, view: seq<Sector>, used: seq<bool>, alloc: set<nat>)
    requires Grows(view0, used0, view, used, alloc)
    ensures Keeps(view0, used0, view, used, {})
  {
  }

  /** Then the inode's own sector is written. */
  lemma GrowsThenInode(view0: seq<Sector>, used0: seq<bool>, view: seq<Sector>, used: seq<bool>, alloc: set<nat>,
                       sector: nat, x: Sector)
    requires Grows(view0, used0, view, used, alloc) && sector < |view0| && used0[sector]
    ensures sector !in alloc && Keeps(view0, used0, view[sector := x], used, {sector})
  {
  }

  // ---- files made of zeros, and files that grow ----

  lemma ZeroBytes(view: seq<Sector>, d: DiskInode)
    requires Sized(d) && forall b | b in Blocks(view, d) :: b < |view| && view[b] == ZERO_SECTOR
    ensures TailClear(view, d) && Contents(view, d) == Fill(d.length, 0)
  {
    forall b | 0 <= b < Sectors(d.length) * SECTOR_SIZE ensures Byte(view, d, b) == 0 {
      assert Blocks(view, d)[b / SECTOR_SIZE] in Blocks(view, d);
    }
  }

  /** Growing a file in place: new blocks of zeros after the old ones. */
  lemma GrownBytes(view: seq<Sector>, d: DiskInode, view': seq<Sector>, d': DiskInode, more: seq<nat>)
    requires Sized(d) && Sized(d') && d.length <= d'.length && TailClear(view, d)
    requires Blocks(view', d') == Blocks(view, d) + more && AgreeOn(view, view', Blocks(view, d))
    requires forall b | b in more :: b < |view'| && view'[b] == ZERO_SECTOR
    ensures TailClear(view', d') && Contents(view', d') == Extend(Contents(view, d), d'.length)
  {
    var n := Sectors(d.length);
    MonotoneSectors(d.length, d'.length);
    forall b: nat | b < Sectors(d'.length) * SECTOR_SIZE
      ensures Byte(view', d', b) == if b < n * SECTOR_SIZE then Byte(view, d, b) else 0
    {
      GrownByte(view, d, view', d', more, b);
    }
    hide Byte, Blocks, Block, AgreeOn, Sectors;
    var c := Extend(Contents(view, d), d'.length);
    forall b | 0 <= b < d'.length ensures Contents(view', d')[b] == c[b] {
      if d.length <= b < n * SECTOR_SIZE {
        assert Byte(view, d, b) == 0;
      }
    }
  }

  lemma MonotoneSectors(a: nat, b: nat)
    requires a <= b
    ensures Sectors(a) <= Sectors(b) && a <= Sectors(a) * SECTOR_SIZE && b <= Sectors(b) * SECTOR_SIZE
  {
  }

  lemma GrownByte(view: seq<Sector>, d: DiskInode, view': seq<Sector>, d': DiskInode, more: seq<nat>, b: nat)
    requires Sized(d) && Sized(d') && Sectors(d.length) <= Sectors(d'.length) && b < Sectors(d'.length) * SECTOR_SIZE
    requires Blocks(view', d') == Blocks(view, d) + more && AgreeOn(view, view', Blocks(view, d))
    requires forall b | b in more :: b < |view'| && view'[b] == ZERO_SECTOR
    ensures Byte(view', d', b) == if b < Sectors(d.length) * SECTOR_SIZE then Byte(view, d, b) else 0
  {
    var n := Sectors(d.length);
    var k := b / SECTOR_SIZE;
    assert Blocks(view', d')[k] == Block(view', d', k);
    if b < n * SECTOR_SIZE {
      assert Blocks(view, d)[k] == Block(view, d, k) && Blocks(view, d)[k] in Blocks(view, d);
    } else {
      assert more[k - n] in more;
    }
  }

  lemma Grown(view: seq<Sector>, used: seq<bool>, d: DiskInode, view': seq<Sector>, used': seq<bool>, d': DiskInode,
              sector: nat, more: seq<nat>, alloc: set<nat>)
    requires WellFormed(view, used, d, sector)
    requires d' == d.(length := d'.length) && d.length <= d'.length <= OFF_MAX && Sized(d')
    requires Keeps(view, used, view', used', Own(view, d, sector)) && AgreeOn(view, view', Blocks(view, d))
    requires Blocks(view', d') == Blocks(view, d) + more && MetaBlocks(view', d') == MetaBlocks(view, d)
    requires Distinct(more) && forall b | b in more :: b < |view| && !used[b] && used'[b] && view'[b] == ZERO_SECTOR
    requires forall b: nat | b < |used| && b < |used'| && used'[b] && !used[b] :: b in more
    requires Marked(view', d') && DecodeInode(view'[sector]) == d'
    ensures WellFormed(view', used', d', sector)
    ensures Contents(view', d') == Extend(Contents(view, d), d'.length)
    ensures OwnGrows(used, Own(view, d, sector), Own(view', d', sector))
    ensures OwnsNew(used, used', Own(view', d', sector))
  {
    hide Blocks, MetaBlocks, Marked, TailClear, Contents, Separate, Sectors, Distinct, Own, AgreeOn, OwnGrows, Keeps,
        Extend, Sized, DecodeInode;
    KeepsUsed(view, used, view', used', Own(view, d, sector));
    GrownBytes(view, d, view', d', more);
    GrownOwn(view, used, d, view', d', sector, more);
    GrownSeparate(view, used, d, view', used', d', sector, more);
  }

  lemma KeepsUsed(view: seq<Sector>, used: seq<bool>, view': seq<Sector>, used': seq<bool>, own: set<nat>)
    requires Keeps(view, used, view', used', own)
    ensures |view'| == |view| == |used'| == |used| && forall s :: 0 <= s < |view| && used[s] ==> used'[s]
  {
  }

  lemma GrownOwn(view: seq<Sector>, used: seq<bool>, d: DiskInode, view': seq<Sector>, d': DiskInode, sector: nat,
                 more: seq<nat>)
    requires Sized(d) && Sized(d') && |used| == |view|
    requires Blocks(view', d') == Blocks(view, d) + more && MetaBlocks(view', d') == MetaBlocks(view, d)
    requires forall b | b in more :: b < |view| && !used[b]
    ensures OwnGrows(used, Own(view, d, sector), Own(view', d', sector))
    ensures forall b | b in more :: b in Own(view', d', sector)
  {
    hide Blocks, MetaBlocks;
  }

  lemma GrownSeparate(view: seq<Sector>, used: seq<bool>, d: DiskInode, view': seq<Sector>, used': seq<bool>,
                      d': DiskInode, sector: nat, more: seq<nat>)
    requires Sized(d) && Sized(d') && Separate(view, used, d, sector)
    requires |view'| == |view| && |used'| == |view| && forall s :: 0 <= s < |view| && used[s] ==> used'[s]
    requires Blocks(view', d') == Blocks(view, d) + more && MetaBlocks(view', d') == MetaBlocks(view, d)
    requires Distinct(more) && forall b | b in more :: b < |view| && !used[b] && used'[b]
    ensures Separate(view', used', d', sector)
  {
    var blocks, metas := Blocks(view, d), MetaBlocks(view, d);
    hide Blocks, MetaBlocks;
    assert forall b | b in blocks + more :: b in blocks || b in more;
    forall i, j | 0 <= i < j < |blocks + more| ensures (blocks + more)[i] != (blocks + more)[j] {
      if i < |blocks| <= j {
        assert blocks[i] in blocks && more[j - |blocks|] in more;
      }
    }
  }
}
