/**
 pintos/src/filesys/inode.c and free-map.c: allocating sectors, and creating the three kinds of
 files.  The free map's own copy on the disk is not part of the model.
 */
module Store {
  import opened Bitmap
  import opened BufferCache
  import opened Bytes
  import opened InodeLayout
  import opened Sequences
  import opened Wrappers

  class Store {
    const cache: BufferCache
    const freeMap: Bitmap

    ghost predicate Valid()
      reads cache.entries
      ensures Valid() ==> cache.Valid() && freeMap.Valid()
    {
      && cache.Valid() && freeMap.Valid() && freeMap.bitCnt == cache.device.Length < INVALID
      && cache.entries as object != cache.device as object
      && freeMap.bits as object != cache.device as object && freeMap.bits as object != cache.entries as object
    }

    ghost function Repr(): set<object> {
      {cache.device as object, cache.entries, freeMap.bits}
    }

    /** The disk as the cache shows it. */
    ghost function View(): (v: seq<Sector>)
      reads cache.entries, cache.device
      ensures |v| == cache.device.Length
    {
      cache.Current()
    }

    /** The allocated sectors. */
    ghost function Used(): (u: seq<bool>)
      requires freeMap.Valid()
      reads freeMap.bits
      ensures |u| == freeMap.bitCnt
    {
      freeMap.Contents()
    }

    constructor (cache: BufferCache, freeMap: Bitmap)
      requires cache.Valid() && freeMap.Valid() && freeMap.bitCnt == cache.device.Length < INVALID
      requires cache.entries as object != cache.device as object
      requires freeMap.bits as object != cache.device as object && freeMap.bits as object != cache.entries as object
      ensures Valid() && this.cache == cache && this.freeMap == freeMap
    {
      this.cache, this.freeMap := cache, freeMap;
    }

    /** free_map_allocate */
    method Allocate(cnt: nat) returns (first: Option<nat>)
      requires Valid()
      modifies Repr()
      ensures Valid() && View() == old(View())
      ensures first == Scan(old(Used()), 0, cnt, false)
      ensures Used() == if first == None then old(Used()) else SetRange(old(Used()), first.value, cnt, true)
    {
      first := freeMap.ScanAndFlip(0, cnt, false);
    }

    method AllocateOne() returns (s: Option<nat>)
      requires Valid()
      modifies Repr()
      ensures Valid() && View() == old(View())
      ensures Grows(old(View()), old(Used()), View(), Used(), if s == None then {} else {s.value})
      ensures s == None ==> Free(old(Used())) == {}
    {
      NoneFree(Used());
      s := Allocate(1);
      if s.Some? {
        assert !old(Used())[s.value];
      }
    }

    /** One more zeroed sector for entry i. */
    method AddZeros(a: seq<nat>, from: nat, i: nat, ghost view0: seq<Sector>, ghost used0: seq<bool>,
                    ghost alloc: set<nat>) returns (s: Option<nat>)
      requires Valid() && from <= i < |a| && Grows(view0, used0, View(), Used(), alloc)
      requires Filled(View(), a, from, i, alloc)
      modifies Repr()
      ensures Valid()
      ensures match s
              case None => Grows(view0, used0, View(), Used(), alloc) && |Free(used0)| == i - from
              case Some(x) =>
                   x < INVALID && Grows(view0, used0, View(), Used(), alloc + {x}) &&
                   Filled(View(), a[i := x], from, i + 1, alloc + {x})
    {
      hide Free, Grows, Filled;
      ghost var view, used := View(), Used();
      FilledSize(view, a, from, i, alloc);
      GrowsFree(view0, used0, view, used, alloc);
      s := AllocateOne();
      GrowsTransitive(view0, used0, view, used, View(), Used(), alloc, if s == None then {} else {s.value});
      if s == None {
        assert alloc + {} == alloc;
        return;
      }
      GrowsLengths(view, used, View(), Used(), {s.value});
      cache.WriteAt(s.value, ZERO_SECTOR, 0);
      assert Patch(view[s.value], 0, ZERO_SECTOR) == ZERO_SECTOR;
      GrowsWrite(view0, used0, view, Used(), alloc + {s.value}, s.value, ZERO_SECTOR);
      FilledMore(view, a, from, i, alloc, s.value);
    }

    /** The loop that allocates one zeroed sector for each entry of an array from `from` to `to`. */
    method FillArray(a: seq<nat>, from: nat, to: nat) returns (ok: bool, r: seq<nat>, ghost alloc: set<nat>)
      requires Valid() && IsArray(a) && from <= to <= PER_ARRAY
      modifies Repr()
      ensures Valid() && Grows(old(View()), old(Used()), View(), Used(), alloc)
      ensures IsArray(r) && (forall k :: 0 <= k < PER_ARRAY && !(from <= k < to) ==> r[k] == a[k])
      ensures ok ==> Filled(View(), r, from, to, alloc)
      ensures ok <==> |Free(old(Used()))| >= to - from
    {
      hide Free, Grows, Filled;
      r, alloc := a, {};
      GrowsNone(View(), Used());
      FilledNone(View(), a, from);
      var i := from;
      while i < to
        invariant from <= i <= to && IsArray(r) && Valid()
        invariant forall k :: 0 <= k < PER_ARRAY && !(from <= k < i) ==> r[k] == a[k]
        invariant Grows(old(View()), old(Used()), View(), Used(), alloc)
        invariant Filled(View(), r, from, i, alloc)
      {
        var s := AddZeros(r, from, i, old(View()), old(Used()), alloc);
        if s == None {
          return false, r, alloc;
        }
        r := r[i := s.value];
        alloc := alloc + {s.value};
        i := i + 1;
      }
      ok := true;
      FilledSize(View(), r, from, to, alloc);
      GrowsFree(old(View()), old(Used()), View(), Used(), alloc);
    }

    /** inode_create_small */
    method CreateSmall(sector: nat, length: nat, funcType: Byte, parent: nat) returns (ok: bool)
      requires Valid() && sector < freeMap.bitCnt && Used()[sector] && parent < WORD
      requires length <= SMALL_SECTORS * SECTOR_SIZE
      modifies Repr()
      ensures Valid() && ok ==> Created(old(View()), old(Used()), View(), Used(), sector, length, SMALL, funcType,
              parent)
      ensures Valid() && (!ok ==> Keeps(old(View()), old(Used()), View(), Used(), {}))
      ensures ok <==> HasRun(old(Used()), Sectors(length))
    {
      ghost var view0, used0 := View(), Used();
      var n := Sectors(length);
      RunFound(used0, n);
      var start := Allocate(n);
      if start == None {
        return false;
      }
      var d := DiskInode(start.value, parent, length, SMALL, funcType);
      cache.WriteAt(sector, EncodeInode(d), 0);
      assert Patch(view0[sector], 0, EncodeInode(d)) == EncodeInode(d);
      ghost var view1 := View();
      hide Keeps, SetRange, Scan, OwnsNew, HasRun;
      ZeroRange(start.value, n);
      SmallMade(view0, used0, view1, View(), Used(), sector, d, n);
      return true;
    }

    method ZeroRange(start: nat, n: nat)
      requires Valid() && start + n <= freeMap.bitCnt
      modifies cache.device, cache.entries
      ensures Valid() && Used() == old(Used())
      ensures forall s :: 0 <= s < |View()| ==>
              View()[s] == if start <= s < start + n then ZERO_SECTOR else old(View())[s]
    {
      var i := 0;
      while i < n
        invariant i <= n && Valid() && Used() == old(Used())
        invariant forall s :: 0 <= s < |View()| ==>
                  View()[s] == if start <= s < start + i then ZERO_SECTOR else old(View())[s]
      {
        ghost var was := View()[start + i];
        cache.WriteAt(start + i, ZERO_SECTOR, 0);
        assert Patch(was, 0, ZERO_SECTOR) == ZERO_SECTOR;
        i := i + 1;
      }
    }

    /** inode_create_large */
    method CreateLarge(sector: nat, length: nat, funcType: Byte, parent: nat) returns (ok: bool)
      requires Valid() && sector < freeMap.bitCnt && Used()[sector] && parent < WORD
      requires 0 < length <= PER_ARRAY * SECTOR_SIZE
      modifies Repr()
      ensures Valid() && ok ==> Created(old(View()), old(Used()), View(), Used(), sector, length, LARGE, funcType,
              parent)
      ensures Valid() && (!ok ==> Keeps(old(View()), old(Used()), View(), Used(), {}))
      ensures ok <==> |Free(old(Used()))| >= Sectors(length) + 1
    {
      ghost var view0, used0 := View(), Used();
      var n := Sectors(length);
      var lv1 := AllocateOne();
      GrowsFree(view0, used0, View(), Used(), if lv1 == None then {} else {lv1.value});
      if lv1 == None {
        GrowsKeeps(view0, used0, View(), Used(), {});
        return false;
      }
      ghost var view1, used1 := View(), Used();
      var table := EmptyTable();
      ghost var alloc;
      ok, table, alloc := FillArray(table, 0, n);
      GrowsTransitive(view0, used0, view1, used1, View(), Used(), {lv1.value}, alloc);
      if !ok {
        GrowsKeeps(view0, used0, View(), Used(), {lv1.value} + alloc);
        return;
      }
      hide Grows, Created, Keeps, Filled, Free;
      FinishLarge(sector, DiskInode(lv1.value, parent, length, LARGE, funcType), table, view0, used0, alloc);
    }

    /** The marker, the array and the inode. */
    method FinishLarge(sector: nat, d: DiskInode, a: seq<nat>, ghost view0: seq<Sector>, ghost used0: seq<bool>,
                       ghost alloc: set<nat>)
      requires Valid() && IsArray(a) && d.sizeType == LARGE && Encodable(d) && Sized(d)
      requires |view0| == |used0| && sector < |used0| && used0[sector] && d.start !in alloc
      requires Grows(view0, used0, View(), Used(), {d.start} + alloc) && Filled(View(), a, 0, Sectors(d.length), alloc)
      modifies Repr()
      ensures Valid() && Created(view0, used0, View(), Used(), sector, d.length, LARGE, d.funcType, d.parent)
    {
      var n := Sectors(d.length);
      var table := a;
      if n < PER_ARRAY {
        FilledMarker(View(), a, 0, n, alloc, INVALID);
        table := table[n := INVALID];
      }
      ghost var view2 := View();
      GrowsWrite(view0, used0, view2, Used(), {d.start} + alloc, d.start, EncodeTable(table));
      FilledElsewhere(view2, table, 0, n, alloc, d.start, EncodeTable(table));
      assert |view0| == |view2| by { assert Grows(view0, used0, view2, Used(), {d.start} + alloc); }
      hide Grows, Filled, Created, EncodeTable, EncodeInode;
      WriteSector(d.start, EncodeTable(table));
      ghost var view3 := View();
      LargeMade(view0, used0, view3, Used(), sector, d, table, n, alloc);
      WriteSector(sector, EncodeInode(d));
    }

    /** inode_create_huge.  The code does not notice when the sector of the first array cannot be
        allocated: it reports success with an unset start sector.  Nor does it check the length: with
        more than HUGE_SECTORS sectors it goes on past the end of the first-level array.  `complete` is
        false in these two cases, the only ones in which the model does not follow the code to its end. */
    method CreateHuge(sector: nat, length: nat, funcType: Byte, parent: nat) returns (ok: bool, complete: bool)
      requires Valid() && sector < freeMap.bitCnt && Used()[sector] && parent < WORD
      requires 0 < length <= OFF_MAX
      modifies Repr()
      ensures DiskFull(old(Used())) ==> !complete
      ensures !DiskFull(old(Used())) && Sectors(length) <= HUGE_SECTORS ==> complete
      ensures Sectors(length) > HUGE_SECTORS ==> !ok || !complete
      ensures Valid() && (!complete ==> ok)
      ensures ok && complete ==> Created(old(View()), old(Used()), View(), Used(), sector, length, HUGE, funcType,
              parent)
      ensures !ok ==> Keeps(old(View()), old(Used()), View(), Used(), {})
      ensures complete ==> (ok <==> |Free(old(Used()))| >= HugeNeeds(Sectors(length)))
    {
      hide Grows, HugePart, Created, Keeps, EncodeTable, EncodeInode, Scan, SetRange, Free;
      ghost var view0, used0 := View(), Used();
      var n := Sectors(length);
      var lv1 := Allocate(1);
      if lv1 == None {
        var start: nat :| start < WORD;
        WriteSector(sector, EncodeInode(DiskInode(start, parent, length, HUGE, funcType)));
        return true, false;
      }
      complete := true;
      OneGrows(view0, used0, lv1.value);
      var table1;
      ghost var blocks, alloc;
      var inside;
      ok, inside, table1, blocks, alloc := FillHuge(lv1.value, n, view0, used0);
      FirstLevelInside(n);
      if !inside {
        return true, false;
      }
      if !ok {
        GrowsKeeps(view0, used0, View(), Used(), alloc);
        return;
      }
      FitsHuge(length);
      HugeSize(View(), table1, Arrays(n), blocks, alloc, lv1.value, n);
      GrowsFree(view0, used0, View(), Used(), alloc);
      FinishHuge(sector, DiskInode(lv1.value, parent, length, HUGE, funcType), table1, view0, used0, blocks, alloc);
    }

    /** The loop over the second-level arrays.  `inside` is false when the next entry to be written is
        past the end of the first-level array. */
    method FillHuge(lv1: nat, n: nat, ghost view0: seq<Sector>, ghost used0: seq<bool>)
      returns (ok: bool, inside: bool, table1: seq<nat>, ghost blocks: seq<nat>, ghost alloc: set<nat>)
      requires Valid() && lv1 < freeMap.bitCnt && Grows(view0, used0, View(), Used(), {lv1})
      modifies Repr()
      ensures Arrays(n) <= PER_ARRAY ==> inside
      ensures Arrays(n) > PER_ARRAY ==> !ok
      ensures Valid() && IsArray(table1) && Grows(view0, used0, View(), Used(), alloc)
      ensures ok ==> HugePart(View(), table1, Arrays(n), blocks, alloc, lv1, n)
      ensures !ok && inside ==> |Free(used0)| < HugeNeeds(n)
    {
      var cnt1 := Arrays(n);
      var cnt2 := if n % PER_ARRAY == 0 then PER_ARRAY else n % PER_ARRAY;
      table1 := EmptyTable();
      blocks, alloc, inside := [], {lv1}, true;
      var i := 0;
      HugeNone(View(), table1, lv1, n);
      hide Grows, HugePart, Free;
      while i < cnt1
        invariant i <= cnt1 && i <= PER_ARRAY && Valid() && IsArray(table1) && inside
        invariant Grows(view0, used0, View(), Used(), alloc)
        invariant HugePart(View(), table1, i, blocks, alloc, lv1, n)
      {
        if i == PER_ARRAY {
          return false, false, table1, blocks, alloc;
        }
        ok, table1, blocks, alloc := NextTable(table1, i, if i == cnt1 - 1 then cnt2 else PER_ARRAY,
                                               view0, used0, blocks, alloc, lv1, n);
        if !ok {
          return;
        }
        i := i + 1;
      }
      ok := true;
    }

    /** inode_create, by the size of the file. */
    method Create(sector: nat, length: nat, funcType: Byte, parent: nat) returns (ok: bool, complete: bool)
      requires Valid() && sector < freeMap.bitCnt && Used()[sector] && parent < WORD
      modifies Repr()
      ensures Valid() && (!complete ==> ok)
      ensures ok && complete ==> length <= HUGE_SECTORS * SECTOR_SIZE
      ensures ok && complete ==> Created(old(View()), old(Used()), View(), Used(), sector, length,
                                         TypeFor(length), funcType, parent)
      ensures !ok ==> Keeps(old(View()), old(Used()), View(), Used(), {})
      ensures ok && complete <==> Enough(old(Used()), length)
    {
      KeepsSame(View(), Used());
      FitsHuge(length);
      FullHasNone(Used());
      hide Created, Keeps, Free, HasRun, DiskFull;
      complete := true;
      if length <= SECTOR_SIZE * SMALL_SECTORS {
        ok := CreateSmall(sector, length, funcType, parent);
      } else if length <= SECTOR_SIZE * PER_ARRAY {
        ok := CreateLarge(sector, length, funcType, parent);
      } else if length <= SECTOR_SIZE * HUGE_SECTORS {
        ok, complete := CreateHuge(sector, length, funcType, parent);
      } else {
        ok := false;
      }
    }

    /** The replacement of a file that outgrows its type. */
    method CreateBigger(sector: nat, length: nat, funcType: Byte, parent: nat) returns (ok: bool, complete: bool)
      requires Valid() && sector < freeMap.bitCnt && Used()[sector] && parent < WORD
      requires 0 < length <= OFF_MAX
      modifies Repr()
      ensures Valid() && (!complete ==> ok)
      ensures Sectors(length) > HUGE_SECTORS ==> !ok || !complete
      ensures !complete ==> DiskFull(old(Used())) || Sectors(length) > HUGE_SECTORS
      ensures ok && complete ==> Created(old(View()), old(Used()), View(), Used(), sector, length,
                                         if length > PER_ARRAY * SECTOR_SIZE then HUGE else LARGE, funcType, parent)
      ensures !ok ==> Keeps(old(View()), old(Used()), View(), Used(), {})
      ensures complete ==> (ok <==> EnoughBigger(old(Used()), length))
      ensures Sectors(length) <= HUGE_SECTORS ==> (ok && complete <==> EnoughBigger(old(Used()), length))
    {
      FullHasNone(Used());
      hide Created, Keeps, Free, DiskFull;
      FitsHuge(length);
      complete := true;
      if length > PER_ARRAY * SECTOR_SIZE {
        ok, complete := CreateHuge(sector, length, funcType, parent);
      } else {
        ok := CreateLarge(sector, length, funcType, parent);
      }
    }

    /** The first-level array and the inode are written last. */
    method FinishHuge(sector: nat, d: DiskInode, table1: seq<nat>, ghost view0: seq<Sector>, ghost used0: seq<bool>,
                      ghost blocks: seq<nat>, ghost alloc: set<nat>)
      requires Valid() && IsArray(table1) && d.sizeType == HUGE && Encodable(d) && Sized(d)
      requires |view0| == |used0| && sector < |used0| && used0[sector]
      requires Grows(view0, used0, View(), Used(), alloc)
      requires HugePart(View(), table1, Arrays(Sectors(d.length)), blocks, alloc, d.start, Sectors(d.length))
      modifies Repr()
      ensures Valid() && Created(view0, used0, View(), Used(), sector, d.length, HUGE, d.funcType, d.parent)
    {
      var n, i := Sectors(d.length), Arrays(Sectors(d.length));
      var table := table1;
      if i < PER_ARRAY {
        HugeMarker(View(), table1, i, blocks, alloc, d.start, n);
        table := table[i := INVALID];
      }
      HugeHasFirst(View(), table, i, blocks, alloc, d.start, n);
      ghost var view2 := View();
      GrowsWrite(view0, used0, view2, Used(), alloc, d.start, EncodeTable(table));
      HugeElsewhere(view2, table, i, blocks, alloc, d.start, n, EncodeTable(table));
      assert |view0| == |view2| by { assert Grows(view0, used0, view2, Used(), alloc); }
      hide Grows, HugePart, Created, EncodeTable, EncodeInode;
      WriteSector(d.start, EncodeTable(table));
      ghost var view3 := View();
      HugeMade(view0, used0, view3, Used(), sector, d, table, blocks, alloc);
      WriteSector(sector, EncodeInode(d));
    }

    /** bcache_write */
    method WriteSector(s: nat, x: Sector)
      requires Valid() && s < freeMap.bitCnt
      modifies cache.device, cache.entries
      ensures Valid() && Used() == old(Used()) && View() == old(View())[s := x]
    {
      ghost var was := View()[s];
      cache.WriteAt(s, x, 0);
      assert Patch(was, 0, x) == x;
    }

    /** One second-level array with `m` zeroed sectors. */
    method NextTable(table1: seq<nat>, i: nat, m: nat, ghost view0: seq<Sector>, ghost used0: seq<bool>,
                     ghost blocks: seq<nat>, ghost alloc: set<nat>, ghost lv1: nat, ghost n: nat)
      returns (ok: bool, r: seq<nat>, ghost blocks': seq<nat>, ghost alloc': set<nat>)
      requires Valid() && IsArray(table1) && i < Arrays(n) && i < PER_ARRAY
      requires m == if i == Arrays(n) - 1 then (if n % PER_ARRAY == 0 then PER_ARRAY else n % PER_ARRAY) else PER_ARRAY
      requires Grows(view0, used0, View(), Used(), alloc)
      requires HugePart(View(), table1, i, blocks, alloc, lv1, n)
      modifies Repr()
      ensures Valid() && IsArray(r) && Grows(view0, used0, View(), Used(), alloc')
      ensures ok ==> HugePart(View(), r, i + 1, blocks', alloc', lv1, n)
      ensures !ok ==> |Free(used0)| < HugeNeeds(n)
    {
      hide Grows, HugePart, Filled, EncodeTable, Table, IsArray, Free;
      ghost var view, used := View(), Used();
      r, blocks', alloc' := table1, blocks, alloc;
      HugeSize(view, table1, i, blocks, alloc, lv1, n);
      GrowsFree(view0, used0, view, used, alloc);
      StillNeeded(n, i, m, |blocks|);
      var s := AllocateOne();
      GrowsFree(view, used, View(), Used(), if s == None then {} else {s.value});
      if s == None {
        GrowsTransitive(view0, used0, view, used, View(), Used(), alloc, {});
        return false, r, blocks', alloc + {};
      }
      ghost var view1, used1 := View(), Used();
      var table2 := EmptyTable();
      ghost var more;
      ok, table2, more := FillArray(table2, 0, m);
      ArrayLength(table2);
      GrowsTransitive(view, used, view1, used1, View(), Used(), {s.value}, more);
      GrowsTransitive(view0, used0, view, used, View(), Used(), alloc, {s.value} + more);
      alloc' := alloc + ({s.value} + more);
      if !ok {
        return;
      }
      if m < PER_ARRAY {
        FilledMarker(View(), table2, 0, m, more, INVALID);
        SetEntry(table2, m, INVALID);
        table2 := table2[m := INVALID];
      }
      ghost var view2 := View();
      GrowsWrite(view0, used0, view2, Used(), alloc', s.value, EncodeTable(table2));
      GrowsLengths(view, used, view1, used1, {s.value});
      HugeMore(view, view2, table1, i, blocks, alloc, lv1, n, s.value, table2, m, more);
      SetEntry(table1, i, s.value);
      WriteSector(s.value, EncodeTable(table2));
      r := table1[i := s.value];
      blocks' := blocks + table2[..m];
    }
  }

  /** Enough free sectors in a row. */
  predicate HasRun(used: seq<bool>, n: nat) {
    exists s: nat | s + n <= |used| :: Uniform(used, s, n, false)
  }

  lemma RunFound(used: seq<bool>, n: nat)
    ensures Scan(used, 0, n, false).Some? <==> HasRun(used, n)
  {
  }

  lemma NoneFree(used: seq<bool>)
    ensures Scan(used, 0, 1, false) == None <==> Free(used) == {}
  {
    if s: nat :| s in Free(used) {
      assert Uniform(used, s, 1, false);
    } else if Scan(used, 0, 1, false).Some? {
      assert Scan(used, 0, 1, false).value in Free(used);
    }
  }

  /** Not one sector can be allocated. */
  predicate DiskFull(used: seq<bool>) {
    Scan(used, 0, 1, false) == None
  }

  /** An index of the first-level array. */
  predicate InFirstLevel(i: nat) {
    i < PER_ARRAY
  }

  /** The entries that the code writes for n sectors are inside the first-level array exactly when n is
      at most HUGE_SECTORS. */
  lemma FirstLevelInside(n: nat)
    ensures (forall i: nat | i < Arrays(n) :: InFirstLevel(i)) <==> n <= HUGE_SECTORS
    ensures Arrays(n) <= PER_ARRAY <==> n <= HUGE_SECTORS
  {
    if n > HUGE_SECTORS {
      assert !InFirstLevel(PER_ARRAY);
    }
  }

  /** A file of 8 MiB and a byte needs an entry number 128, behind the last of 128. */
  lemma PastFirstLevel()
    ensures Arrays(Sectors(0x80_0001)) == 129 && !InFirstLevel(128)
  {
  }

  lemma FitsHuge(length: nat)
    ensures Sectors(length) <= HUGE_SECTORS <==> length <= HUGE_SECTORS * SECTOR_SIZE
    ensures length <= PER_ARRAY * SECTOR_SIZE ==> Sectors(length) <= HUGE_SECTORS
  {
  }

  /** The outcome of creating a file: the inode at `sector` describes a well-formed file of zeros,
      over sectors that were free, and every other allocated sector is as it was. */
  ghost predicate Created(view0: seq<Sector>, used0: seq<bool>, view: seq<Sector>, used: seq<bool>, sector: nat,
                          length: nat, sizeType: Byte, funcType: Byte, parent: nat) {
    && Keeps(view0, used0, view, used, {sector}) && sector < |view|
    && var d := DecodeInode(view[sector]);
    && WellFormed(view, used, d, sector)
    && d.length == length && d.sizeType == sizeType && d.funcType == funcType && d.parent == parent
    && Contents(view, d) == Fill(length, 0)
    && (forall s | s in Own(view, d, sector) :: s == sector || (s < |used0| && !used0[s]))
    && OwnsNew(used0, used, Own(view, d, sector))
  }

  /** The free sectors are enough for a new file, by its type. */
  ghost predicate Enough(used: seq<bool>, length: nat) {
    if length <= SECTOR_SIZE * SMALL_SECTORS then HasRun(used, Sectors(length))
    else length <= SECTOR_SIZE * HUGE_SECTORS && EnoughBigger(used, length)
  }

  ghost predicate EnoughBigger(used: seq<bool>, length: nat) {
    if length <= SECTOR_SIZE * PER_ARRAY then |Free(used)| >= Sectors(length) + 1
    else |Free(used)| >= HugeNeeds(Sectors(length))
  }

  lemma FullHasNone(used: seq<bool>)
    ensures DiskFull(used) ==> |Free(used)| == 0
  {
    NoneFree(used);
  }

  function TypeFor(length: nat): Byte {
    if length <= SECTOR_SIZE * SMALL_SECTORS then SMALL
    else if length <= SECTOR_SIZE * PER_ARRAY then LARGE
    else HUGE
  }

  lemma KeepsSame(view: seq<Sector>, used: seq<bool>)
    requires |view| == |used|
    ensures Keeps(view, used, view, used, {})
  {
  }

  function EmptyTable(): (a: seq<nat>)
    ensures IsArray(a)
  {
    seq(PER_ARRAY, i => 0)
  }

  /** Entries from `from` to `to` are the sectors in `alloc`, each once, and hold zeros. */
  ghost predicate Filled(view: seq<Sector>, a: seq<nat>, from: nat, to: nat, alloc: set<nat>)
    requires from <= to <= |a|
  {
    && Distinct(a[from..to])
    && (forall s :: s in alloc <==> s in a[from..to])
    && (forall s | s in a[from..to] :: s < |view| && view[s] == ZERO_SECTOR)
  }

  lemma FilledMore(view: seq<Sector>, a: seq<nat>, from: nat, i: nat, alloc: set<nat>, s: nat)
    requires from <= i < |a| && Filled(view, a, from, i, alloc) && s !in alloc && s < |view|
    ensures Filled(view[s := ZERO_SECTOR], a[i := s], from, i + 1, alloc + {s})
  {
    assert a[i := s][from..i + 1] == a[from..i] + [s];
  }

  lemma FilledNone(view: seq<Sector>, a: seq<nat>, from: nat)
    requires from <= |a|
    ensures Filled(view, a, from, from, {})
  {
  }

  lemma FilledSize(view: seq<Sector>, a: seq<nat>, from: nat, to: nat, alloc: set<nat>)
    requires from <= to <= |a| && Filled(view, a, from, to, alloc)
    ensures |alloc| == to - from
  {
    MembersCount(a[from..to]);
    assert alloc == Members(a[from..to]);
  }

  ghost function Members(s: seq<nat>): (m: set<nat>)
    ensures forall x :: x in m <==> x in s
  {
    set x | x in s
  }

  lemma {:induction false} MembersCount(s: seq<nat>)
    requires Distinct(s)
    ensures |Members(s)| == |s|
  {
    if s != [] {
      MembersCount(s[1..]);
      hide Members;
      assert s[0] !in s[1..] by {
        assert forall k :: 0 <= k < |s| - 1 ==> s[1..][k] == s[k + 1] != s[0];
      }
      assert forall x :: x in s <==> x == s[0] || x in s[1..];
      assert Members(s) == {s[0]} + Members(s[1..]);
    }
  }

  lemma FilledMarker(view: seq<Sector>, a: seq<nat>, from: nat, to: nat, alloc: set<nat>, x: nat)
    requires from <= to < |a| && Filled(view, a, from, to, alloc)
    ensures Filled(view, a[to := x], from, to, alloc)
  {
    assert a[to := x][from..to] == a[from..to];
  }

  lemma FilledElsewhere(view: seq<Sector>, a: seq<nat>, from: nat, to: nat, alloc: set<nat>, s: nat, x: Sector)
    requires from <= to <= |a| && Filled(view, a, from, to, alloc) && s !in alloc && s < |view|
    ensures Filled(view[s := x], a, from, to, alloc)
  {
  }

  lemma SmallMade(view0: seq<Sector>, used0: seq<bool>, view1: seq<Sector>, view: seq<Sector>, used: seq<bool>,
                  sector: nat, d: DiskInode, n: nat)
    requires |view0| == |used0| < INVALID && sector < |used0| && used0[sector]
    requires d.sizeType == SMALL && Encodable(d) && n == Sectors(d.length) && n <= SMALL_SECTORS
    requires d.start + n <= |used0| && Uniform(used0, d.start, n, false) && used == SetRange(used0, d.start, n, true)
    requires view1 == view0[sector := EncodeInode(d)] && |view| == |view1|
    requires forall s :: 0 <= s < |view1| ==> view[s] == if d.start <= s < d.start + n then ZERO_SECTOR else view1[s]
    ensures Created(view0, used0, view, used, sector, d.length, SMALL, d.funcType, d.parent)
  {
    hide Blocks, MetaBlocks, Contents, TailClear, Separate, Sectors, Own, SetRange, EncodeInode, DecodeInode, Marked,
        Keeps, OwnsNew;
    InodeRoundTrip(d);
    SmallLayout(view0, used0, view1, view, sector, d, n);
    ZeroBytes(view, d);
    SmallSeparate(view0, used0, view, used, sector, d, n);
  }

  lemma SmallLayout(view0: seq<Sector>, used0: seq<bool>, view1: seq<Sector>, view: seq<Sector>, sector: nat,
                    d: DiskInode, n: nat)
    requires |view0| == |used0| && sector < |used0| && used0[sector]
    requires d.sizeType == SMALL && Encodable(d) && Sized(d) && n == Sectors(d.length)
    requires d.start + n <= |used0| && Uniform(used0, d.start, n, false)
    requires view1 == view0[sector := EncodeInode(d)] && |view| == |view1|
    requires forall s :: 0 <= s < |view1| ==> view[s] == if d.start <= s < d.start + n then ZERO_SECTOR else view1[s]
    ensures view[sector] == EncodeInode(d) && Marked(view, d)
    ensures forall b | b in Blocks(view, d) :: b < |view| && view[b] == ZERO_SECTOR
  {
    assert Blocks(view, d) == seq(n, k => d.start + k);
  }

  lemma SmallSeparate(view0: seq<Sector>, used0: seq<bool>, view: seq<Sector>, used: seq<bool>,
                      sector: nat, d: DiskInode, n: nat)
    requires |view0| == |used0| == |view| && sector < |used0| && used0[sector]
    requires d.sizeType == SMALL && Sized(d) && n == Sectors(d.length)
    requires d.start + n <= |used0| && Uniform(used0, d.start, n, false) && used == SetRange(used0, d.start, n, true)
    requires forall s :: 0 <= s < |view0| && s != sector && !(d.start <= s < d.start + n) ==> view[s] == view0[s]
    ensures Separate(view, used, d, sector) && Keeps(view0, used0, view, used, {sector})
    ensures forall s | s in Own(view, d, sector) :: s == sector || (s < |used0| && !used0[s])
    ensures OwnsNew(used0, used, Own(view, d, sector))
  {
    assert Blocks(view, d) == seq(n, k => d.start + k);
    assert MetaBlocks(view, d) == [];
    forall s: nat | s < |used0| && used[s] && !used0[s] ensures s in Own(view, d, sector) {
      assert Blocks(view, d)[s - d.start] == s;
    }
  }

  lemma LargeMade(view0: seq<Sector>, used0: seq<bool>, view: seq<Sector>, used: seq<bool>,
                  sector: nat, d: DiskInode, a: seq<nat>, n: nat, alloc: set<nat>)
    requires |view0| == |used0| < INVALID && sector < |used0| && used0[sector]
    requires d.sizeType == LARGE && Encodable(d) && Sized(d) && n == Sectors(d.length) && IsArray(a)
    requires Grows(view0, used0, view, used, {d.start} + alloc) && d.start !in alloc
    requires Filled(view, a, 0, n, alloc) && view[d.start] == EncodeTable(a)
    requires n < PER_ARRAY ==> a[n] == INVALID
    ensures Created(view0, used0, view[sector := EncodeInode(d)], used, sector, d.length, LARGE, d.funcType, d.parent)
  {
    InodeRoundTrip(d);
    TableRoundTrip(a);
    GrowsThenInode(view0, used0, view, used, {d.start} + alloc, sector, EncodeInode(d));
    var view' := view[sector := EncodeInode(d)];
    assert TableAt(view', d.start) == a;
    assert Blocks(view', d) == a[..n] == a[0..n];
    assert MetaBlocks(view', d) == [d.start];
    ZeroBytes(view', d);
  }

  lemma SetEntry(a: seq<nat>, i: nat, x: nat)
    requires IsArray(a) && i < PER_ARRAY && x < WORD
    ensures |a| == PER_ARRAY && IsArray(a[i := x])
  {
  }

  lemma ArrayLength(a: seq<nat>)
    requires IsArray(a)
    ensures |a| == PER_ARRAY
  {
  }

  lemma GrowsLengths(view0: seq<Sector>, used0: seq<bool>, view: seq<Sector>, used: seq<bool>, alloc: set<nat>)
    requires Grows(view0, used0, view, used, alloc)
    ensures |view| == |view0| == |used| == |used0|
    ensures forall s | s in alloc :: s < |view|
  {
  }

  lemma OneGrows(view: seq<Sector>, used: seq<bool>, s: nat)
    requires |view| == |used| && Scan(used, 0, 1, false) == Some(s)
    ensures s < |used| && Grows(view, used, view, SetRange(used, s, 1, true), {s})
  {
    assert !used[s];
  }

  // ---- the second-level arrays of a huge file ----

  /** After `i` of the arrays: the blocks so far and the arrays are different sectors, and with the
      first-level sector they are all that was allocated. */
  ghost predicate HugeSectors(view: seq<Sector>, a: seq<nat>, i: nat, blocks: seq<nat>, alloc: set<nat>, lv1: nat)
    requires i <= |a|
  {
    && Distinct(blocks) && Distinct(a[..i]) && lv1 !in blocks && lv1 !in a[..i]
    && (forall b | b in blocks :: b !in a[..i])
    && (forall s :: s in alloc <==> s == lv1 || s in a[..i] || s in blocks)
    && (forall s | s in alloc :: s < |view|)
  }

  /** The arrays name the blocks, the blocks hold zeros, and the last array is marked. */
  ghost predicate HugeTables(view: seq<Sector>, a: seq<nat>, i: nat, blocks: seq<nat>, n: nat)
    requires i <= |a|
  {
    && i <= Arrays(n) && |blocks| == (if i < Arrays(n) then i * PER_ARRAY else n)
    && (forall k {:trigger blocks[k]} | 0 <= k < |blocks| ::
                  TableAt(view, a[k / PER_ARRAY])[k % PER_ARRAY] == blocks[k])
    && (forall b | b in blocks :: b < |view| && view[b] == ZERO_SECTOR)
    && (i == Arrays(n) && n % PER_ARRAY != 0 ==> TableAt(view, a[n / PER_ARRAY])[n % PER_ARRAY] == INVALID)
  }

  ghost predicate HugePart(view: seq<Sector>, a: seq<nat>, i: nat, blocks: seq<nat>, alloc: set<nat>, lv1: nat,
                           n: nat) {
    i <= |a| && HugeSectors(view, a, i, blocks, alloc, lv1) && HugeTables(view, a, i, blocks, n)
  }

  lemma HugeNone(view: seq<Sector>, a: seq<nat>, lv1: nat, n: nat)
    requires lv1 < |view|
    ensures HugePart(view, a, 0, [], {lv1}, lv1, n)
  {
  }

  /** What a huge file takes: its sectors, its second-level arrays and the first-level one. */
  function HugeNeeds(n: nat): nat {
    1 + Arrays(n) + n
  }

  lemma HugeSize(view: seq<Sector>, a: seq<nat>, i: nat, blocks: seq<nat>, alloc: set<nat>, lv1: nat, n: nat)
    requires HugePart(view, a, i, blocks, alloc, lv1, n)
    ensures |alloc| == 1 + i + |blocks| && |blocks| == (if i < Arrays(n) then i * PER_ARRAY else n) && i <= Arrays(n)
  {
    hide Distinct, Arrays, TableAt;
    ThreeParts(alloc, lv1, a[..i], blocks);
  }

  lemma ThreeParts(all: set<nat>, x: nat, s: seq<nat>, t: seq<nat>)
    requires Distinct(s) && Distinct(t) && x !in s && x !in t && forall y | y in t :: y !in s
    requires forall y :: y in all <==> y == x || y in s || y in t
    ensures |all| == 1 + |s| + |t|
  {
    MembersCount(s);
    MembersCount(t);
    hide Distinct, Members;
    assert all == {x} + (Members(s) + Members(t)) && Members(s) !! Members(t) && x !in Members(s) + Members(t);
    assert |Members(s) + Members(t)| == |Members(s)| + |Members(t)|;
  }

  lemma StillNeeded(n: nat, i: nat, m: nat, done: nat)
    requires i < Arrays(n) && done == i * PER_ARRAY
    requires m == if i == Arrays(n) - 1 then (if n % PER_ARRAY == 0 then PER_ARRAY else n % PER_ARRAY) else PER_ARRAY
    ensures 1 + i + done + 1 + m <= HugeNeeds(n)
  {
    CountMore(n, i, m);
  }

  lemma HugeHasFirst(view: seq<Sector>, a: seq<nat>, i: nat, blocks: seq<nat>, alloc: set<nat>, lv1: nat, n: nat)
    requires HugePart(view, a, i, blocks, alloc, lv1, n)
    ensures lv1 in alloc && lv1 < |view|
  {
  }

  lemma HugeMarker(view: seq<Sector>, a: seq<nat>, i: nat, blocks: seq<nat>, alloc: set<nat>, lv1: nat, n: nat)
    requires HugePart(view, a, i, blocks, alloc, lv1, n) && i < |a| && i == Arrays(n)
    ensures HugePart(view, a[i := INVALID], i, blocks, alloc, lv1, n)
  {
    assert a[i := INVALID][..i] == a[..i];
  }

  lemma HugeElsewhere(view: seq<Sector>, a: seq<nat>, i: nat, blocks: seq<nat>, alloc: set<nat>, lv1: nat, n: nat,
                      x: Sector)
    requires HugePart(view, a, i, blocks, alloc, lv1, n) && lv1 < |view|
    ensures HugePart(view[lv1 := x], a, i, blocks, alloc, lv1, n)
  {
    TablesElsewhere(view, a, i, blocks, alloc, lv1, n, lv1, x);
  }

  /** The arrays do not change by a write to a sector that is neither one of them nor a block. */
  lemma TablesElsewhere(view: seq<Sector>, a: seq<nat>, i: nat, blocks: seq<nat>, alloc: set<nat>, lv1: nat, n: nat,
                        s: nat, x: Sector)
    requires HugePart(view, a, i, blocks, alloc, lv1, n) && s < |view| && s !in blocks && s !in a[..i]
    ensures HugeTables(view[s := x], a, i, blocks, n)
  {
    hide HugeSectors, TableAt;
    forall k {:trigger blocks[k]} | 0 <= k < |blocks|
      ensures TableAt(view[s := x], a[k / PER_ARRAY])[k % PER_ARRAY] == blocks[k]
    {
      TableElsewhere(view, a, i, k / PER_ARRAY, s, x);
    }
    if i == Arrays(n) && n % PER_ARRAY != 0 {
      TableElsewhere(view, a, i, n / PER_ARRAY, s, x);
    }
  }

  lemma TableElsewhere(view: seq<Sector>, a: seq<nat>, i: nat, j: nat, s: nat, x: Sector)
    requires j < i <= |a| && s < |view| && s !in a[..i]
    ensures TableAt(view[s := x], a[j]) == TableAt(view, a[j])
  {
    assert a[..i][j] == a[j];
  }

  lemma {:induction false} CountMore(n: nat, i: nat, m: nat)
    requires i < Arrays(n)
    requires m == if i == Arrays(n) - 1 then (if n % PER_ARRAY == 0 then PER_ARRAY else n % PER_ARRAY) else PER_ARRAY
    ensures i * PER_ARRAY + m == if i + 1 < Arrays(n) then (i + 1) * PER_ARRAY else n
    ensures m < PER_ARRAY ==> i + 1 == Arrays(n) && m == n % PER_ARRAY && i == n / PER_ARRAY
    ensures i + 1 == Arrays(n) && n % PER_ARRAY != 0 ==> m < PER_ARRAY
  {
  }

  lemma SectorsMore(view: seq<Sector>, a: seq<nat>, i: nat, blocks: seq<nat>, alloc: set<nat>, lv1: nat,
                    s: nat, more: seq<nat>, added: set<nat>)
    requires i < |a| && HugeSectors(view, a, i, blocks, alloc, lv1) && s !in alloc && s < |view| && s !in added
    requires Distinct(more) && alloc !! added && forall b :: b in added <==> b in more
    requires forall b | b in more :: b < |view|
    ensures HugeSectors(view, a[i := s], i + 1, blocks + more, alloc + ({s} + added), lv1)
  {
    var a' := a[i := s];
    assert a'[..i + 1] == a[..i] + [s];
    assert forall b :: b in blocks + more <==> b in blocks || b in more;
    assert forall b :: b in a'[..i + 1] <==> b in a[..i] || b == s;
    assert forall b | b in blocks :: b in alloc;
    assert forall b | b in a[..i] :: b in alloc;
    DistinctConcat(blocks, more);
    DistinctConcat(a[..i], [s]);
  }

  lemma TablesMore(view: seq<Sector>, view': seq<Sector>, a: seq<nat>, i: nat, blocks: seq<nat>, n: nat,
                   s: nat, t: seq<nat>, m: nat)
    requires i < Arrays(n) && i < |a| && HugeTables(view, a, i, blocks, n) && IsArray(t) && s < |view|
    requires m == if i == Arrays(n) - 1 then (if n % PER_ARRAY == 0 then PER_ARRAY else n % PER_ARRAY) else PER_ARRAY
    requires |view'| == |view| && view'[s] == EncodeTable(t) && s !in a[..i]
    requires forall b | b in a[..i] :: b < |view| && view'[b] == view[b]
    requires forall b | b in blocks :: view'[b] == view[b]
    requires forall b | b in t[..m] :: b < |view| && view'[b] == ZERO_SECTOR
    requires m < PER_ARRAY ==> t[m] == INVALID
    ensures HugeTables(view', a[i := s], i + 1, blocks + t[..m], n)
  {
    CountMore(n, i, m);
    TableRoundTrip(t);
    var a', blocks' := a[i := s], blocks + t[..m];
    forall k {:trigger blocks'[k]} | 0 <= k < |blocks'|
      ensures TableAt(view', a'[k / PER_ARRAY])[k % PER_ARRAY] == blocks'[k]
    {
      if k < |blocks| {
        assert blocks'[k] == blocks[k];
        assert a[..i][k / PER_ARRAY] == a[k / PER_ARRAY] && a[k / PER_ARRAY] in a[..i];
      } else {
        assert k / PER_ARRAY == i && k % PER_ARRAY == k - |blocks|;
      }
    }
    assert forall b | b in blocks' :: b in blocks || b in t[..m];
  }

  lemma PartMembers(view: seq<Sector>, a: seq<nat>, i: nat, blocks: seq<nat>, alloc: set<nat>, lv1: nat, n: nat)
    requires HugePart(view, a, i, blocks, alloc, lv1, n)
    ensures forall b | b in a[..i] :: b in alloc && b < |view|
    ensures forall b | b in blocks :: b in alloc && b < |view|
  {
  }

  lemma FilledPrefix(view: seq<Sector>, a: seq<nat>, m: nat, alloc: set<nat>)
    requires m <= |a| && Filled(view, a, 0, m, alloc)
    ensures Distinct(a[..m]) && (forall s :: s in alloc <==> s in a[..m])
    ensures forall s | s in a[..m] :: s < |view| && view[s] == ZERO_SECTOR
  {
    assert a[0..m] == a[..m];
  }

  lemma HugeMore(view: seq<Sector>, view2: seq<Sector>, a: seq<nat>, i: nat, blocks: seq<nat>, alloc: set<nat>,
                 lv1: nat, n: nat, s: nat, t: seq<nat>, m: nat, more: set<nat>)
    requires IsArray(a) && i < Arrays(n) && i < PER_ARRAY && HugePart(view, a, i, blocks, alloc, lv1, n) && IsArray(t)
    requires m == if i == Arrays(n) - 1 then (if n % PER_ARRAY == 0 then PER_ARRAY else n % PER_ARRAY) else PER_ARRAY
    requires |view2| == |view| && s < |view| && s !in alloc && s !in more && alloc !! more
    requires forall b | b in alloc && b < |view| :: view2[b] == view[b]
    requires Filled(view2, t, 0, m, more)
    requires m < PER_ARRAY ==> t[m] == INVALID
    ensures HugePart(view2[s := EncodeTable(t)], a[i := s], i + 1, blocks + t[..m], alloc + ({s} + more), lv1, n)
  {
    var view' := view2[s := EncodeTable(t)];
    PartMembers(view, a, i, blocks, alloc, lv1, n);
    FilledPrefix(view2, t, m, more);
    hide HugeSectors, HugeTables, Filled, Distinct, EncodeTable, Arrays;
    SectorsMore(view, a, i, blocks, alloc, lv1, s, t[..m], more);
    TablesMore(view, view', a, i, blocks, n, s, t, m);
  }

  lemma HugeMade(view0: seq<Sector>, used0: seq<bool>, view: seq<Sector>, used: seq<bool>, sector: nat, d: DiskInode,
                 a: seq<nat>, blocks: seq<nat>, alloc: set<nat>)
    requires |view0| == |used0| < INVALID && sector < |used0| && used0[sector]
    requires d.sizeType == HUGE && Encodable(d) && Sized(d) && IsArray(a)
    requires Grows(view0, used0, view, used, alloc)
    requires HugePart(view, a, Arrays(Sectors(d.length)), blocks, alloc, d.start, Sectors(d.length))
    requires d.start < |view| && view[d.start] == EncodeTable(a)
    requires Arrays(Sectors(d.length)) < PER_ARRAY ==> a[Arrays(Sectors(d.length))] == INVALID
    ensures Created(view0, used0, view[sector := EncodeInode(d)], used, sector, d.length, HUGE, d.funcType, d.parent)
  {
    hide Blocks, MetaBlocks, Contents, TailClear, Marked, Separate, Sectors, Arrays, HugePart, EncodeTable, Table,
         EncodeInode, DecodeInode, Grows, Own, Keeps, OwnsNew;
    InodeRoundTrip(d);
    TableRoundTrip(a);
    GrowsThenInode(view0, used0, view, used, alloc, sector, EncodeInode(d));
    GrowsLengths(view0, used0, view, used, alloc);
    var view' := view[sector := EncodeInode(d)];
    HugeLayout(view, view', sector, d, a, blocks, alloc);
    HugeSeparate(view0, used0, view, view', used, sector, d, a, blocks, alloc);
    ZeroBytes(view', d);
  }

  lemma HugeLayout(view: seq<Sector>, view': seq<Sector>, sector: nat, d: DiskInode, a: seq<nat>, blocks: seq<nat>,
                   alloc: set<nat>)
    requires d.sizeType == HUGE && Sized(d) && IsArray(a) && sector < |view| && sector !in alloc
    requires HugePart(view, a, Arrays(Sectors(d.length)), blocks, alloc, d.start, Sectors(d.length))
    requires d.start < |view| && Table(view[d.start]) == a && |view'| == |view|
    requires forall s :: 0 <= s < |view| && s != sector ==> view'[s] == view[s]
    requires Arrays(Sectors(d.length)) < PER_ARRAY ==> a[Arrays(Sectors(d.length))] == INVALID
    ensures Blocks(view', d) == blocks
    ensures MetaBlocks(view', d) == [d.start] + a[..Arrays(Sectors(d.length))]
    ensures Marked(view', d)
    ensures forall b | b in Blocks(view', d) :: b < |view'| && view'[b] == ZERO_SECTOR
  {
    var n, cnt := Sectors(d.length), Arrays(Sectors(d.length));
    PartMembers(view, a, cnt, blocks, alloc, d.start, n);
    assert d.start in alloc;
    hide HugeSectors, Table;
    assert TableAt(view', d.start) == a;
    forall k | 0 <= k < n ensures Block(view', d, k) == blocks[k] {
      assert a[..cnt][k / PER_ARRAY] == a[k / PER_ARRAY] && a[k / PER_ARRAY] in a[..cnt];
    }
    if n % PER_ARRAY != 0 {
      assert a[..cnt][n / PER_ARRAY] == a[n / PER_ARRAY] && a[n / PER_ARRAY] in a[..cnt];
    }
  }

  lemma HugeSeparate(view0: seq<Sector>, used0: seq<bool>, view: seq<Sector>, view': seq<Sector>, used: seq<bool>,
                     sector: nat, d: DiskInode, a: seq<nat>, blocks: seq<nat>, alloc: set<nat>)
    requires Sized(d) && sector < |view| == |view'| && IsArray(a) && |used0| == |view0| && sector < |used0| &&
             used0[sector]
    requires Blocks(view', d) == blocks && MetaBlocks(view', d) == [d.start] + a[..Arrays(Sectors(d.length))]
    requires HugePart(view, a, Arrays(Sectors(d.length)), blocks, alloc, d.start, Sectors(d.length))
    requires Grows(view0, used0, view, used, alloc)
    ensures Separate(view', used, d, sector)
    ensures forall s | s in Own(view', d, sector) :: s == sector || (s < |used0| && !used0[s])
    ensures OwnsNew(used0, used, Own(view', d, sector))
  {
    var cnt := Arrays(Sectors(d.length));
    GrowsUsed(view0, used0, view, used, alloc);
    PartSectors(view, a, cnt, blocks, alloc, d.start, Sectors(d.length));
    hide Blocks, MetaBlocks, HugePart, HugeSectors, Arrays, Sectors, Sized, Grows, Distinct, IsArray;
    assert forall m | m in [d.start] + a[..cnt] :: m == d.start || m in a[..cnt];
    DistinctConcat([d.start], a[..cnt]);
  }

  lemma GrowsUsed(view0: seq<Sector>, used0: seq<bool>, view: seq<Sector>, used: seq<bool>, alloc: set<nat>)
    requires Grows(view0, used0, view, used, alloc)
    ensures |view| == |view0| == |used| == |used0|
    ensures forall s | s in alloc :: s < |used| && used[s] && !used0[s]
    ensures forall s: nat | s < |used0| && used[s] && !used0[s] :: s in alloc
    ensures forall s :: 0 <= s < |used0| && used0[s] ==> used[s]
  {
  }

  lemma PartSectors(view: seq<Sector>, a: seq<nat>, i: nat, blocks: seq<nat>, alloc: set<nat>, lv1: nat, n: nat)
    requires HugePart(view, a, i, blocks, alloc, lv1, n)
    ensures Distinct(blocks) && Distinct(a[..i]) && lv1 !in blocks && lv1 !in a[..i]
    ensures forall b | b in blocks :: b !in a[..i] && b in alloc
    ensures forall b | b in a[..i] :: b in alloc
    ensures forall b | b in alloc :: b == lv1 || b in a[..i] || b in blocks
    ensures lv1 in alloc
  {
  }
}
