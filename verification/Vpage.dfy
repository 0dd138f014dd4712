/**
 The operations of pintos/src/vm/vpage.c as they change page records, page tables, frames and
 the swap device in place, each proved to make the step that Vm.Step says.
 */
module Vpage {
  import opened Wrappers
  import opened Bitmap
  import opened Bytes
  import opened Swap
  import opened Vm

  class Vpages {
    var pages: PageMap
    var ptes: map<Key, Pte>
    var files: map<FileId, seq<Byte>>
    const pool: Bitmap
    const frames: array<Page>
    const swap: SwapDevice

    ghost predicate Valid() {
      && pool.Valid() && pool.bitCnt == frames.Length && swap.Valid()
      && pool.bits != swap.freeMap.bits
      && frames as object != swap.device as object
      && frames as object != pool.bits as object && frames as object != swap.freeMap.bits as object
      && swap.device as object != pool.bits as object
    }

    ghost function Repr(): set<object> {
      {this, pool.bits, frames, swap.freeMap.bits, swap.device}
    }

    ghost function Current(): (s: State)
      requires Valid()
      reads Repr()
      ensures |s.used| == |s.frames| && |s.swap.bits| == |s.swap.sectors|
    {
      State(pages, ptes, pool.Contents(), frames[..], swap.Current(), files)
    }

    constructor (frames: array<Page>, sectors: array<Sector>, files: map<FileId, seq<Byte>>)
      requires frames as object != sectors as object
      ensures Valid() && Inv(Current()) && Current().pages == map[] && Current().files == files
      ensures this.frames == frames && swap.device == sectors && fresh(Repr() - {frames as object, sectors})
    {
      pages, ptes := map[], map[];
      this.files := files;
      this.frames := frames;
      pool := new Bitmap(frames.Length);
      swap := new SwapDevice(sectors);
      new;
      BootInv(frames[..], sectors[..], files);
    }

    /** evict_page: the scan for the least recently used page. */
    method FindVictim(order: seq<Key>) returns (lru: Option<Key>)
      ensures lru == Victim(pages, order)
    {
      lru := None;
      var i := 0;
      while i < |order|
        invariant i <= |order| && lru == Victim(pages, order[..i])
      {
        assert order[..i + 1][..i] == order[..i];
        var k := order[i];
        if k in pages && pages[k].backend.InMem? {
          if lru.Some? {
            if pages[k].backend.lastUse < pages[lru.value].backend.lastUse {
              lru := Some(k);
            }
          } else {
            lru := Some(k);
          }
        }
        i := i + 1;
      }
      assert order[..i] == order;
    }

    /** vpage_info_inmem_to_swap; false is the NOT_REACHED of swap_out. */
    method InMemToSwap(v: Key) returns (ok: bool)
      requires Valid() && v in pages && pages[v].backend.InMem? && pages[v].backend.frame < frames.Length
      requires Slotted(swap.Current().bits)
      modifies Repr()
      ensures ok <==> ToSwap(old(Current()), v).Some?
      ensures ok ==> Current() == ToSwap(old(Current()), v).value
    {
      ptes := ptes - {v};
      var slot := swap.Out(frames[pages[v].backend.frame]);
      if slot == None {
        return false;
      }
      pages := pages[v := pages[v].(backend := Swapped(slot.value))];
      return true;
    }

    /** palloc_get_page, and evict_page when the pool is used up; None is a kernel panic. */
    method TakeFrame(order: seq<Key>) returns (frame: Option<nat>)
      requires Valid() && Inv(Current()) && Visits(Current(), order)
      modifies Repr()
      ensures forall k | k in old(pages) && old(pages)[k].backend.InMem? :: old(pages)[k].backend.frame < frames.Length
      ensures match GetFrame(old(Current()), order)
              case Some(g) => frame == Some(g.frame) && Current() == g.s
              case None => frame == None
    {
      FramesInRange(Current());
      assert Slotted(swap.Current().bits);
      hide Inv, Visits;
      frame := pool.ScanAndFlip(0, 1, false);
      if frame.Some? {
        frames[frame.value] := ZEROS;
        SetOne(old(pool.Contents()), frame.value, true);
        return;
      }
      var v := FindVictim(order);
      if v == None {
        return None;
      }
      frame := Some(pages[v.value].backend.frame);
      var ok := InMemToSwap(v.value);
      if !ok {
        frame := None;
      }
    }

    method SetPage(k: Key, writable: bool, frame: nat, now: int)
      requires Valid() && frame < frames.Length
      modifies this
      ensures Current() == Install(old(Current()), k, writable, frame, old(frames[frame]), now)
    {
      pages := pages[k := PageInfo(InMem(frame, now), writable)];
      ptes := ptes[k := Pte(frame, writable)];
      assert frames[..] == frames[..][frame := frames[frame]];
    }

    /** vpage_info_lazy_to_inmem; false is a kernel panic. */
    method LazyToInMem(k: Key, order: seq<Key>, now: int) returns (ok: bool)
      requires Valid() && Inv(Current()) && Visits(Current(), order) && k in pages && pages[k].backend.Lazy?
      modifies Repr()
      ensures ok <==> FaultStep(old(Current()), k, order, now).Some?
      ensures ok ==> Current() == FaultStep(old(Current()), k, order, now).value
    {
      hide Inv, Visits, GetFrame, FaultStep, Load, PageAt;
      ghost var s := Current();
      FaultNeedsFrame(s, k, order, now);
      var frame := TakeFrame(order);
      if frame == None {
        return false;
      }
      FaultFills(s, k, order, now);
      FillFrame(frame.value, pages[k].backend);
      SetPage(k, pages[k].writable, frame.value, now);
      return true;
    }

    /** file_read_at and memset over the old contents of the frame. */
    method FillFrame(f: nat, b: Backend)
      requires Valid() && f < frames.Length && b.Lazy?
      requires b.length <= PAGE_SIZE && (b.file.Some? ==> b.file.value in files)
      modifies frames
      ensures frames[..] == old(frames[..])[f := Load(old(frames[f]), files, b.file, b.offset, b.length)]
    {
      if b.file.Some? {
        var bytes := FileBytes(files, b.file.value, b.offset, b.length);
        frames[f] := bytes + frames[f][|bytes|..];
        frames[f] := frames[f][..b.length] + Fill(PAGE_SIZE - b.length, 0);
      } else {
        frames[f] := Fill(PAGE_SIZE, 0);
      }
    }

    /** vpage_info_swap_to_inmem; false is a kernel panic. */
    method SwapToInMem(k: Key, order: seq<Key>, now: int) returns (ok: bool)
      requires Valid() && Inv(Current()) && Visits(Current(), order) && k in pages && pages[k].backend.Swapped?
      modifies Repr()
      ensures ok <==> FaultStep(old(Current()), k, order, now).Some?
      ensures ok ==> Current() == FaultStep(old(Current()), k, order, now).value
    {
      hide Inv, Visits, GetFrame, FaultStep, Load, PageAt, SwapFree;
      ghost var s := Current();
      FaultNeedsFrame(s, k, order, now);
      var frame := TakeFrame(order);
      if frame == None {
        return false;
      }
      ghost var g := GetFrame(s, order).value;
      FaultSwaps(s, k, order, now);
      var page := swap.In(pages[k].backend.slot, frames[frame.value]);
      frames[frame.value] := page;
      assert frames[..] == g.s.frames[frame.value := page];
      SetPage(k, pages[k].writable, frame.value, now);
      return true;
    }

    /** vpage_handle_user_fault for the page k of the faulting process.  `resolved` is
        UFAULT_CONTINUE, otherwise the process is killed; `ok` is false on a kernel panic. */
    method HandleUserFault(k: Key, order: seq<Key>, now: int) returns (ok: bool, resolved: bool)
      requires Valid() && Inv(Current()) && Visits(Current(), order)
      modifies Repr()
      ensures ok <==> FaultStep(old(Current()), k, order, now).Some?
      ensures ok ==> Current() == FaultStep(old(Current()), k, order, now).value && Inv(Current())
      ensures resolved <==> ok && k in old(pages) && !old(pages)[k].backend.InMem?
      ensures resolved ==> k in ptes
    {
      ghost var s := Current();
      FaultResolves(s, k, order, now);
      hide Inv, FaultStep;
      var i := 0;
      while i < |order|
        invariant i <= |order| && k !in order[..i]
      {
        if order[i] == k {
          ok := true;
          resolved := !pages[k].backend.InMem?;
          if pages[k].backend.Lazy? {
            ok := LazyToInMem(k, order, now);
          } else if pages[k].backend.Swapped? {
            ok := SwapToInMem(k, order, now);
          }
          return ok, ok && resolved;
        }
        i := i + 1;
      }
      return true, false;
    }

    /** vpage_info_lazy_allocate; the page is refused if the name is taken. */
    method LazyAllocate(k: Key, file: Option<FileId>, offset: nat, length: nat, writable: bool) returns (made: bool)
      requires Valid() && Inv(Current()) && Enabled(Current(), Event.LazyAllocate(k, file, offset, length, writable))
      modifies this
      ensures Step(old(Current()), Event.LazyAllocate(k, file, offset, length, writable)) == Some(Current())
      ensures Inv(Current()) && (made <==> k !in old(pages))
    {
      StepInv(Current(), Event.LazyAllocate(k, file, offset, length, writable));
      if k in pages {
        return false;
      }
      pages := pages[k := PageInfo(Lazy(file, offset, length), writable)];
      return true;
    }

    /** vpage_info_inmem_allocate; None is a kernel panic. */
    method InMemAllocate(k: Key, writable: bool, order: seq<Key>, now: int) returns (frame: Option<nat>)
      requires Valid() && Inv(Current()) && Enabled(Current(), Event.InMemAllocate(k, writable, order, now))
      modifies Repr()
      ensures match Step(old(Current()), Event.InMemAllocate(k, writable, order, now))
              case None => frame == None
              case Some(s') => frame.Some? && Current() == s' && Inv(Current())
    {
      ghost var s := Current();
      GetFrameInv(s, order);
      frame := TakeFrame(order);
      if frame == None {
        return;
      }
      StepInv(s, Event.InMemAllocate(k, writable, order, now));
      assert frame.value < frames.Length;
      hide Inv, Visits, GetFrame;
      SetPage(k, writable, frame.value, now);
    }

    /** vpage_info_release_inner. */
    method Release(k: Key)
      requires Valid() && Inv(Current()) && k in pages
      modifies Repr()
      ensures Current() == ReleaseStep(old(Current()), k) && Inv(Current())
    {
      ghost var s := Current();
      BackedByInv(s, None, k);
      ReleaseInv(s, k);
      hide Inv;
      match pages[k].backend
      case InMem(f, _) =>
        ptes := ptes - {k};
        frames[f] := Fill(PAGE_SIZE, 0xcc);
        assert frames[..] == s.frames[f := POISON];
        pool.Set(f, false);
        pages := pages - {k};
      case Lazy(_, _, _) =>
        pages := pages - {k};
      case Swapped(slot) =>
        swap.Free(slot);
        pages := pages - {k};
    }

    /** vpage_info_release_all: after each release the iteration starts again, over what is then
        the order of the table. */
    method ReleaseAll(pid: nat)
      requires Valid() && Inv(Current())
      modifies Repr()
      ensures Inv(Current())
      ensures forall k :: k in pages <==> k in old(pages) && k.pid != pid
      ensures forall k | k in pages :: pages[k] == old(pages)[k]
      ensures files == old(files) && SameContents(old(Current()), Current())
    {
      ghost var s := Current();
      SelfContents(s);
      hide Inv, ReleaseStep, SameContents;
      while exists k :: k in pages.Keys && k.pid == pid
        invariant Inv(Current()) && files == old(files) && SameContents(s, Current())
        invariant forall k | k in s.pages && k.pid != pid :: k in pages
        invariant forall k | k in pages :: k in s.pages && pages[k] == s.pages[k]
        decreases |pages|
      {
        var k :| k in pages.Keys && k.pid == pid;
        ReleaseRemoves(Current(), k);
        ReleaseContents(s, Current(), k);
        ghost var before := pages;
        Release(k);
        assert pages.Keys == before.Keys - {k};
      }
    }

    /** vpage_info_set_writable. */
    method SetWritable(k: Key, writable: bool) returns (inmem: bool)
      requires Valid() && Inv(Current())
      modifies this
      ensures Step(old(Current()), Event.SetWritable(k, writable)) == Some(Current()) && Inv(Current())
      ensures inmem <==> k in pages && pages[k].backend.InMem?
    {
      hide Inv, Step;
      SetWritableIs(Current(), k, writable);
      inmem := false;
      if k in pages {
        pages := pages[k := pages[k].(writable := writable)];
        if pages[k].backend.InMem? {
          var frame := ptes[k].frame;
          ghost var mapped := ptes;
          ptes := ptes - {k};
          ptes := ptes[k := Pte(frame, writable)];
          assert ptes == mapped[k := mapped[k].(writable := writable)];
          inmem := true;
        }
      }
    }
  }

  lemma SetOne(bits: seq<bool>, i: nat, v: bool)
    requires i < |bits|
    ensures SetRange(bits, i, 1, v) == bits[i := v]
  {
  }

  lemma LazyBacked(s: State, k: Key)
    requires Inv(s) && k in s.pages && s.pages[k].backend.Lazy?
    ensures s.pages[k].backend.length <= PAGE_SIZE
    ensures s.pages[k].backend.file.Some? ==> s.pages[k].backend.file.value in s.files
  {
  }

  lemma SetWritableIs(s: State, k: Key, w: bool)
    requires Inv(s)
    ensures k in s.pages && s.pages[k].backend.InMem? ==> k in s.ptes
    ensures Step(s, SetWritable(k, w)).Some? && Inv(Step(s, SetWritable(k, w)).value)
    ensures Step(s, SetWritable(k, w)).value ==
            if k !in s.pages then s
            else if s.pages[k].backend.InMem? then
              s.(pages := s.pages[k := s.pages[k].(writable := w)], ptes := s.ptes[k := s.ptes[k].(writable := w)])
            else s.(pages := s.pages[k := s.pages[k].(writable := w)])
  {
    SetWritableInv(s, k, w);
    if k in s.pages && s.pages[k].backend.InMem? {
      assert FrameOf(s.pages, k, s.pages[k].backend.frame);
    }
    hide InvExcept;
  }

  lemma FaultNeedsFrame(s: State, k: Key, order: seq<Key>, now: int)
    requires Inv(s) && Visits(s, order) && k in s.pages && !s.pages[k].backend.InMem?
    ensures forall j | j in s.pages && s.pages[j].backend.InMem? :: s.pages[j].backend.frame < |s.frames|
    ensures FaultStep(s, k, order, now).Some? ==> GetFrame(s, order).Some?
  {
    GetFrameInv(s, order);
  }

  lemma FaultFills(s: State, k: Key, order: seq<Key>, now: int)
    requires Inv(s) && Visits(s, order) && k in s.pages && s.pages[k].backend.Lazy?
    requires forall j | j in s.pages && s.pages[j].backend.InMem? :: s.pages[j].backend.frame < |s.frames|
    requires GetFrame(s, order).Some?
    ensures var g, b := GetFrame(s, order).value, s.pages[k].backend;
            && g.frame < |g.s.frames| && k in g.s.pages && g.s.pages[k] == s.pages[k] && g.s.files == s.files
            && b.length <= PAGE_SIZE && (b.file.Some? ==> b.file.value in s.files)
            && FaultStep(s, k, order, now) ==
               Some(Install(g.s, k, s.pages[k].writable, g.frame,
                            Load(g.s.frames[g.frame], s.files, b.file, b.offset, b.length), now))
  {
    GetFrameInv(s, order);
  }

  lemma FaultSwaps(s: State, k: Key, order: seq<Key>, now: int)
    requires Inv(s) && Visits(s, order) && k in s.pages && s.pages[k].backend.Swapped?
    requires forall j | j in s.pages && s.pages[j].backend.InMem? :: s.pages[j].backend.frame < |s.frames|
    requires GetFrame(s, order).Some?
    ensures var g, i := GetFrame(s, order).value, s.pages[k].backend.slot;
            && g.frame < |g.s.frames| && k in g.s.pages && g.s.pages[k] == s.pages[k]
            && i + SLOT <= |g.s.swap.sectors| && Fits(g.s.swap)
            && FaultStep(s, k, order, now) ==
               Some(Install(g.s, k, s.pages[k].writable, g.frame, PageAt(g.s.swap.sectors, i), now)
                    .(swap := SwapFree(g.s.swap, i)))
  {
    GetFrameInv(s, order);
    BackedByInv(GetFrame(s, order).value.s, Some(GetFrame(s, order).value.frame), k);
  }

  lemma FaultResolves(s: State, k: Key, order: seq<Key>, now: int)
    requires Inv(s) && Visits(s, order)
    ensures match FaultStep(s, k, order, now)
            case None => true
            case Some(s') => Inv(s') && (k in s.pages ==> k in s'.ptes)
    ensures k !in s.pages || s.pages[k].backend.InMem? ==> FaultStep(s, k, order, now) == Some(s)
  {
    if FaultStep(s, k, order, now).Some? {
      FaultInv(s, k, order, now);
      var s' := FaultStep(s, k, order, now).value;
      if k in s.pages {
        FaultContents(s, k, order, now);
        assert FrameOf(s'.pages, k, s'.pages[k].backend.frame);
      }
    }
  }

  lemma SelfContents(s: State)
    requires Inv(s)
    ensures SameContents(s, s)
  {
    forall k | k in s.pages ensures Backed(s, s.pages[k].backend) {
      BackedByInv(s, None, k);
    }
  }

  lemma ReleaseRemoves(s: State, k: Key)
    requires Inv(s) && k in s.pages
    ensures ReleaseStep(s, k).pages == s.pages - {k} && ReleaseStep(s, k).files == s.files
  {
  }

  lemma ReleaseContents(s: State, now: State, k: Key)
    requires Inv(s) && Inv(now) && SameContents(s, now) && k in now.pages
    ensures SameContents(s, ReleaseStep(now, k))
  {
    var after := ReleaseStep(now, k);
    forall j | j in s.pages && j in after.pages
      ensures Backed(s, s.pages[j].backend) && Backed(after, after.pages[j].backend) &&
              Content(after, j) == Content(s, j)
    {
      ReleaseRemoves(now, k);
      OtherContents(now, Event.Release(k), j);
    }
  }
}
