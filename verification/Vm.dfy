/**
 pintos/src/vm/vpage.c over swap.c, palloc.c and the page directories: virtual pages that are
 lazy, in memory or swapped out.

 A page is named by its process and address.  Page directories of different processes are
 different, so one map from these names to frames stands for all of them.  `order` is the order
 in which an iteration visits the hash table of pages; nothing depends on which one it is.
 */
module Vm {
  import opened Wrappers
  import opened Bitmap
  import opened Bytes
  import opened Swap

  datatype Key = Key(pid: nat, uaddr: nat)

  type FileId = nat

  datatype Backend =
    | Lazy(file: Option<FileId>, offset: nat, length: nat)
    | InMem(frame: nat, lastUse: int)
    | Swapped(slot: nat)

  datatype PageInfo = PageInfo(backend: Backend, writable: bool)

  datatype Pte = Pte(frame: nat, writable: bool)

  type PageMap = map<Key, PageInfo>

  datatype State = State(pages: PageMap, ptes: map<Key, Pte>, used: seq<bool>, frames: seq<Page>,
                         swap: Swap, files: map<FileId, seq<Byte>>)

  const ZEROS: Page := Fill(PAGE_SIZE, 0)

  // ---- contents ----

  /** What file_read_at can deliver: it stops at the end of the file. */
  function FileBytes(files: map<FileId, seq<Byte>>, f: FileId, offset: nat, length: nat): (r: seq<Byte>)
    requires f in files
    ensures |r| <= length
  {
    if offset >= |files[f]| then []
    else if offset + length <= |files[f]| then files[f][offset..offset + length]
    else files[f][offset..]
  }

  /** The page that a lazy page stands for: the bytes of the file, then zeros. */
  function LazyContents(files: map<FileId, seq<Byte>>, file: Option<FileId>, offset: nat, length: nat): Page
    requires file.Some? ==> file.value in files
  {
    seq(PAGE_SIZE, i requires 0 <= i < PAGE_SIZE =>
          if file.Some? && i < length && offset + i < |files[file.value]| then files[file.value][offset + i] else 0)
  }

  /** How a frame is filled: file_read_at over its old contents, then memset from `length` on. */
  function Load(frame: Page, files: map<FileId, seq<Byte>>, file: Option<FileId>, offset: nat, length: nat): Page
    requires length <= PAGE_SIZE && (file.Some? ==> file.value in files)
  {
    match file
    case None => ZEROS
    case Some(f) =>
      var bytes := FileBytes(files, f, offset, length);
      (bytes + frame[|bytes|..])[..length] + Fill(PAGE_SIZE - length, 0)
  }

  /** The contents of a live page, wherever it is. */
  function Content(s: State, k: Key): Page
    requires k in s.pages && Backed(s, s.pages[k].backend)
  {
    match s.pages[k].backend
    case Lazy(file, offset, length) => LazyContents(s.files, file, offset, length)
    case InMem(frame, _) => s.frames[frame]
    case Swapped(slot) => PageAt(s.swap.sectors, slot)
  }

  predicate Backed(s: State, b: Backend) {
    match b
    case Lazy(file, offset, length) => length <= PAGE_SIZE && (file.Some? ==> file.value in s.files)
    case InMem(frame, _) => frame < |s.frames|
    case Swapped(slot) => slot + SLOT <= |s.swap.sectors|
  }

  // ---- frames ----

  /** The least recently used page among those that an iteration visits; ties go to the first. */
  function Victim(pages: PageMap, order: seq<Key>): (v: Option<Key>)
    ensures v.Some? ==> v.value in order && v.value in pages && pages[v.value].backend.InMem?
    ensures v.Some? ==> forall k | k in order && k in pages && pages[k].backend.InMem? ::
                          pages[v.value].backend.lastUse <= pages[k].backend.lastUse
    ensures v == None ==> forall k | k in order && k in pages :: !pages[k].backend.InMem?
  {
    if order == [] then None
    else
      var v := Victim(pages, order[..|order| - 1]);
      var k := order[|order| - 1];
      if k in pages && pages[k].backend.InMem? &&
         (v == None || pages[k].backend.lastUse < pages[v.value].backend.lastUse)
      then Some(k) else v
  }

  /** vpage_info_inmem_to_swap; None is the NOT_REACHED of swap_out. */
  function ToSwap(s: State, v: Key): Option<State>
    requires v in s.pages && s.pages[v].backend.InMem? && s.pages[v].backend.frame < |s.frames|
    requires |s.swap.bits| == |s.swap.sectors|
  {
    match SwapOut(s.swap, s.frames[s.pages[v].backend.frame])
    case Stored(slot, swap') =>
      Some(s.(ptes := s.ptes - {v}, pages := s.pages[v := s.pages[v].(backend := Swapped(slot))], swap := swap'))
    case _ => None
  }

  datatype Grant = Grant(s: State, frame: nat)

  /** A frame of the user pool, or else one taken from another page.  None is a kernel panic. */
  function GetFrame(s: State, order: seq<Key>): Option<Grant>
    requires |s.used| == |s.frames| && |s.swap.bits| == |s.swap.sectors|
    requires forall k | k in s.pages && s.pages[k].backend.InMem? :: s.pages[k].backend.frame < |s.frames|
  {
    match Scan(s.used, 0, 1, false)
    case Some(f) => Some(Grant(s.(used := s.used[f := true], frames := s.frames[f := ZEROS]), f))
    case None =>
      match Victim(s.pages, order)
      case None => None
      case Some(v) =>
        match ToSwap(s, v)
        case None => None
        case Some(s') => Some(Grant(s', s.pages[v].backend.frame))
  }

  /** The page k moves into the frame with the given contents. */
  function Install(s: State, k: Key, writable: bool, frame: nat, page: Page, now: int): State
    requires frame < |s.frames|
  {
    s.(pages := s.pages[k := PageInfo(InMem(frame, now), writable)],
       ptes := s.ptes[k := Pte(frame, writable)],
       frames := s.frames[frame := page])
  }

  // ---- operations ----

  datatype Event =
    | Fault(k: Key, order: seq<Key>, now: int)
    | LazyAllocate(k: Key, file: Option<FileId>, offset: nat, length: nat, writable: bool)
    | InMemAllocate(k: Key, writable: bool, order: seq<Key>, now: int)
    | Release(k: Key)
    | SetWritable(k: Key, writable: bool)
    | Store(k: Key, at: nat, byte: Byte)          // the running program writes to memory
    | FileWrite(f: FileId, data: seq<Byte>)       // the file system changes a file

  /** An iteration over the hash table visits the live pages. */
  ghost predicate Visits(s: State, order: seq<Key>) {
    forall k :: k in order <==> k in s.pages
  }

  ghost predicate Enabled(s: State, e: Event) {
    match e
    case Fault(k, order, now) => Visits(s, order)
    case LazyAllocate(k, file, offset, length, w) => length <= PAGE_SIZE && (file.Some? ==> file.value in s.files)
    case InMemAllocate(k, w, order, now) => k !in s.pages && Visits(s, order)
    case Release(k) => k in s.pages
    case SetWritable(k, w) => true
    case Store(k, at, byte) => k in s.ptes && s.ptes[k].writable && s.ptes[k].frame < |s.frames| && at < PAGE_SIZE
    case FileWrite(f, data) => f in s.files
  }

  ghost function FaultStep(s: State, k: Key, order: seq<Key>, now: int): Option<State>
    requires Inv(s) && Visits(s, order)
  {
    GetFrameInv(s, order);
    if k !in s.pages || s.pages[k].backend.InMem? then Some(s)   // UFAULT_KILL
    else
      match GetFrame(s, order)
      case None => None
      case Some(g) =>
        BackedByInv(g.s, Some(g.frame), k);
        match s.pages[k].backend
        case Lazy(file, offset, length) =>
          Some(Install(g.s, k, s.pages[k].writable, g.frame,
                       Load(g.s.frames[g.frame], s.files, file, offset, length), now))
        case Swapped(slot) =>
          Some(Install(g.s, k, s.pages[k].writable, g.frame, PageAt(g.s.swap.sectors, slot), now)
               .(swap := SwapFree(g.s.swap, slot)))
  }

  ghost function ReleaseStep(s: State, k: Key): State
    requires Inv(s) && k in s.pages
  {
    BackedByInv(s, None, k);
    var s' := s.(pages := s.pages - {k});
    match s.pages[k].backend
    case Lazy(_, _, _) => s'
    case InMem(f, _) => s'.(ptes := s.ptes - {k}, used := s.used[f := false], frames := s.frames[f := POISON])
    case Swapped(slot) => s'.(swap := SwapFree(s.swap, slot))
  }

  const POISON: Page := Fill(PAGE_SIZE, 0xcc)

  /** None is a kernel panic. */
  ghost function Step(s: State, e: Event): Option<State>
    requires Inv(s) && Enabled(s, e)
  {
    match e
    case Fault(k, order, now) => FaultStep(s, k, order, now)
    case LazyAllocate(k, file, offset, length, w) =>
      Some(if k in s.pages then s else s.(pages := s.pages[k := PageInfo(Lazy(file, offset, length), w)]))
    case InMemAllocate(k, w, order, now) =>
      GetFrameInv(s, order);
      (match GetFrame(s, order)
       case None => None
       case Some(g) => Some(Install(g.s, k, w, g.frame, g.s.frames[g.frame], now)))
    case Release(k) => Some(ReleaseStep(s, k))
    case SetWritable(k, w) =>
      Some(if k !in s.pages then s
           else
             assert s.pages[k].backend.InMem? ==> FrameOf(s.pages, k, s.pages[k].backend.frame);
             var s' := s.(pages := s.pages[k := s.pages[k].(writable := w)]);
             if s.pages[k].backend.InMem? then s'.(ptes := s.ptes[k := s.ptes[k].(writable := w)]) else s')
    case Store(k, at, byte) =>
      Some(s.(frames := s.frames[s.ptes[k].frame := s.frames[s.ptes[k].frame][at := byte]]))
    case FileWrite(f, data) => Some(s.(files := s.files[f := data]))
  }

  // ---- the invariant ----

  ghost predicate FrameOf(pages: PageMap, k: Key, f: nat) {
    k in pages && pages[k].backend.InMem? && pages[k].backend.frame == f
  }

  ghost predicate SlotOf(pages: PageMap, k: Key, i: nat) {
    k in pages && pages[k].backend == Swapped(i)
  }

  /** Each used frame, save for a spare one, is that of exactly one page, and a page is mapped
      exactly while it is in memory. */
  ghost predicate FramesOk(pages: PageMap, ptes: map<Key, Pte>, used: seq<bool>, spare: Option<nat>) {
    && (forall k, f: nat {:trigger FrameOf(pages, k, f)} | FrameOf(pages, k, f) ::
          f < |used| && used[f] && spare != Some(f) && k in ptes && ptes[k] == Pte(f, pages[k].writable))
    && (forall k | k in ptes :: k in pages && pages[k].backend.InMem?)
    && (forall j, k, f: nat | FrameOf(pages, j, f) && FrameOf(pages, k, f) :: j == k)
    && (forall f: nat | f < |used| && used[f] && spare != Some(f) :: exists k :: FrameOf(pages, k, f))
    && (spare.Some? ==> spare.value < |used| && used[spare.value])
  }

  /** Each slot in use is that of exactly one page, and the set bits are those of the slots. */
  ghost predicate SlotsOk(pages: PageMap, bits: seq<bool>) {
    && Slotted(bits)
    && (forall k, i: nat {:trigger SlotOf(pages, k, i)} | SlotOf(pages, k, i) :: InUse(bits, i))
    && (forall j, k, i: nat | SlotOf(pages, j, i) && SlotOf(pages, k, i) :: j == k)
    && (forall i: nat | InUse(bits, i) :: exists k :: SlotOf(pages, k, i))
  }

  ghost predicate LazyOk(pages: PageMap, files: map<FileId, seq<Byte>>) {
    forall k | k in pages && pages[k].backend.Lazy? ::
      pages[k].backend.length <= PAGE_SIZE && (pages[k].backend.file.Some? ==> pages[k].backend.file.value in files)
  }

  ghost predicate InvExcept(s: State, spare: Option<nat>) {
    && |s.used| == |s.frames| && Fits(s.swap)
    && FramesOk(s.pages, s.ptes, s.used, spare)
    && SlotsOk(s.pages, s.swap.bits)
    && LazyOk(s.pages, s.files)
  }

  ghost predicate Inv(s: State) {
    InvExcept(s, None)
  }

  lemma BackedByInv(s: State, spare: Option<nat>, k: Key)
    requires InvExcept(s, spare) && k in s.pages
    ensures Backed(s, s.pages[k].backend)
  {
    match s.pages[k].backend
    case Lazy(_, _, _) =>
    case InMem(f, _) => assert FrameOf(s.pages, k, f);
    case Swapped(i) => assert SlotOf(s.pages, k, i);
  }

  /** Every page that is live in both states has the same contents in both. */
  ghost predicate SameContents(s: State, s': State) {
    forall k | k in s.pages && k in s'.pages ::
      Backed(s, s.pages[k].backend) && Backed(s', s'.pages[k].backend) && Content(s', k) == Content(s, k)
  }

  // ---- taking a frame ----

  /** What taking a frame may change: pages move to the swap device, and that is all. */
  ghost predicate OnlyEvicts(s: State, s': State) {
    && s'.files == s.files && |s'.frames| == |s.frames| && s'.pages.Keys == s.pages.Keys
    && (forall k | k in s.pages :: s'.pages[k].writable == s.pages[k].writable)
    && (forall k | k in s.pages && !s.pages[k].backend.InMem? :: s'.pages[k] == s.pages[k])
    && (forall k | k in s.pages && s'.pages[k].backend.InMem? :: s'.pages[k] == s.pages[k])
  }

  lemma FreshFrame(s: State, f: nat)
    requires Inv(s) && f < |s.used| && !s.used[f]
    ensures var s' := s.(used := s.used[f := true], frames := s.frames[f := ZEROS]);
            InvExcept(s', Some(f)) && OnlyEvicts(s, s') && SameContents(s, s')
  {
    var s' := s.(used := s.used[f := true], frames := s.frames[f := ZEROS]);
    forall k | k in s.pages
      ensures Backed(s, s.pages[k].backend) && Backed(s', s'.pages[k].backend) && Content(s', k) == Content(s, k)
    {
      BackedByInv(s, None, k);
      if s.pages[k].backend.InMem? {
        assert FrameOf(s.pages, k, s.pages[k].backend.frame);
      }
    }
  }

  lemma ToSwapInv(s: State, v: Key)
    requires Inv(s) && v in s.pages && s.pages[v].backend.InMem? && s.pages[v].backend.frame < |s.frames|
    ensures match ToSwap(s, v)
            case None => SlotsFull(s.swap.bits)
            case Some(s') =>
              InvExcept(s', Some(s.pages[v].backend.frame)) && OnlyEvicts(s, s') && SameContents(s, s')
              && s'.used == s.used && s'.frames == s.frames
  {
    var f := s.pages[v].backend.frame;
    assert FrameOf(s.pages, v, f);
    SwapOutStores(s.swap, s.frames[f]);
    match SwapOut(s.swap, s.frames[f])
    case Stored(slot, swap') =>
      var s' := s.(ptes := s.ptes - {v}, pages := s.pages[v := s.pages[v].(backend := Swapped(slot))], swap := swap');
      EvictFrames(s.pages, s.ptes, s.used, v, slot);
      PagesInUse(s.swap);
      PagesInUse(swap');
      EvictSlots(s.pages, s.swap.bits, swap'.bits, v, slot);
      EvictContents(s, s', v, slot);
    case _ =>
  }

  /** Pages has exactly the slots in use. */
  lemma PagesInUse(s: Swap)
    requires Fits(s)
    ensures forall i: nat :: i in Pages(s) <==> InUse(s.bits, i)
    ensures forall i: nat | InUse(s.bits, i) :: i + SLOT <= |s.sectors| && Pages(s)[i] == PageAt(s.sectors, i)
  {
  }

  lemma EvictFrames(pages: PageMap, ptes: map<Key, Pte>, used: seq<bool>, v: Key, slot: nat)
    requires FramesOk(pages, ptes, used, None) && v in pages && pages[v].backend.InMem?
    ensures FramesOk(pages[v := pages[v].(backend := Swapped(slot))], ptes - {v}, used, Some(pages[v].backend.frame))
  {
    var f := pages[v].backend.frame;
    var pages' := pages[v := pages[v].(backend := Swapped(slot))];
    assert FrameOf(pages, v, f);
    forall k, g: nat ensures FrameOf(pages', k, g) <==> FrameOf(pages, k, g) && k != v {
    }
    forall g: nat | g < |used| && used[g] && g != f ensures exists k :: FrameOf(pages', k, g) {
      var k :| FrameOf(pages, k, g);
      assert FrameOf(pages', k, g);
    }
  }

  lemma EvictSlots(pages: PageMap, bits: seq<bool>, bits': seq<bool>, v: Key, slot: nat)
    requires SlotsOk(pages, bits) && Slotted(bits') && v in pages && pages[v].backend.InMem?
    requires !InUse(bits, slot) && forall i: nat :: InUse(bits', i) <==> i == slot || InUse(bits, i)
    ensures SlotsOk(pages[v := pages[v].(backend := Swapped(slot))], bits')
  {
    hide Slotted, InUse;
    var pages' := pages[v := pages[v].(backend := Swapped(slot))];
    forall k, i: nat ensures SlotOf(pages', k, i) <==> SlotOf(pages, k, i) || (k == v && i == slot) {
    }
    forall i: nat | InUse(bits', i) ensures exists k :: SlotOf(pages', k, i) {
      if i == slot {
        assert SlotOf(pages', v, i);
      } else {
        var k :| SlotOf(pages, k, i);
        assert SlotOf(pages', k, i);
      }
    }
  }

  lemma EvictContents(s: State, s': State, v: Key, slot: nat)
    requires Inv(s) && v in s.pages && s.pages[v].backend.InMem? && s.pages[v].backend.frame < |s.frames|
    requires Fits(s'.swap) && slot !in Pages(s.swap)
    requires Pages(s'.swap) == Pages(s.swap)[slot := s.frames[s.pages[v].backend.frame]]
    requires s' == s.(ptes := s.ptes - {v}, pages := s.pages[v := s.pages[v].(backend := Swapped(slot))],
             swap := s'.swap)
    ensures SameContents(s, s')
  {
    PagesInUse(s.swap);
    PagesInUse(s'.swap);
    forall k | k in s.pages
      ensures Backed(s, s.pages[k].backend) && Backed(s', s'.pages[k].backend) && Content(s', k) == Content(s, k)
    {
      BackedByInv(s, None, k);
      hide InUse, Inv;
      if k == v {
        assert slot in Pages(s'.swap);
      } else if s.pages[k].backend.Swapped? {
        KeepsSlot(s, s', k, slot);
      }
    }
  }

  lemma KeepsSlot(s: State, s': State, k: Key, slot: nat)
    requires InvExcept(s, None) && Fits(s'.swap) && k in s.pages && s.pages[k].backend.Swapped?
    requires slot !in Pages(s.swap)
    requires forall i: nat | i != slot && i in Pages(s.swap) ::
                  i in Pages(s'.swap) && Pages(s'.swap)[i] == Pages(s.swap)[i]
    ensures var i := s.pages[k].backend.slot;
            i + SLOT <= |s.swap.sectors| && i + SLOT <= |s'.swap.sectors| &&
                PageAt(s'.swap.sectors, i) == PageAt(s.swap.sectors, i)
  {
    var i := s.pages[k].backend.slot;
    assert SlotOf(s.pages, k, i);
    PagesInUse(s.swap);
    PagesInUse(s'.swap);
    assert i in Pages(s.swap);
  }

  /** Taking a frame keeps the invariant, with the frame set aside, and the contents of every page. */
  lemma GetFrameInv(s: State, order: seq<Key>)
    requires Inv(s) && Visits(s, order)
    ensures forall k | k in s.pages && s.pages[k].backend.InMem? :: s.pages[k].backend.frame < |s.frames|
    ensures match GetFrame(s, order)
            case Some(g) =>
              InvExcept(g.s, Some(g.frame)) && OnlyEvicts(s, g.s) && SameContents(s, g.s)
            case None => NoFrame(s)
  {
    FramesInRange(s);
    match Scan(s.used, 0, 1, false)
    case Some(f) => FreshFrame(s, f);
    case None =>
      AllUsed(s.used);
      match Victim(s.pages, order)
      case None =>
      case Some(v) => ToSwapInv(s, v);
  }

  lemma FramesInRange(s: State)
    requires Inv(s)
    ensures forall k | k in s.pages && s.pages[k].backend.InMem? :: s.pages[k].backend.frame < |s.frames|
  {
    forall k | k in s.pages && s.pages[k].backend.InMem? ensures s.pages[k].backend.frame < |s.frames| {
      BackedByInv(s, None, k);
    }
  }

  lemma AllUsed(used: seq<bool>)
    requires Scan(used, 0, 1, false) == None
    ensures forall f :: 0 <= f < |used| ==> used[f]
  {
    forall f | 0 <= f < |used| ensures used[f] {
      if !used[f] {
        assert Uniform(used, f, 1, false);
      }
    }
  }

  ghost predicate SlotsFull(bits: seq<bool>) {
    forall i: nat | i % SLOT == 0 && i + SLOT <= |bits| :: InUse(bits, i)
  }

  /** The user pool is used up, and there is no free slot, or no frame at all. */
  ghost predicate NoFrame(s: State) {
    && (forall f :: 0 <= f < |s.used| ==> s.used[f])
    && (|s.used| == 0 || SlotsFull(s.swap.bits))
  }

  // ---- every step keeps the invariant, and the contents of every other page ----

  lemma InstallFrames(pages: PageMap, ptes: map<Key, Pte>, used: seq<bool>, k: Key, writable: bool, f: nat, now: int)
    requires FramesOk(pages, ptes, used, Some(f)) && (k in pages ==> !pages[k].backend.InMem?)
    ensures FramesOk(pages[k := PageInfo(InMem(f, now), writable)], ptes[k := Pte(f, writable)], used, None)
  {
    var pages' := pages[k := PageInfo(InMem(f, now), writable)];
    forall j, g: nat ensures FrameOf(pages', j, g) <==> FrameOf(pages, j, g) || (j == k && g == f) {
    }
    forall g: nat | g < |used| && used[g] ensures exists j :: FrameOf(pages', j, g) {
      if g == f {
        assert FrameOf(pages', k, g);
      } else {
        var j :| FrameOf(pages, j, g);
        assert FrameOf(pages', j, g);
      }
    }
  }

  lemma SameSlots(pages: PageMap, pages': PageMap, bits: seq<bool>)
    requires SlotsOk(pages, bits)
    requires forall k, i: nat :: SlotOf(pages', k, i) <==> SlotOf(pages, k, i)
    ensures SlotsOk(pages', bits)
  {
    hide Slotted, InUse;
    forall i: nat | InUse(bits, i) ensures exists k :: SlotOf(pages', k, i) {
      var k :| SlotOf(pages, k, i);
      assert SlotOf(pages', k, i);
    }
  }

  lemma SameFrames(pages: PageMap, pages': PageMap, ptes: map<Key, Pte>, used: seq<bool>)
    requires FramesOk(pages, ptes, used, None)
    requires forall k, f: nat :: FrameOf(pages', k, f) <==> FrameOf(pages, k, f)
    requires forall k | k in pages && k in pages' :: pages'[k].writable == pages[k].writable
    ensures FramesOk(pages', ptes, used, None)
  {
    forall k | k in ptes ensures k in pages' && pages'[k].backend.InMem? {
      assert FrameOf(pages, k, pages[k].backend.frame);
      assert FrameOf(pages', k, pages[k].backend.frame);
    }
    forall f: nat | f < |used| && used[f] ensures exists k :: FrameOf(pages', k, f) {
      var k :| FrameOf(pages, k, f);
      assert FrameOf(pages', k, f);
    }
  }

  /** Freeing the slot of a page that stops being a swapped one. */
  lemma FreeSlotOf(pages: PageMap, pages': PageMap, swap: Swap, k: Key, slot: nat)
    requires Fits(swap) && SlotsOk(pages, swap.bits) && SlotOf(pages, k, slot)
    requires forall j, i: nat :: SlotOf(pages', j, i) <==> SlotOf(pages, j, i) && j != k
    ensures slot + SLOT <= |swap.bits| && Fits(SwapFree(swap, slot)) && SlotsOk(pages', SwapFree(swap, slot).bits)
  {
    PagesInUse(swap);
    SwapFreeRemoves(swap, slot);
    PagesInUse(SwapFree(swap, slot));
    hide Slotted, InUse, SwapFree;
    var bits' := SwapFree(swap, slot).bits;
    forall i: nat | InUse(bits', i) ensures exists j :: SlotOf(pages', j, i) {
      var j :| SlotOf(pages, j, i);
      assert SlotOf(pages', j, i);
    }
    forall j, i: nat | SlotOf(pages', j, i) ensures InUse(bits', i) {
      assert SlotOf(pages, j, i) && i != slot;
    }
  }

  /** A lazy or new page moves into the spare frame. */
  lemma InstallInv(s: State, k: Key, writable: bool, f: nat, page: Page, now: int)
    requires InvExcept(s, Some(f)) && (k in s.pages ==> s.pages[k].backend.Lazy?)
    ensures f < |s.frames| && Inv(Install(s, k, writable, f, page, now))
  {
    InstallFrames(s.pages, s.ptes, s.used, k, writable, f, now);
    var pages' := Install(s, k, writable, f, page, now).pages;
    forall j, i: nat ensures SlotOf(pages', j, i) <==> SlotOf(s.pages, j, i) {
    }
    SameSlots(s.pages, pages', s.swap.bits);
  }

  lemma InstallSwappedInv(s: State, k: Key, writable: bool, f: nat, page: Page, now: int)
    requires InvExcept(s, Some(f)) && k in s.pages && s.pages[k].backend.Swapped?
    ensures f < |s.frames| && s.pages[k].backend.slot + SLOT <= |s.swap.bits|
    ensures Inv(Install(s, k, writable, f, page, now).(swap := SwapFree(s.swap, s.pages[k].backend.slot)))
  {
    InstallFrames(s.pages, s.ptes, s.used, k, writable, f, now);
    var pages' := Install(s, k, writable, f, page, now).pages;
    forall j, i: nat ensures SlotOf(pages', j, i) <==> SlotOf(s.pages, j, i) && j != k {
    }
    assert SlotOf(s.pages, k, s.pages[k].backend.slot);
    FreeSlotOf(s.pages, pages', s.swap, k, s.pages[k].backend.slot);
  }

  lemma FaultInv(s: State, k: Key, order: seq<Key>, now: int)
    requires Inv(s) && Visits(s, order) && FaultStep(s, k, order, now).Some?
    ensures Inv(FaultStep(s, k, order, now).value)
  {
    GetFrameInv(s, order);
    if k in s.pages && !s.pages[k].backend.InMem? {
      var g := GetFrame(s, order).value;
      BackedByInv(g.s, Some(g.frame), k);
      match s.pages[k].backend
      case Lazy(file, offset, length) =>
        InstallInv(g.s, k, s.pages[k].writable, g.frame, Load(g.s.frames[g.frame], s.files, file, offset, length), now);
      case Swapped(slot) =>
        InstallSwappedInv(g.s, k, s.pages[k].writable, g.frame, PageAt(g.s.swap.sectors, slot), now);
    }
  }

  lemma LazyAllocateInv(s: State, k: Key, file: Option<FileId>, offset: nat, length: nat, w: bool)
    requires Inv(s) && Enabled(s, LazyAllocate(k, file, offset, length, w)) && k !in s.pages
    ensures Inv(s.(pages := s.pages[k := PageInfo(Lazy(file, offset, length), w)]))
  {
    var pages' := s.pages[k := PageInfo(Lazy(file, offset, length), w)];
    forall j, i: nat ensures SlotOf(pages', j, i) <==> SlotOf(s.pages, j, i) {
    }
    forall j, i: nat ensures FrameOf(pages', j, i) <==> FrameOf(s.pages, j, i) {
    }
    SameSlots(s.pages, pages', s.swap.bits);
    SameFrames(s.pages, pages', s.ptes, s.used);
  }

  lemma ReleaseInv(s: State, k: Key)
    requires Inv(s) && k in s.pages
    ensures Inv(ReleaseStep(s, k))
  {
    BackedByInv(s, None, k);
    var pages' := s.pages - {k};
    forall j, i: nat ensures SlotOf(pages', j, i) <==> SlotOf(s.pages, j, i) && j != k {
    }
    forall j, f: nat ensures FrameOf(pages', j, f) <==> FrameOf(s.pages, j, f) && j != k {
    }
    match s.pages[k].backend
    case Lazy(_, _, _) =>
      SameSlots(s.pages, pages', s.swap.bits);
      SameFrames(s.pages, pages', s.ptes, s.used);
    case InMem(f, _) =>
      assert FrameOf(s.pages, k, f);
      SameSlots(s.pages, pages', s.swap.bits);
      ReleaseFrame(s.pages, s.ptes, s.used, k, f);
    case Swapped(slot) =>
      assert SlotOf(s.pages, k, slot);
      FreeSlotOf(s.pages, pages', s.swap, k, slot);
      SameFrames(s.pages, pages', s.ptes, s.used);
  }

  lemma ReleaseFrame(pages: PageMap, ptes: map<Key, Pte>, used: seq<bool>, k: Key, f: nat)
    requires FramesOk(pages, ptes, used, None) && FrameOf(pages, k, f)
    ensures f < |used| && FramesOk(pages - {k}, ptes - {k}, used[f := false], None)
  {
    var pages' := pages - {k};
    forall j, g: nat ensures FrameOf(pages', j, g) <==> FrameOf(pages, j, g) && j != k {
    }
    forall g: nat | g < |used| && used[g] && g != f ensures exists j :: FrameOf(pages', j, g) {
      var j :| FrameOf(pages, j, g);
      assert FrameOf(pages', j, g);
    }
  }

  lemma SetWritableInv(s: State, k: Key, w: bool)
    requires Inv(s)
    ensures Step(s, SetWritable(k, w)).Some? && Inv(Step(s, SetWritable(k, w)).value)
  {
    if k in s.pages {
      var pages' := s.pages[k := s.pages[k].(writable := w)];
      forall j, i: nat ensures SlotOf(pages', j, i) <==> SlotOf(s.pages, j, i) {
      }
      SameSlots(s.pages, pages', s.swap.bits);
      WritableFrames(s.pages, s.ptes, s.used, k, w);
    }
  }

  lemma WritableFrames(pages: PageMap, ptes: map<Key, Pte>, used: seq<bool>, k: Key, w: bool)
    requires FramesOk(pages, ptes, used, None) && k in pages
    ensures pages[k].backend.InMem? ==> k in ptes
    ensures FramesOk(pages[k := pages[k].(writable := w)],
                     if pages[k].backend.InMem? then ptes[k := ptes[k].(writable := w)] else ptes, used, None)
  {
    var pages' := pages[k := pages[k].(writable := w)];
    assert pages[k].backend.InMem? ==> FrameOf(pages, k, pages[k].backend.frame);
    forall j, g: nat ensures FrameOf(pages', j, g) <==> FrameOf(pages, j, g) {
    }
    forall g: nat | g < |used| && used[g] ensures exists j :: FrameOf(pages', j, g) {
      var j :| FrameOf(pages, j, g);
      assert FrameOf(pages', j, g);
    }
  }

  /** Every step that does not panic keeps the invariant: in-memory pages own different frames,
      swapped pages different slots, the set bits of the swap map are exactly those of the
      slots, and a page is mapped exactly while it is in memory. */
  lemma StepInv(s: State, e: Event)
    requires Inv(s) && Enabled(s, e) && Step(s, e).Some?
    ensures Inv(Step(s, e).value)
  {
    match e
    case Fault(k, order, now) => FaultInv(s, k, order, now);
    case LazyAllocate(k, file, offset, length, w) =>
      if k !in s.pages { LazyAllocateInv(s, k, file, offset, length, w); }
    case InMemAllocate(k, w, order, now) =>
      GetFrameInv(s, order);
      var g := GetFrame(s, order).value;
      InstallInv(g.s, k, w, g.frame, g.s.frames[g.frame], now);
    case Release(k) => ReleaseInv(s, k);
    case SetWritable(k, w) => SetWritableInv(s, k, w);
    case Store(k, at, byte) =>
    case FileWrite(f, data) =>
  }

  // ---- contents over a step ----

  /** The operations that are meant to change what page k holds, and page faults on k. */
  ghost predicate Concerns(s: State, e: Event, k: Key)
    requires k in s.pages
  {
    match e
    case Fault(j, _, _) => j == k
    case Release(j) => j == k
    case Store(j, _, _) => j == k
    case FileWrite(f, _) => s.pages[k].backend.Lazy? && s.pages[k].backend.file == Some(f)
    case _ => false
  }

  lemma InstallContents(s: State, j: Key, w: bool, f: nat, page: Page, now: int, k: Key)
    requires InvExcept(s, Some(f)) && f < |s.frames| && k in s.pages && k != j
    ensures var s' := Install(s, j, w, f, page, now);
            Backed(s, s.pages[k].backend) && Backed(s', s'.pages[k].backend) && Content(s', k) == Content(s, k)
  {
    BackedByInv(s, Some(f), k);
    if s.pages[k].backend.InMem? {
      assert FrameOf(s.pages, k, s.pages[k].backend.frame);
    }
  }

  lemma FaultOthers(s: State, j: Key, order: seq<Key>, now: int, k: Key)
    requires Inv(s) && Visits(s, order) && FaultStep(s, j, order, now).Some? && k in s.pages && k != j
    ensures var s' := FaultStep(s, j, order, now).value;
            && k in s'.pages && Backed(s, s.pages[k].backend) && Backed(s', s'.pages[k].backend)
            && Content(s', k) == Content(s, k)
  {
    BackedByInv(s, None, k);
    GetFrameInv(s, order);
    if j in s.pages && !s.pages[j].backend.InMem? {
      var g := GetFrame(s, order).value;
      BackedByInv(g.s, Some(g.frame), j);
      assert Content(g.s, k) == Content(s, k);
      hide GetFrame, OnlyEvicts, Content;
      match s.pages[j].backend
      case Lazy(file, offset, length) =>
        InstallContents(g.s, j, s.pages[j].writable, g.frame,
            Load(g.s.frames[g.frame], s.files, file, offset, length), now, k);
      case Swapped(slot) =>
        InstallContents(g.s, j, s.pages[j].writable, g.frame, PageAt(g.s.swap.sectors, slot), now, k);
        var s1 := Install(g.s, j, s.pages[j].writable, g.frame, PageAt(g.s.swap.sectors, slot), now);
        SameSectors(s1, SwapFree(g.s.swap, slot), k);
    }
  }

  /** The bits of the swap map do not matter to the contents. */
  lemma SameSectors(s: State, swap: Swap, k: Key)
    requires k in s.pages && Backed(s, s.pages[k].backend) && swap.sectors == s.swap.sectors
    ensures Backed(s.(swap := swap), s.pages[k].backend) && Content(s.(swap := swap), k) == Content(s, k)
  {
  }

  lemma InMemAllocateOthers(s: State, j: Key, w: bool, order: seq<Key>, now: int, k: Key)
    requires Inv(s) && Enabled(s, InMemAllocate(j, w, order, now)) && k in s.pages
    requires Step(s, InMemAllocate(j, w, order, now)).Some?
    ensures var s' := Step(s, InMemAllocate(j, w, order, now)).value;
            && k in s'.pages && Backed(s, s.pages[k].backend) && Backed(s', s'.pages[k].backend)
            && Content(s', k) == Content(s, k)
  {
    GetFrameInv(s, order);
    var g := GetFrame(s, order).value;
    assert Content(g.s, k) == Content(s, k);
    hide GetFrame, Content;
    InstallContents(g.s, j, w, g.frame, g.s.frames[g.frame], now, k);
  }

  /** No step changes the contents of a page that it does not concern. */
  lemma OtherContents(s: State, e: Event, k: Key)
    requires Inv(s) && Enabled(s, e) && Step(s, e).Some? && k in s.pages && !Concerns(s, e, k)
    ensures var s' := Step(s, e).value;
            && k in s'.pages && Backed(s, s.pages[k].backend) && Backed(s', s'.pages[k].backend)
            && Content(s', k) == Content(s, k)
  {
    BackedByInv(s, None, k);
    match e
    case Fault(j, order, now) => FaultOthers(s, j, order, now, k);
    case InMemAllocate(j, w, order, now) => InMemAllocateOthers(s, j, w, order, now, k);
    case Release(j) =>
      BackedByInv(s, None, j);
      SameFrameSamePage(s, j, k);
    case Store(j, at, byte) =>
      SameFrameSamePage(s, j, k);
      assert FrameOf(s.pages, j, s.pages[j].backend.frame);
    case _ =>
  }

  lemma SameFrameSamePage(s: State, j: Key, k: Key)
    requires Inv(s) && j in s.pages && k in s.pages && j != k
    ensures s.pages[j].backend.InMem? && s.pages[k].backend.InMem? ==>
            s.pages[j].backend.frame != s.pages[k].backend.frame
  {
    if s.pages[j].backend.InMem? && s.pages[k].backend.InMem? {
      assert FrameOf(s.pages, j, s.pages[j].backend.frame) && FrameOf(s.pages, k, s.pages[k].backend.frame);
    }
  }

  // ---- contents of the page itself ----

  /** What a frame holds when it is handed out: zeros if it comes from the pool, and otherwise
      the page of its last owner, which nobody clears. */
  function Scavenged(s: State, order: seq<Key>): Page
    requires |s.used| == |s.frames|
    requires forall k | k in s.pages && s.pages[k].backend.InMem? :: s.pages[k].backend.frame < |s.frames|
  {
    var v := Victim(s.pages, order);
    if Scan(s.used, 0, 1, false).Some? || v == None then ZEROS else s.frames[s.pages[v.value].backend.frame]
  }

  /** The part of the page between the end of the file and `length` is clear in the frame. */
  ghost predicate GapClear(files: map<FileId, seq<Byte>>, b: Backend, frame: Page)
    requires b.Lazy? && (b.file.Some? ==> b.file.value in files)
  {
    b.file.Some? ==>
      forall i | 0 <= i < b.length && i < PAGE_SIZE && b.offset + i >= |files[b.file.value]| :: frame[i] == 0
  }

  lemma LoadIs(frame: Page, files: map<FileId, seq<Byte>>, f: FileId, offset: nat, length: nat, i: nat)
    requires length <= PAGE_SIZE && f in files && i < PAGE_SIZE
    ensures Load(frame, files, Some(f), offset, length)[i] ==
            if i >= length then 0
            else if offset + i < |files[f]| then files[f][offset + i]
            else frame[i]
  {
  }

  lemma LoadExact(frame: Page, files: map<FileId, seq<Byte>>, b: Backend)
    requires b.Lazy? && b.length <= PAGE_SIZE && (b.file.Some? ==> b.file.value in files)
    ensures Load(frame, files, b.file, b.offset, b.length) == LazyContents(files, b.file, b.offset, b.length)
            <==> GapClear(files, b, frame)
  {
    var loaded := Load(frame, files, b.file, b.offset, b.length);
    var meant := LazyContents(files, b.file, b.offset, b.length);
    if b.file.Some? {
      forall i: nat | i < PAGE_SIZE
        ensures loaded[i] == if i < b.length && b.offset + i >= |files[b.file.value]| then frame[i] else meant[i]
      {
        LoadIs(frame, files, b.file.value, b.offset, b.length, i);
      }
      hide Load;
      if GapClear(files, b, frame) {
        assert forall i :: 0 <= i < PAGE_SIZE ==> loaded[i] == meant[i];
      }
    } else {
      assert forall i :: 0 <= i < PAGE_SIZE ==> meant[i] == ZEROS[i];
    }
  }

  lemma GrantHolds(s: State, order: seq<Key>)
    requires Inv(s) && Visits(s, order)
    ensures forall k | k in s.pages && s.pages[k].backend.InMem? :: s.pages[k].backend.frame < |s.frames|
    ensures match GetFrame(s, order)
            case Some(g) => g.frame < |g.s.frames| && g.s.frames[g.frame] == Scavenged(s, order)
            case None => true
  {
    FramesInRange(s);
  }

  /** When a fault leaves the faulting page as it should be: always, except for a lazy page
      whose file is shorter than the page says, filled into a frame that was taken from a page
      with something else in that place. */
  ghost predicate FaultKeeps(s: State, k: Key, order: seq<Key>)
    requires Inv(s) && Visits(s, order)
  {
    FramesInRange(s);
    k in s.pages && s.pages[k].backend.Lazy? ==> GapClear(s.files, s.pages[k].backend, Scavenged(s, order))
  }

  lemma FaultContents(s: State, k: Key, order: seq<Key>, now: int)
    requires Inv(s) && Visits(s, order) && FaultStep(s, k, order, now).Some? && k in s.pages
    ensures var s' := FaultStep(s, k, order, now).value;
            && k in s'.pages && Backed(s, s.pages[k].backend) && Backed(s', s'.pages[k].backend)
            && s'.pages[k].backend.InMem?
            && (Content(s', k) == Content(s, k) <==> FaultKeeps(s, k, order))
  {
    BackedByInv(s, None, k);
    if !s.pages[k].backend.InMem? {
      GetFrameInv(s, order);
      GrantHolds(s, order);
      var g := GetFrame(s, order).value;
      BackedByInv(g.s, Some(g.frame), k);
      match s.pages[k].backend
      case Lazy(file, offset, length) => LoadExact(g.s.frames[g.frame], s.files, s.pages[k].backend);
      case Swapped(slot) =>
        assert Content(g.s, k) == Content(s, k);
    }
  }

  /** A free frame, or a file that reaches as far as the page says, is enough. */
  lemma FaultKeepsWhen(s: State, k: Key, order: seq<Key>)
    requires Inv(s) && Visits(s, order) && k in s.pages
    requires s.pages[k].backend.Lazy? && s.pages[k].backend.file.Some? ==>
               || (exists f :: 0 <= f < |s.used| && !s.used[f])
               || (s.pages[k].backend.file.value in s.files &&
                   s.pages[k].backend.offset + s.pages[k].backend.length <= |s.files[s.pages[k].backend.file.value]|)
    ensures FaultKeeps(s, k, order)
  {
    FramesInRange(s);
    if s.pages[k].backend.Lazy? && s.pages[k].backend.file.Some? {
      if f :| 0 <= f < |s.used| && !s.used[f] {
        if Scan(s.used, 0, 1, false) == None {
          AllUsed(s.used);
        }
      }
    }
  }

  /** A page allocated in memory is meant to be clear; it is exactly when its frame was. */
  lemma InMemAllocateContents(s: State, k: Key, w: bool, order: seq<Key>, now: int)
    requires Inv(s) && Enabled(s, InMemAllocate(k, w, order, now)) && Step(s, InMemAllocate(k, w, order, now)).Some?
    ensures forall j | j in s.pages && s.pages[j].backend.InMem? :: s.pages[j].backend.frame < |s.frames|
    ensures var s' := Step(s, InMemAllocate(k, w, order, now)).value;
            && k in s'.pages && Backed(s', s'.pages[k].backend)
            && (Content(s', k) == ZEROS <==> Scavenged(s, order) == ZEROS)
  {
    GetFrameInv(s, order);
    GrantHolds(s, order);
  }

  lemma StoreContents(s: State, k: Key, at: nat, byte: Byte)
    requires Inv(s) && Enabled(s, Store(k, at, byte))
    ensures k in s.pages && Backed(s, s.pages[k].backend)
    ensures var s' := Step(s, Store(k, at, byte)).value;
            Backed(s', s'.pages[k].backend) && Content(s', k) == Content(s, k)[at := byte]
  {
    BackedByInv(s, None, k);
    assert FrameOf(s.pages, k, s.pages[k].backend.frame);
  }

  // ---- panics ----

  ghost predicate NeedsFrame(s: State, e: Event) {
    match e
    case Fault(k, _, _) => k in s.pages && !s.pages[k].backend.InMem?
    case InMemAllocate(_, _, _, _) => true
    case _ => false
  }

  /** The kernel panics exactly when a frame is needed, the user pool is used up and either the
      swap device is full or the pool has no frame at all.  In particular the assertion that
      there is a page to evict holds for every pool with a frame, and swap never fragments. */
  lemma PanicsExactly(s: State, e: Event)
    requires Inv(s) && Enabled(s, e)
    ensures Step(s, e) == None <==> NeedsFrame(s, e) && NoFrame(s)
  {
    if e.Fault? || e.InMemAllocate? {
      GetFrameInv(s, e.order);
      if NoFrame(s) {
        NoGrant(s, e.order);
      }
    }
  }

  lemma NoGrant(s: State, order: seq<Key>)
    requires Inv(s) && Visits(s, order) && NoFrame(s)
    ensures forall k | k in s.pages && s.pages[k].backend.InMem? :: s.pages[k].backend.frame < |s.frames|
    ensures GetFrame(s, order) == None
  {
    FramesInRange(s);
    match Victim(s.pages, order)
    case None =>
    case Some(v) => SwapOutStores(s.swap, s.frames[s.pages[v].backend.frame]);
  }

  // ---- runs ----

  /** The state after a run, if every event is enabled where it comes and none panics. */
  ghost function Run(s: State, es: seq<Event>): (r: Option<State>)
    requires Inv(s)
    ensures r.Some? ==> Inv(r.value)
    decreases |es|
  {
    if es == [] then Some(s)
    else if Enabled(s, es[0]) && Step(s, es[0]).Some? then
      StepInv(s, es[0]);
      Run(Step(s, es[0]).value, es[1..])
    else None
  }

  /** Page k is only ever faulted in, and each time in the way that keeps its contents. */
  ghost predicate Undisturbed(s: State, es: seq<Event>, k: Key)
    requires Inv(s) && Run(s, es).Some?
    decreases |es|
  {
    es == [] ||
    (k in s.pages && (Concerns(s, es[0], k) ==> es[0].Fault? && FaultKeeps(s, k, es[0].order)) &&
     (StepInv(s, es[0]); Undisturbed(Step(s, es[0]).value, es[1..], k)))
  }

  /** Over every run of faults, evictions, allocations and releases, a page holds what it held. */
  lemma {:induction false} ContentsSurvive(s: State, es: seq<Event>, k: Key)
    requires Inv(s) && k in s.pages && Run(s, es).Some? && Undisturbed(s, es, k)
    ensures var s' := Run(s, es).value;
            && k in s'.pages && Backed(s, s.pages[k].backend) && Backed(s', s'.pages[k].backend)
            && Content(s', k) == Content(s, k)
    decreases |es|
  {
    BackedByInv(s, None, k);
    if es != [] {
      StepInv(s, es[0]);
      var s' := Step(s, es[0]).value;
      if Concerns(s, es[0], k) {
        FaultContents(s, k, es[0].order, es[0].now);
      } else {
        OtherContents(s, es[0], k);
      }
      hide Step, Content, Inv, Concerns, FaultKeeps, Enabled;
      ContentsSurvive(s', es[1..], k);
    }
  }

  /** The machine as it boots. */
  lemma BootInv(frames: seq<Page>, sectors: seq<Sector>, files: map<FileId, seq<Byte>>)
    ensures Inv(State(map[], map[], seq(|frames|, i => false), frames, Swap(seq(|sectors|, i => false), sectors),
            files))
  {
  }

  // ---- a lazy page can come in with another page's bytes ----

  const A := Key(1, 0x1000)
  const B := Key(2, 0x1000)

  /** One frame that page A owns and whose first byte is 7, room for one page on the swap device,
      and a lazy page B over an empty file. */
  function OneFrame(sectors: seq<Sector>): State
    requires |sectors| == SLOT
  {
    State(map[A := PageInfo(InMem(0, 0), true), B := PageInfo(Lazy(Some(0), 0, PAGE_SIZE), false)],
          map[A := Pte(0, true)], [true], [ZEROS[0 := 7]],
          Swap([false, false, false, false, false, false, false, false], sectors), map[0 := []])
  }

  lemma RunStep(s: State, e: Event, es: seq<Event>, s': State)
    requires Inv(s) && Enabled(s, e) && Step(s, e) == Some(s')
    ensures Inv(s') && Run(s, [e] + es) == Run(s', es)
  {
    StepInv(s, e);
    assert ([e] + es)[1..] == es;
  }

  lemma RunEnd(s: State)
    requires Inv(s)
    ensures Run(s, []) == Some(s)
  {
  }

  function Boot(sectors: seq<Sector>): State
    requires |sectors| == SLOT
  {
    State(map[], map[], [false], [ZEROS], Swap([false, false, false, false, false, false, false, false], sectors),
        map[0 := []])
  }

  const FILLING := [InMemAllocate(A, true, [], 0), Store(A, 0, 7), LazyAllocate(B, Some(0), 0, PAGE_SIZE, false)]

  lemma FirstAllocation(sectors: seq<Sector>)
    requires |sectors| == SLOT && Inv(Boot(sectors))
    ensures Step(Boot(sectors), InMemAllocate(A, true, [], 0)) ==
            Some(Boot(sectors).(pages := map[A := PageInfo(InMem(0, 0), true)], ptes := map[A := Pte(0, true)],
                used := [true]))
  {
    assert Scan([false], 0, 1, false) == Some(0) by { assert Uniform([false], 0, 1, false); }
    assert [false][0 := true] == [true] && [ZEROS][0 := ZEROS] == [ZEROS];
  }

  lemma OneFrameReached(sectors: seq<Sector>)
    requires |sectors| == SLOT
    ensures Inv(Boot(sectors)) && Run(Boot(sectors), FILLING) == Some(OneFrame(sectors)) && Inv(OneFrame(sectors))
  {
    assert Boot(sectors).swap.bits == seq(|sectors|, i => false) && [false] == seq(|[ZEROS]|, i => false);
    BootInv([ZEROS], sectors, map[0 := []]);
    FirstAllocation(sectors);
    hide Inv, Run;
    var s1 := Boot(sectors).(pages := map[A := PageInfo(InMem(0, 0), true)], ptes := map[A := Pte(0, true)],
        used := [true]);
    var s2 := s1.(frames := [ZEROS[0 := 7]]);
    assert [ZEROS][0 := ZEROS[0 := 7]] == [ZEROS[0 := 7]];
    RunStep(Boot(sectors), FILLING[0], FILLING[1..], s1);
    assert FILLING == [FILLING[0]] + FILLING[1..];
    RunStep(s1, FILLING[1], FILLING[2..], s2);
    assert FILLING[1..] == [FILLING[1]] + FILLING[2..];
    RunStep(s2, FILLING[2], [], OneFrame(sectors));
    assert FILLING[2..] == [FILLING[2]] + [];
    RunEnd(OneFrame(sectors));
  }

  /** A page over an empty file should read as zeros; faulted in when the pool is used up, it
      reads as the page that was evicted for it. */
  lemma StaleBytes(sectors: seq<Sector>)
    requires |sectors| == SLOT
    ensures Inv(OneFrame(sectors)) && Visits(OneFrame(sectors), [A, B])
    ensures Backed(OneFrame(sectors), Lazy(Some(0), 0, PAGE_SIZE)) && Content(OneFrame(sectors), B)[0] == 0
    ensures var r := FaultStep(OneFrame(sectors), B, [A, B], 1);
            r.Some? && B in r.value.pages && r.value.pages[B].backend == InMem(0, 1) &&
            |r.value.frames| == 1 && r.value.frames[0][0] == 7
  {
    OneFrameReached(sectors);
    var s := OneFrame(sectors);
    assert !InUse(s.swap.bits, 0);
    PanicsExactly(s, Fault(B, [A, B], 1));
    FramesInRange(s);
    assert Victim(s.pages, [A, B]) == Some(A) by {
      assert [A, B][..1] == [A] && [A][..0] == [];
    }
    assert Scan([true], 0, 1, false) == None by { assert !Uniform([true], 0, 1, false); }
    GrantHolds(s, [A, B]);
    var g := GetFrame(s, [A, B]).value;
    LoadIs(g.s.frames[0], s.files, 0, 0, PAGE_SIZE, 0);
  }
}
