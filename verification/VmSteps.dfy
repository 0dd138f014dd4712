/**
 What each operation of pintos/src/vm/vpage.c does to the pages, said of the states before and
 after: which page is evicted, where the page comes in, and that it keeps its protection.
 */
module VmSteps {
  import opened Wrappers
  import opened Bitmap
  import opened Bytes
  import opened Swap
  import opened Vm

  // ---- which frame is taken ----

  ghost predicate FreeFrame(s: State) {
    exists f :: 0 <= f < |s.used| && !s.used[f]
  }

  /** v is the page in memory that was brought in longest ago; of several, the first visited. */
  ghost predicate LeastRecent(pages: PageMap, order: seq<Key>, v: Key) {
    exists i :: 0 <= i < |order| && order[i] == v && Oldest(pages, order, i)
  }

  ghost predicate Oldest(pages: PageMap, order: seq<Key>, i: nat) {
    && i < |order| && order[i] in pages && pages[order[i]].backend.InMem?
    && (forall k | k in order && k in pages && pages[k].backend.InMem? ::
          pages[order[i]].backend.lastUse <= pages[k].backend.lastUse)
    && (forall j | 0 <= j < i && order[j] in pages && pages[order[j]].backend.InMem? ::
          pages[order[i]].backend.lastUse < pages[order[j]].backend.lastUse)
  }

  lemma {:induction false} VictimIsOldest(pages: PageMap, order: seq<Key>)
    ensures var v := Victim(pages, order);
            v.Some? ==> LeastRecent(pages, order, v.value)
  {
    if order != [] {
      var n := |order| - 1;
      var init := order[..n];
      VictimIsOldest(pages, init);
      var v, w := Victim(pages, order), Victim(pages, init);
      assert v == w || (v == Some(order[n]) && v.value in pages && pages[v.value].backend.InMem?);
      hide Oldest, Victim;
      if v.Some? {
        if v == w {
          var i :| 0 <= i < |init| && init[i] == v.value && Oldest(pages, init, i);
          OldestStill(pages, order, i);
        } else {
          OldestLast(pages, order);
        }
      }
    }
  }

  lemma OldestStill(pages: PageMap, order: seq<Key>, i: nat)
    requires order != [] && i < |order| - 1 && Oldest(pages, order[..|order| - 1], i)
    requires Victim(pages, order) == Some(order[i])
    ensures Oldest(pages, order, i)
  {
    var init := order[..|order| - 1];
    hide Victim;
    assert forall j :: 0 <= j < |init| ==> init[j] == order[j];
  }

  lemma OldestLast(pages: PageMap, order: seq<Key>)
    requires order != []
    requires Victim(pages, order) == Some(order[|order| - 1]) != Victim(pages, order[..|order| - 1])
    ensures Oldest(pages, order, |order| - 1)
  {
    var n := |order| - 1;
    var init, w := order[..n], Victim(pages, order[..n]);
    assert w.Some? ==> pages[order[n]].backend.lastUse < pages[w.value].backend.lastUse;
    hide Victim;
    forall j | 0 <= j < n && order[j] in pages && pages[order[j]].backend.InMem?
      ensures pages[order[n]].backend.lastUse < pages[order[j]].backend.lastUse
    {
      assert init[j] == order[j] && order[j] in init;
    }
  }

  /** A frame is taken for page k: the first free one while there is one, and then every other page stays
      where it is; otherwise the frame of the page used longest ago, which alone moves, to the swap
      device. */
  ghost predicate Takes(s: State, order: seq<Key>, k: Key, frame: nat, pages: PageMap) {
    if FreeFrame(s) then
      && frame < |s.used| && !s.used[frame] && (forall f :: 0 <= f < frame ==> s.used[f])
      && (forall j | j in s.pages && j != k :: j in pages && pages[j] == s.pages[j])
    else
      exists v | v in s.pages && LeastRecent(s.pages, order, v) :: Moves(s, k, v, frame, pages)
  }

  ghost predicate Moves(s: State, k: Key, v: Key, frame: nat, pages: PageMap) {
    && v != k && v in s.pages && s.pages[v].backend.InMem? && s.pages[v].backend.frame == frame
    && v in pages && pages[v].backend.Swapped? && pages[v].writable == s.pages[v].writable
    && (forall j | j in s.pages && j != k && j != v :: j in pages && pages[j] == s.pages[j])
  }

  lemma FirstFree(used: seq<bool>)
    ensures match Scan(used, 0, 1, false)
            case Some(f) => f < |used| && !used[f] && (forall j :: 0 <= j < f ==> used[j])
            case None => forall f :: 0 <= f < |used| ==> used[f]
  {
    match Scan(used, 0, 1, false)
    case None => AllUsed(used);
    case Some(f) =>
      assert FirstFit(used, 0, 1, false, Some(f));
      forall j | 0 <= j < f ensures used[j] {
        assert !Uniform(used, j, 1, false);
      }
  }

  lemma GetFrameTakes(s: State, order: seq<Key>, k: Key)
    requires Inv(s) && Visits(s, order) && (k in s.pages ==> !s.pages[k].backend.InMem?)
    ensures forall k | k in s.pages && s.pages[k].backend.InMem? :: s.pages[k].backend.frame < |s.frames|
    ensures match GetFrame(s, order)
            case Some(g) => Takes(s, order, k, g.frame, g.s.pages) && g.s.pages.Keys == s.pages.Keys &&
                            g.frame < |g.s.frames| && g.s.files == s.files
            case None => true
  {
    FramesInRange(s);
    FirstFree(s.used);
    VictimIsOldest(s.pages, order);
    hide Inv, Victim, LeastRecent;
    match GetFrame(s, order)
    case None =>
    case Some(g) =>
      if !FreeFrame(s) {
        assert Moves(s, k, Victim(s.pages, order).value, g.frame, g.s.pages);
      }
  }

  // ---- one step ----

  /** Page k has come in: it is mapped to its frame with the protection w. */
  ghost predicate CameIn(s': State, k: Key, w: bool, now: int) {
    && k in s'.pages && s'.pages[k].backend.InMem? && s'.pages[k].backend.lastUse == now
    && s'.pages[k].writable == w && k in s'.ptes && s'.ptes[k] == Pte(s'.pages[k].backend.frame, w)
  }

  /** A page fault on a page that is not in memory brings it in, with the protection that it had. */
  lemma FaultOutcome(s: State, k: Key, order: seq<Key>, now: int, s': State)
    requires Inv(s) && Enabled(s, Fault(k, order, now)) && Step(s, Fault(k, order, now)) == Some(s')
    requires k in s.pages && !s.pages[k].backend.InMem?
    ensures s'.pages.Keys == s.pages.Keys && s'.files == s.files
    ensures CameIn(s', k, s.pages[k].writable, now)
    ensures Takes(s, order, k, s'.pages[k].backend.frame, s'.pages)
  {
    GetFrameTakes(s, order, k);
    FaultFrame(s, k, order, now, s');
    hide Inv, Visits, GetFrame, LeastRecent, Step, Enabled;
    var g := GetFrame(s, order).value;
    SameButOne(s, order, k, g.frame, g.s.pages, s'.pages);
  }

  lemma FaultFrame(s: State, k: Key, order: seq<Key>, now: int, s': State)
    requires Inv(s) && Enabled(s, Fault(k, order, now)) && Step(s, Fault(k, order, now)) == Some(s')
    requires k in s.pages && !s.pages[k].backend.InMem?
    ensures forall k | k in s.pages && s.pages[k].backend.InMem? :: s.pages[k].backend.frame < |s.frames|
    ensures match GetFrame(s, order)
            case Some(g) =>
              && s'.pages == g.s.pages[k := PageInfo(InMem(g.frame, now), s.pages[k].writable)]
              && k in s'.ptes && s'.ptes[k] == Pte(g.frame, s.pages[k].writable) && s'.files == g.s.files
            case None => false
  {
    BackedAfter(s, order, k);
    hide Inv, GetFrame, Load, PageAt, SwapFree;
  }

  lemma BackedAfter(s: State, order: seq<Key>, k: Key)
    requires Inv(s) && Visits(s, order) && k in s.pages
    ensures forall k | k in s.pages && s.pages[k].backend.InMem? :: s.pages[k].backend.frame < |s.frames|
    ensures match GetFrame(s, order)
            case Some(g) => k in g.s.pages && Backed(g.s, g.s.pages[k].backend)
            case None => true
  {
    GetFrameInv(s, order);
    hide Inv, GetFrame;
    match GetFrame(s, order)
    case Some(g) => BackedByInv(g.s, Some(g.frame), k);
    case None =>
  }

  lemma SameButOne(s: State, order: seq<Key>, k: Key, frame: nat, pages: PageMap, pages': PageMap)
    requires Takes(s, order, k, frame, pages) && pages'.Keys == pages.Keys + {k}
    requires forall j | j in pages && j != k :: pages'[j] == pages[j]
    ensures Takes(s, order, k, frame, pages')
  {
    hide LeastRecent;
    if !FreeFrame(s) {
      var v :| v in s.pages && LeastRecent(s.pages, order, v) && Moves(s, k, v, frame, pages);
      assert Moves(s, k, v, frame, pages');
    }
  }

  /** Any other fault is the process's own, and nothing changes. */
  lemma FaultKills(s: State, k: Key, order: seq<Key>, now: int)
    requires Inv(s) && Enabled(s, Fault(k, order, now)) && (k in s.pages ==> s.pages[k].backend.InMem?)
    ensures Step(s, Fault(k, order, now)) == Some(s)
  {
    GetFrameInv(s, order);
  }

  lemma InMemAllocateOutcome(s: State, k: Key, w: bool, order: seq<Key>, now: int, s': State)
    requires Inv(s) && Enabled(s, InMemAllocate(k, w, order, now))
    requires Step(s, InMemAllocate(k, w, order, now)) == Some(s')
    ensures s'.pages.Keys == s.pages.Keys + {k} && s'.files == s.files
    ensures CameIn(s', k, w, now)
    ensures Takes(s, order, k, s'.pages[k].backend.frame, s'.pages)
  {
    GetFrameTakes(s, order, k);
    hide Inv, GetFrame, Visits, Takes;
    var g := GetFrame(s, order).value;
    SameButOne(s, order, k, g.frame, g.s.pages, s'.pages);
  }

  /** A new lazy page stands for its part of the file, then zeros, under the protection asked; a name
      that is taken changes nothing. */
  lemma LazyAllocateOutcome(s: State, k: Key, file: Option<FileId>, offset: nat, length: nat, w: bool, s': State)
    requires Inv(s) && Enabled(s, LazyAllocate(k, file, offset, length, w))
    requires Step(s, LazyAllocate(k, file, offset, length, w)) == Some(s')
    ensures k in s.pages ==> s' == s
    ensures k !in s.pages ==>
              && s'.pages.Keys == s.pages.Keys + {k} && (forall j | j in s.pages :: s'.pages[j] == s.pages[j])
              && s'.pages[k].writable == w && !s'.pages[k].backend.InMem? && k !in s'.ptes
              && Backed(s', s'.pages[k].backend)
              && (forall i: nat | i < PAGE_SIZE ::
                    Content(s', k)[i] == if file.Some? && i < length && offset + i < |s.files[file.value]|
                                         then s.files[file.value][offset + i] else 0)
  {
  }

  /** A released page is gone, and unmapped; the others are as they were. */
  lemma ReleaseOutcome(s: State, k: Key, s': State)
    requires Inv(s) && Enabled(s, Event.Release(k)) && Step(s, Event.Release(k)) == Some(s')
    ensures s'.pages.Keys == s.pages.Keys - {k} && k !in s'.ptes && s'.files == s.files
    ensures forall j | j in s'.pages :: s'.pages[j] == s.pages[j]
  {
    BackedByInv(s, None, k);
    hide SwapFree;
  }

  lemma SetWritableOutcome(s: State, k: Key, w: bool, s': State)
    requires Inv(s) && Step(s, Event.SetWritable(k, w)) == Some(s')
    ensures s'.pages.Keys == s.pages.Keys && s'.frames == s.frames && s'.swap == s.swap && s'.files == s.files
    ensures forall j | j in s.pages && j != k :: s'.pages[j] == s.pages[j]
    ensures k in s.pages ==> s'.pages[k].backend == s.pages[k].backend && s'.pages[k].writable == w
  {
    assert k in s.pages && s.pages[k].backend.InMem? ==> FrameOf(s.pages, k, s.pages[k].backend.frame);
  }

  // ---- protection ----

  /** The page table has the pages in memory, each with its frame and its protection. */
  lemma PtesAgree(s: State, k: Key)
    requires Inv(s)
    ensures k in s.ptes <==> k in s.pages && s.pages[k].backend.InMem?
    ensures k in s.ptes ==> s.ptes[k] == Pte(s.pages[k].backend.frame, s.pages[k].writable)
  {
    assert k in s.pages && s.pages[k].backend.InMem? ==> FrameOf(s.pages, k, s.pages[k].backend.frame);
  }

  ghost predicate Sets(e: Event, k: Key) {
    e.SetWritable? && e.k == k
  }

  /** A step that leaves page k alive changes its protection only if it is set_writable on k. */
  lemma ProtectionKept(s: State, e: Event, s': State, k: Key)
    requires Inv(s) && Enabled(s, e) && Step(s, e) == Some(s') && k in s.pages && e != Event.Release(k)
    ensures k in s'.pages && s'.pages[k].writable == if Sets(e, k) then e.writable else s.pages[k].writable
  {
    match e
    case Fault(j, order, now) => FaultProtected(s, j, order, now, s', k);
    case InMemAllocate(j, w, order, now) =>
      InMemAllocateOutcome(s, j, w, order, now, s');
      hide Inv, Step;
      OthersProtected(s, order, j, s'.pages[j].backend.frame, s'.pages, k);
    case LazyAllocate(j, file, offset, length, w) => LazyAllocateOutcome(s, j, file, offset, length, w, s');
    case Release(j) => ReleaseOutcome(s, j, s');
    case SetWritable(j, w) => SetWritableOutcome(s, j, w, s');
    case Store(j, at, byte) =>
    case FileWrite(f, data) =>
  }

  lemma FaultProtected(s: State, j: Key, order: seq<Key>, now: int, s': State, k: Key)
    requires Inv(s) && Enabled(s, Fault(j, order, now)) && Step(s, Fault(j, order, now)) == Some(s') && k in s.pages
    ensures k in s'.pages && s'.pages[k].writable == s.pages[k].writable
  {
    hide Inv, Step, Takes;
    if j in s.pages && !s.pages[j].backend.InMem? {
      FaultOutcome(s, j, order, now, s');
      if j != k {
        OthersProtected(s, order, j, s'.pages[j].backend.frame, s'.pages, k);
      }
    } else {
      FaultKills(s, j, order, now);
    }
  }

  lemma OthersProtected(s: State, order: seq<Key>, j: Key, frame: nat, pages: PageMap, k: Key)
    requires Takes(s, order, j, frame, pages) && k in s.pages && k != j
    ensures k in pages && pages[k].writable == s.pages[k].writable
  {
    hide LeastRecent;
  }

  /** The protection that a page with protection w is left with: the one set last, if any. */
  function LastSet(es: seq<Event>, k: Key, w: bool): (r: bool)
    ensures (forall e | e in es :: !(e.SetWritable? && e.k == k)) ==> r == w
  {
    if es == [] then w
    else LastSet(es[1..], k, if es[0].SetWritable? && es[0].k == k then es[0].writable else w)
  }

  /** Over every run of faults, evictions and allocations a page that is not released has the
      protection that was set last, and its page-table entry says the same.  The program can
      therefore store to a read-only page in no state of the run. */
  lemma {:induction false} ProtectionInRuns(s: State, es: seq<Event>, k: Key, s': State)
    requires Inv(s) && k in s.pages && Run(s, es) == Some(s') && Event.Release(k) !in es
    ensures k in s'.pages && s'.pages[k].writable == LastSet(es, k, s.pages[k].writable)
    ensures k in s'.ptes ==> s'.ptes[k] == Pte(s'.pages[k].backend.frame, s'.pages[k].writable)
    ensures forall at: nat, b | Enabled(s', Store(k, at, b)) :: s'.pages[k].writable
    decreases |es|
  {
    PtesAgree(s', k);
    hide Inv, Step, Enabled;
    if es != [] {
      var s1 := Step(s, es[0]).value;
      StepInv(s, es[0]);
      assert es[0] in es;
      ProtectionKept(s, es[0], s1, k);
      ProtectionInRuns(s1, es[1..], k, s');
    }
  }
}
