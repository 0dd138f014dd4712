/**
 The operations of pintos/src/threads/synch.c and thread.c on locks, as they change the fields
 of threads and locks, each proved to make the step that Donation.Step says.
 */
module Kernel {
  import opened Donation
  import opened Sequences
  import opened Wrappers

  class Kernel {
    var threads: Threads
    var locks: Locks

    constructor ()
      ensures Current() == BOOT
    {
      threads, locks := map[], map[];
    }

    ghost function Current(): State
      reads this
    {
      State(threads, locks)
    }

    method ThreadCreate(t: Tid, priority: nat)
      requires Inv(Current()) && Enabled(Current(), Create(t, priority))
      modifies this
      ensures Current() == Step(old(Current()), Create(t, priority))
    {
      threads := threads[t := Thread(priority, priority, None, None, [], Free)];
    }

    /** thread_exit of a thread that holds no lock. */
    method ThreadExit(t: Tid)
      requires Inv(Current()) && Enabled(Current(), Exit(t))
      modifies this
      ensures Current() == Step(old(Current()), Exit(t)) && Inv(Current())
    {
      StepInv(Current(), Exit(t));
      hide Inv;
      threads := threads - {t};
    }

    method LockInit(l: Lid)
      requires Inv(Current()) && Enabled(Current(), InitLock(l))
      modifies this
      ensures Current() == Step(old(Current()), InitLock(l))
    {
      locks := locks[l := Lock(None, 1, [])];
    }

    /** thread_donate_priority.  The loop ends on every recipient graph. */
    method DonatePriority(donor: Tid, recipient: Tid, l: Lid)
      requires donor in threads && recipient in threads && donor != recipient && RecipientsExist(threads)
      modifies this`threads
      ensures threads == Donate(old(threads), donor, recipient, l)
    {
      if threads[recipient].priority > threads[donor].priority {
        return;
      }
      ghost var start := Record(threads, donor, recipient, l);
      RecordKeepsRecipients(threads, donor, recipient, l);
      threads := threads[recipient := threads[recipient].(priority := threads[donor].priority)];
      threads := threads[donor := threads[donor].(lock := Some(l), recipient := Some(recipient))];
      threads := threads[recipient := threads[recipient].(donors := threads[recipient].donors + [donor])];
      assert threads == start;
      var cur := recipient;
      while true
        invariant cur in threads && RecipientsExist(threads)
        invariant Propagate(threads, cur) == Propagate(start, recipient)
        decreases Below(threads, threads[cur].priority)
      {
        var next := threads[cur].recipient;
        if next == None {
          break;
        }
        assert Gives(threads, cur, next.value);
        if threads[cur].priority > threads[next.value].priority {
          RaiseKeepsEdges(threads, next.value, threads[cur].priority);
          RaiseShrinksBelow(threads, cur, next.value);
          threads := threads[next.value := threads[next.value].(priority := threads[cur].priority)];
          cur := next.value;
        } else {
          break;
        }
      }
    }

    /** thread_restore_priority: donors leave the list as the cursor passes them, then the
        priority is recomputed from those that stayed. */
    method RestorePriority(r: Tid, l: Lid)
      requires r in threads && DonorsFit(threads, r)
      modifies this`threads
      ensures threads == Restore(old(threads), r, l)
    {
      ghost var ts := threads;
      ghost var kept := Kept(ts, ts[r].donors, r, l);
      RestoreCases(ts, r, l);
      assert forall d | d in kept :: d in ts && d != r;
      hide Kept, Restore, DonatedFor, MaxPriority, DonorsFit;
      var success := RemoveDonors(r, l);
      if !success {
        return;
      }
      if threads[r].donors != [] {
        ClearedPriorities(ts, r, l, kept);
        SamePriorityMax(ts, threads, kept, PRI_MIN);
        var priority := MaxDonor(threads[r].donors, PRI_MIN);
        hide Cleared;
        threads := threads[r := threads[r].(priority := priority)];
      } else {
        hide Cleared;
        threads := threads[r := threads[r].(priority := threads[r].genesis)];
      }
    }

    method RemoveDonor(r: Tid, i: nat)
      requires r in threads && i < |threads[r].donors| && threads[r].donors[i] in threads && threads[r].donors[i] != r
      modifies this`threads
      ensures threads == Dropped(old(threads), r, i)
    {
      var donor := threads[r].donors[i];
      threads := threads[r := threads[r].(donors := threads[r].donors[..i] + threads[r].donors[i + 1..])];
      threads := threads[donor := threads[donor].(lock := None, recipient := None)];
    }

    /** The removal loop over the donor list. */
    method RemoveDonors(r: Tid, l: Lid) returns (success: bool)
      requires r in threads && DonorsFit(threads, r)
      modifies this`threads
      ensures r in threads && (success <==> |threads[r].donors| < |old(threads)[r].donors|)
      ensures var ts := old(threads);
              threads == Cleared(ts, r, l)[r := ts[r].(donors := Kept(ts, ts[r].donors, r, l))]
    {
      hide *;
      ghost var ts, k := threads, 0;
      var i := 0;
      success := false;
      PassedNone(ts, r, l);
      while i < |threads[r].donors|
        invariant r in ts && r in threads
        invariant Passed(ts, threads, r, l, i, k)
        invariant r in threads && i <= |threads[r].donors| && i <= k && (success <==> i < k)
        decreases |threads[r].donors| - i
      {
        var donor := threads[r].donors[i];
        NextDonor(ts, threads, r, l, i, k);
        if threads[donor].lock == Some(l) && threads[donor].recipient == Some(r) {
          PassDropped(ts, threads, r, l, i, k);
          RemoveDonor(r, i);
          success := true;
        } else {
          PassKept(ts, threads, r, l, i, k);
          i := i + 1;
        }
        k := k + 1;
      }
      PassedAll(ts, threads, r, l, i, k);
    }

    /** The greatest of `p` and the priorities of the threads in `ds`. */
    method MaxDonor(ds: seq<Tid>, p: nat) returns (m: nat)
      requires forall d | d in ds :: d in threads
      ensures m == MaxPriority(threads, ds, p)
    {
      m := p;
      var i := 0;
      while i < |ds|
        invariant i <= |ds|
        invariant MaxPriority(threads, ds[i..], m) == MaxPriority(threads, ds, p)
      {
        assert ds[i..][1..] == ds[i + 1..];
        m := if threads[ds[i]].priority > m then threads[ds[i]].priority else m;
        i := i + 1;
      }
    }

    /** thread_remove_highest_priority_thread's choice, by list_max. */
    method HighestPriority(ws: seq<Tid>) returns (k: nat)
      requires ws != [] && forall w | w in ws :: w in threads
      ensures k == MaxWaiter(threads, ws)
    {
      k := FindGreatest(Rank(threads), ws);
    }

    /** sema_down on the semaphore of `l`, up to the point where it blocks or returns;
        lock_acquire then records the holder. */
    method SemaDownAndHold(t: Tid, l: Lid)
      requires t in threads && l in locks
      modifies this
      ensures Current() == SemaDown(old(Current()), t, l)
    {
      if locks[l].value == 0 {
        locks := locks[l := locks[l].(waiters := locks[l].waiters + [t])];
        threads := threads[t := threads[t].(wait := Waiting(l))];
      } else {
        locks := locks[l := locks[l].(value := locks[l].value - 1)];
        threads := threads[t := threads[t].(wait := Free)];
        locks := locks[l := locks[l].(holder := Some(t))];
      }
    }

    method SemaphoreUp(l: Lid)
      requires l in locks && forall w | w in locks[l].waiters :: w in threads
      modifies this
      ensures Current() == SemaUp(old(Current()), l)
    {
      if locks[l].waiters != [] {
        var k := HighestPriority(locks[l].waiters);
        var w := locks[l].waiters[k];
        locks := locks[l := locks[l].(waiters := locks[l].waiters[..k] + locks[l].waiters[k + 1..])];
        threads := threads[w := threads[w].(wait := Woken(l))];
      }
      locks := locks[l := locks[l].(value := locks[l].value + 1)];
    }

    /** lock_acquire up to its return or its first block. */
    method LockAcquire(t: Tid, l: Lid)
      requires Inv(Current()) && Enabled(Current(), Acquire(t, l))
      modifies this
      ensures Current() == Step(old(Current()), Acquire(t, l))
      ensures Inv(Current())
    {
      AcquireInv(Current(), t, l);
      assert LockOk(Current(), l);
      EdgesExist(threads);
      hide Inv, Donate, SemaDown;
      if locks[l].holder.Some? {
        DonatePriority(t, locks[l].holder.value, l);
      }
      SemaDownAndHold(t, l);
    }

    /** A thread woken inside sema_down tests the value again. */
    method Retest(t: Tid)
      requires Inv(Current()) && Enabled(Current(), Wake(t))
      modifies this
      ensures Current() == Step(old(Current()), Wake(t))
      ensures Inv(Current())
    {
      WakeInv(Current(), t);
      SemaDownAndHold(t, threads[t].wait.l);
    }

    method LockTryAcquire(t: Tid, l: Lid) returns (success: bool)
      requires Inv(Current()) && Enabled(Current(), TryAcquire(t, l))
      modifies this
      ensures Current() == Step(old(Current()), TryAcquire(t, l))
      ensures Inv(Current())
      ensures success <==> old(locks[l].holder) == None
    {
      hide Inv, Enabled, Step, SemaDown;
      TryAcquireInv(Current(), t, l);
      TryAcquireLocksOnly(Current(), t, l);
      HeldIffDown(Current(), l);
      success := locks[l].value > 0;
      if success {
        locks := locks[l := locks[l].(value := locks[l].value - 1)];
        locks := locks[l := locks[l].(holder := Some(t))];
      }
    }

    /** lock_release: the priority is restored before the semaphore goes up. */
    method LockRelease(t: Tid, l: Lid)
      requires Inv(Current()) && Enabled(Current(), Release(t, l))
      modifies this
      ensures Current() == Step(old(Current()), Release(t, l))
      ensures Inv(Current())
    {
      ReleaseInv(Current(), t, l);
      assert LockOk(Current(), l);
      assert forall d | d in threads[t].donors :: Gives(threads, d, t);
      hide Inv, Restore, SemaUp;
      locks := locks[l := locks[l].(holder := None)];
      RestorePriority(t, l);
      SemaphoreUp(l);
    }

    method ThreadSetPriority(t: Tid, priority: nat)
      requires Inv(Current()) && Enabled(Current(), SetPriority(t, priority))
      modifies this
      ensures Current() == Step(old(Current()), SetPriority(t, priority))
      ensures Inv(Current())
    {
      SetPriorityInv(Current(), t, priority);
      assert t !in threads[t].donors && forall d | d in threads[t].donors :: d in threads;
      hide Inv, MaxPriority;
      RecomputePriority(t, priority);
    }

    method RecomputePriority(t: Tid, priority: nat)
      requires t in threads && t !in threads[t].donors && forall d | d in threads[t].donors :: d in threads
      modifies this`threads
      ensures var ts := old(threads);
              threads == ts[t := ts[t].(genesis := priority, priority := MaxPriority(ts, ts[t].donors, priority))]
    {
      ghost var ts := threads;
      threads := threads[t := threads[t].(genesis := priority)];
      SamePriorityMax(ts, threads, threads[t].donors, priority);
      var effective := MaxDonor(threads[t].donors, priority);
      hide MaxPriority;
      threads := threads[t := threads[t].(priority := effective)];
    }
  }

  lemma HeldIffDown(s: State, l: Lid)
    requires Inv(s) && l in s.locks
    ensures s.locks[l].value > 0 <==> s.locks[l].holder == None
  {
    assert LockOk(s, l);
  }

  lemma TryAcquireLocksOnly(s: State, t: Tid, l: Lid)
    requires Inv(s) && Enabled(s, TryAcquire(t, l))
    ensures t in s.threads && l in s.locks
    ensures var k := s.locks[l];
            Step(s, TryAcquire(t, l)) ==
            if k.value > 0 then s.(locks := s.locks[l := k.(value := k.value - 1, holder := Some(t))]) else s
  {
    assert s.threads[t].(wait := Free) == s.threads[t];
    assert s.threads[t := s.threads[t]] == s.threads;
  }

  lemma {:induction false} SamePriorityMax(ts: Threads, ts': Threads, ds: seq<Tid>, p: nat)
    requires forall d | d in ds :: d in ts && d in ts' && ts'[d].priority == ts[d].priority
    ensures MaxPriority(ts', ds, p) == MaxPriority(ts, ds, p)
    decreases |ds|
  {
    if ds != [] {
      SamePriorityMax(ts, ts', ds[1..], if ts[ds[0]].priority > p then ts[ds[0]].priority else p);
    }
  }

  lemma {:induction false} KeptSnoc(ts: Threads, ds: seq<Tid>, d: Tid, r: Tid, l: Lid)
    ensures Kept(ts, ds + [d], r, l) == Kept(ts, ds, r, l) + if DonatedFor(ts, d, r, l) then [] else [d]
  {
    if ds == [] {
      assert [] + [d] == [d];
    } else {
      assert (ds + [d])[1..] == ds[1..] + [d];
      KeptSnoc(ts, ds[1..], d, r, l);
    }
  }

  lemma RestoreCases(ts: Threads, r: Tid, l: Lid)
    requires r in ts && DonorsFit(ts, r)
    ensures var kept := Kept(ts, ts[r].donors, r, l);
            var removed := Cleared(ts, r, l)[r := ts[r].(donors := kept)];
            && |kept| <= |ts[r].donors|
            && Restore(ts, r, l) ==
               if |kept| == |ts[r].donors| then removed
               else if kept == [] then removed[r := removed[r].(priority := removed[r].genesis)]
               else removed[r := removed[r].(priority := MaxPriority(ts, kept, PRI_MIN))]
  {
    ClearedSelf(ts, r, l);
    KeptAll(ts, ts[r].donors, r, l);
    if |Kept(ts, ts[r].donors, r, l)| == |ts[r].donors| {
      ClearedNone(ts, r, l);
    }
    hide Kept, Cleared, MaxPriority, DonatedFor, Distinct;
  }

  lemma ClearedSelf(ts: Threads, r: Tid, l: Lid)
    requires r in ts && DonorsFit(ts, r)
    ensures r in Cleared(ts, r, l) && Cleared(ts, r, l)[r] == ts[r]
  {
  }

  lemma ClearedNone(ts: Threads, r: Tid, l: Lid)
    requires r in ts && forall d | d in ts[r].donors :: !DonatedFor(ts, d, r, l)
    ensures Cleared(ts, r, l)[r := ts[r].(donors := ts[r].donors)] == ts
  {
    assert ts[r].(donors := ts[r].donors) == ts[r];
  }

  lemma ClearedPriorities(ts: Threads, r: Tid, l: Lid, kept: seq<Tid>)
    requires r in ts && forall d | d in kept :: d in ts && d != r
    ensures var now := Cleared(ts, r, l)[r := ts[r].(donors := kept)];
            forall d | d in kept :: d in now && now[d].priority == ts[d].priority
  {
  }

  /** The edges cleared once the cursor has passed `k` donors. */
  ghost function ClearedUpTo(ts: Threads, r: Tid, l: Lid, k: nat): Threads
    requires r in ts && k <= |ts[r].donors|
  {
    map t | t in ts ::
      if t in ts[r].donors[..k] && DonatedFor(ts, t, r, l) then ts[t].(lock := None, recipient := None) else ts[t]
  }

  /** The cursor at place `i` of the list has passed `k` donors: what is left of the list is
      the kept part of what was passed and all that is still to come. */
  ghost predicate Passed(ts: Threads, now: Threads, r: Tid, l: Lid, i: nat, k: nat)
    requires r in ts
  {
    && k <= |ts[r].donors| && r in now && i <= |now[r].donors|
    && DonorsFit(ts, r)
    && now[r].donors[..i] == Kept(ts, ts[r].donors[..k], r, l)
    && now[r].donors[i..] == ts[r].donors[k..]
    && now == ClearedUpTo(ts, r, l, k)[r := ts[r].(donors := now[r].donors)]
  }

  /** The donor in place `i` leaves the list and forgets its recipient. */
  ghost function Dropped(now: Threads, r: Tid, i: nat): (ts: Threads)
    requires r in now && i < |now[r].donors| && now[r].donors[i] in now && now[r].donors[i] != r
    ensures ts.Keys == now.Keys
  {
    var d := now[r].donors[i];
    now[r := now[r].(donors := now[r].donors[..i] + now[r].donors[i + 1..])]
       [d := now[d].(lock := None, recipient := None)]
  }

  /** A donor list is a list of other threads, each once. */
  ghost predicate DonorsFit(ts: Threads, r: Tid)
    requires r in ts
  {
    r !in ts[r].donors && Distinct(ts[r].donors) && forall d | d in ts[r].donors :: d in ts
  }

  lemma PassedNone(ts: Threads, r: Tid, l: Lid)
    requires r in ts && DonorsFit(ts, r)
    ensures Passed(ts, ts, r, l, 0, 0)
  {
    assert ClearedUpTo(ts, r, l, 0) == ts == ts[r := ts[r].(donors := ts[r].donors)];
  }

  lemma NextDonor(ts: Threads, now: Threads, r: Tid, l: Lid, i: nat, k: nat)
    requires r in ts && Passed(ts, now, r, l, i, k) && i < |now[r].donors|
    ensures k < |ts[r].donors| && now[r].donors[i] == ts[r].donors[k] != r
    ensures ts[r].donors[k] in ts && ts[r].donors[k] in now && now[ts[r].donors[k]] == ts[ts[r].donors[k]]
    ensures var d := now[r].donors[i];
            DonatedFor(ts, d, r, l) <==> now[d].lock == Some(l) && now[d].recipient == Some(r)
  {
    assert now[r].donors[i..][0] == now[r].donors[i];
  }

  lemma PassDropped(ts: Threads, now: Threads, r: Tid, l: Lid, i: nat, k: nat)
    requires r in ts && Passed(ts, now, r, l, i, k) && i < |now[r].donors| && k < |ts[r].donors|
    requires DonatedFor(ts, ts[r].donors[k], r, l) && ts[r].donors[k] in now && ts[r].donors[k] != r
    requires ts[r].donors[k] == now[r].donors[i]
    ensures Passed(ts, Dropped(now, r, i), r, l, i, k + 1)
    ensures |Dropped(now, r, i)[r].donors| == |now[r].donors| - 1
  {
    var ds, d, left := ts[r].donors, ts[r].donors[k], now[r].donors;
    var left' := left[..i] + left[i + 1..];
    KeptSnoc(ts, ds[..k], d, r, l);
    ClearOne(ts, r, l, k);
    assert now[d] == ts[d];
    hide Kept, Distinct, ClearedUpTo, DonorsFit, DonatedFor;
    UpdateCommutes(ClearedUpTo(ts, r, l, k), r, now[r], now[r].(donors := left'), d,
        ts[d].(lock := None, recipient := None));
    DropSlices(left, i);
    DropSlices(ds, k);
    assert Dropped(now, r, i)[r].donors == left';
  }

  lemma DropSlices(s: seq<Tid>, i: nat)
    requires i < |s|
    ensures s[..i + 1] == s[..i] + [s[i]] && s[i + 1..] == s[i..][1..] && s[i] == s[i..][0]
    ensures (s[..i] + s[i + 1..])[..i] == s[..i] && (s[..i] + s[i + 1..])[i..] == s[i + 1..]
  {
  }

  lemma UpdateCommutes(ts: Threads, r: Tid, a: Thread, b: Thread, d: Tid, e: Thread)
    requires d != r
    ensures ts[r := a][r := b][d := e] == ts[d := e][r := b]
  {
  }

  lemma ClearOne(ts: Threads, r: Tid, l: Lid, k: nat)
    requires r in ts && k < |ts[r].donors|
    requires DonatedFor(ts, ts[r].donors[k], r, l)
    ensures var d := ts[r].donors[k];
            ClearedUpTo(ts, r, l, k + 1) == ClearedUpTo(ts, r, l, k)[d := ts[d].(lock := None, recipient := None)]
  {
    assert ts[r].donors[..k + 1] == ts[r].donors[..k] + [ts[r].donors[k]];
  }

  lemma ClearNone(ts: Threads, r: Tid, l: Lid, k: nat)
    requires r in ts && k < |ts[r].donors| && !DonatedFor(ts, ts[r].donors[k], r, l)
    ensures ClearedUpTo(ts, r, l, k + 1) == ClearedUpTo(ts, r, l, k)
  {
    assert ts[r].donors[..k + 1] == ts[r].donors[..k] + [ts[r].donors[k]];
  }

  lemma PassKept(ts: Threads, now: Threads, r: Tid, l: Lid, i: nat, k: nat)
    requires r in ts && Passed(ts, now, r, l, i, k) && i < |now[r].donors| && k < |ts[r].donors|
    requires !DonatedFor(ts, ts[r].donors[k], r, l)
    ensures Passed(ts, now, r, l, i + 1, k + 1)
  {
    var ds, d, left := ts[r].donors, ts[r].donors[k], now[r].donors;
    ClearNone(ts, r, l, k);
    KeptSnoc(ts, ds[..k], d, r, l);
    hide Kept, Distinct, ClearedUpTo, DonatedFor;
    DropSlices(left, i);
    DropSlices(ds, k);
  }

  lemma PassedAll(ts: Threads, now: Threads, r: Tid, l: Lid, i: nat, k: nat)
    requires r in ts && Passed(ts, now, r, l, i, k) && i == |now[r].donors|
    ensures k == |ts[r].donors| && now[r].donors == Kept(ts, ts[r].donors, r, l)
    ensures now == Cleared(ts, r, l)[r := ts[r].(donors := now[r].donors)]
  {
    assert now[r].donors[i..] == [];
    assert ts[r].donors[..k] == ts[r].donors;
    assert now[r].donors[..i] == now[r].donors;
  }
}
