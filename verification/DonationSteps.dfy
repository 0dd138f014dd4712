/**
 What each operation of pintos/src/threads/synch.c and thread.c on locks does to the threads and
 the lock, said of the states before and after: who is raised, who is recorded, who is woken.
 */
module DonationSteps {
  import opened Donation
  import opened Sequences
  import opened Wrappers

  // ---- who a donation reaches ----

  /** n recipients on from h */
  ghost function Along(ts: Threads, h: Tid, n: nat): Option<Tid> {
    if n == 0 then Some(h)
    else
      var d := Along(ts, h, n - 1);
      if d.Some? && d.value in ts then ts[d.value].recipient else None
  }

  /** u is h, or one that h donates to through any number of others. */
  ghost predicate Reaches(ts: Threads, h: Tid, u: Tid) {
    exists n :: Along(ts, h, n) == Some(u)
  }

  lemma {:induction false} PropagateOnly(ts: Threads, cur: Tid, base: Threads, h: Tid, n: nat, t: Tid, u: Tid)
    requires cur in ts && RecipientsExist(ts) && t in ts && h in ts && u in ts
    requires ts.Keys == base.Keys && base[t].recipient == None && ts[t].recipient == Some(h)
    requires forall d | d in ts && d != t :: ts[d].recipient == base[d].recipient
    requires Along(base, h, n) == Some(cur)
    requires ts[h].priority >= ts[cur].priority && ts[t].priority >= ts[cur].priority
    ensures var r := Propagate(ts, cur);
            u in r && (r[u].priority == ts[u].priority ||
                       (r[u].priority == ts[cur].priority > ts[u].priority && Reaches(base, h, u)))
    decreases Below(ts, ts[cur].priority)
  {
    var next := ts[cur].recipient;
    assert next.Some? ==> Gives(ts, cur, next.value);
    if next.Some? && ts[cur].priority > ts[next.value].priority {
      var ts' := ts[next.value := ts[next.value].(priority := ts[cur].priority)];
      RaiseKeepsEdges(ts, next.value, ts[cur].priority);
      RaiseShrinksBelow(ts, cur, next.value);
      assert Along(base, h, n + 1) == next;
      PropagateOnly(ts', next.value, base, h, n + 1, t, u);
    }
  }

  lemma AcquireRaisesOnly(s: State, t: Tid, l: Lid, h: Tid, u: Tid)
    requires Inv(s) && Enabled(s, Acquire(t, l)) && s.locks[l].holder == Some(h) && u in s.threads
    ensures h in s.threads && u in Step(s, Acquire(t, l)).threads
    ensures var p, p' := s.threads[u].priority, Step(s, Acquire(t, l)).threads[u].priority;
            p' == p || (p' == s.threads[t].priority > p && Reaches(s.threads, h, u))
  {
    HolderExists(s, l);
    NoRecipient(s, t);
    EdgesExist(s.threads);
    var ts := s.threads;
    hide Inv;
    if ts[h].priority <= ts[t].priority {
      RecordKeepsRecipients(ts, t, h, l);
      assert Along(ts, h, 0) == Some(h);
      PropagateOnly(Record(ts, t, h, l), h, ts, h, 0, t, u);
      assert u == h ==> Reaches(ts, h, u);
    }
  }

  lemma HolderExists(s: State, l: Lid)
    requires Inv(s) && l in s.locks && s.locks[l].holder.Some?
    ensures s.locks[l].holder.value in s.threads && s.locks[l].value == 0
  {
    assert LockOk(s, l);
  }

  /** Every edge that there was stays, and the caller gave to none. */
  lemma AcquireKeepsEdges(s: State, t: Tid, l: Lid, d: Tid, r: Tid)
    requires Inv(s) && Enabled(s, Acquire(t, l)) && s.locks[l].holder.Some? && Gives(s.threads, d, r)
    ensures Gives(Step(s, Acquire(t, l)).threads, d, r)
  {
    HolderExists(s, l);
    NoRecipient(s, t);
    EdgesExist(s.threads);
    DonateFrame(s.threads, t, s.locks[l].holder.value, l);
    hide Inv, Donate;
  }

  lemma {:induction false} ChainRaised(s: State, t: Tid, l: Lid, h: Tid, n: nat)
    requires Inv(s) && Enabled(s, Acquire(t, l)) && s.locks[l].holder == Some(h) && Along(s.threads, h, n).Some?
    ensures var u, s' := Along(s.threads, h, n).value, Step(s, Acquire(t, l));
            u in s.threads && u in s'.threads && s'.threads[u].priority >= s.threads[t].priority
  {
    HolderExists(s, l);
    AcquireRaises(s, t, l);
    if n == 0 {
      HolderRaised(s, t, l, h);
    } else {
      ChainRaised(s, t, l, h, n - 1);
      var d, u := Along(s.threads, h, n - 1).value, Along(s.threads, h, n).value;
      assert Gives(s.threads, d, u);
      AcquireKeepsEdges(s, t, l, d, u);
      StepInv(s, Acquire(t, l));
      hide Step, Enabled;
      DonorBelow(Step(s, Acquire(t, l)), d, u);
    }
  }

  lemma DonorBelow(s: State, d: Tid, r: Tid)
    requires Inv(s) && Gives(s.threads, d, r)
    ensures r in s.threads && d in s.threads && s.threads[d].priority <= s.threads[r].priority
  {
    hide LocksMatch, EdgesHaveLocks;
  }

  lemma HolderRaised(s: State, t: Tid, l: Lid, h: Tid)
    requires Inv(s) && Enabled(s, Acquire(t, l)) && s.locks[l].holder == Some(h)
    ensures var s' := Step(s, Acquire(t, l)); h in s'.threads && s'.threads[h].priority >= s.threads[t].priority
  {
    AcquireRaises(s, t, l);
    HolderExists(s, l);
    EdgesExist(s.threads);
    DonateFrame(s.threads, t, h, l);
    if s.threads[h].priority <= s.threads[t].priority {
      StepInv(s, Acquire(t, l));
      assert Gives(Step(s, Acquire(t, l)).threads, t, h);
      DonorBelow(Step(s, Acquire(t, l)), t, h);
    }
  }

  /** lock_acquire of a lock that is held: the holder, and whoever it donates to through any number of
      others, has at least the caller's priority afterwards, by just that being raised to it; nobody else's
      priority changes. */
  lemma AcquireDonates(s: State, t: Tid, l: Lid, h: Tid, u: Tid)
    requires Inv(s) && Enabled(s, Acquire(t, l)) && s.locks[l].holder == Some(h) && u in s.threads
    ensures u in Step(s, Acquire(t, l)).threads
    ensures var p := s.threads[u].priority;
            Step(s, Acquire(t, l)).threads[u].priority ==
            if Reaches(s.threads, h, u) && p < s.threads[t].priority then s.threads[t].priority else p
  {
    AcquireRaisesOnly(s, t, l, h, u);
    if Reaches(s.threads, h, u) {
      var n :| Along(s.threads, h, n) == Some(u);
      ChainRaised(s, t, l, h, n);
    }
    hide Inv, Step, Enabled;
  }

  // ---- who is recorded ----

  /** Everything about a thread but its priority. */
  ghost predicate SameLinks(a: Thread, b: Thread) {
    a.(priority := b.priority) == b
  }

  /** The donation is recorded, at the caller and at the end of the holder's list, exactly when the holder
      was not above the caller; the caller waits at the end of the list; nothing else changes but
      priorities. */
  lemma AcquireRecords(s: State, t: Tid, l: Lid, h: Tid, u: Tid)
    requires Inv(s) && Enabled(s, Acquire(t, l)) && s.locks[l].holder == Some(h) && u in s.threads
    ensures h in s.threads && h != t && u in Step(s, Acquire(t, l)).threads
    ensures var gives := s.threads[h].priority <= s.threads[t].priority;
            var th := s.threads[u];
            SameLinks(Step(s, Acquire(t, l)).threads[u],
                      if u == t
                      then (if gives then th.(lock := Some(l), recipient := Some(h)) else th).(wait := Waiting(l))
                      else if u == h && gives then th.(donors := th.donors + [t])
                      else th)
    ensures Step(s, Acquire(t, l)).locks ==
            s.locks[l := Lock(Some(h), 0, s.locks[l].waiters + [t])]
  {
    HolderExists(s, l);
    EdgesExist(s.threads);
    hide Inv;
    var ts := s.threads;
    if ts[h].priority <= ts[t].priority {
      RecordKeepsRecipients(ts, t, h, l);
      PropagateFrame(Record(ts, t, h, l), h);
    }
  }

  /** A lock that nobody holds is taken, and no thread changes. */
  lemma AcquireTakes(s: State, t: Tid, l: Lid)
    requires Inv(s) && Enabled(s, Acquire(t, l)) && s.locks[l].holder == None
    ensures Step(s, Acquire(t, l)).threads == s.threads
    ensures Step(s, Acquire(t, l)).locks == s.locks[l := Lock(Some(t), 0, s.locks[l].waiters)]
  {
    assert LockOk(s, l);
    assert s.threads[t].(wait := Free) == s.threads[t];
    assert s.threads[t := s.threads[t]] == s.threads;
    hide Inv;
  }

  /** lock_try_acquire takes the lock when nobody holds it; else nothing changes, and it never donates. */
  lemma TryAcquireTakes(s: State, t: Tid, l: Lid)
    requires Inv(s) && Enabled(s, TryAcquire(t, l))
    ensures Step(s, TryAcquire(t, l)).threads == s.threads
    ensures Step(s, TryAcquire(t, l)).locks ==
            if s.locks[l].holder == None then s.locks[l := Lock(Some(t), 0, s.locks[l].waiters)] else s.locks
  {
    assert LockOk(s, l);
    assert s.threads[t].(wait := Free) == s.threads[t];
    assert s.threads[t := s.threads[t]] == s.threads;
    hide Inv;
  }

  /** A woken thread takes the lock, or waits again at the end of the list; it does not donate again. */
  lemma WakeTakes(s: State, t: Tid)
    requires Inv(s) && Enabled(s, Wake(t))
    ensures var l := s.threads[t].wait.l;
            var k := s.locks[l];
            && Step(s, Wake(t)).threads ==
               s.threads[t := s.threads[t].(wait := if k.holder == None then Free else Waiting(l))]
            && Step(s, Wake(t)).locks ==
               s.locks[l := if k.holder == None then Lock(Some(t), 0, k.waiters) else k.(waiters := k.waiters + [t])]
  {
    assert LockOk(s, s.threads[t].wait.l);
    hide Inv;
  }

  // ---- who is woken, and who stops donating ----

  /** lock_release with waiters wakes the first of those of the greatest priority; the others wait on in
      their order, and nobody holds the lock. */
  lemma ReleaseWakes(s: State, t: Tid, l: Lid) returns (i: nat)
    requires Inv(s) && Enabled(s, Release(t, l)) && s.locks[l].waiters != []
    ensures i < |s.locks[l].waiters| && forall w | w in s.locks[l].waiters :: w in s.threads
    ensures var ws := s.locks[l].waiters;
            && (forall j :: 0 <= j < |ws| ==> s.threads[ws[j]].priority <= s.threads[ws[i]].priority)
            && (forall j :: 0 <= j < i ==> s.threads[ws[j]].priority < s.threads[ws[i]].priority)
    ensures var ws, s' := s.locks[l].waiters, Step(s, Release(t, l));
            && s'.locks == s.locks[l := Lock(None, 1, ws[..i] + ws[i + 1..])]
            && s'.threads.Keys == s.threads.Keys
            && forall u | u in s.threads ::
                 s'.threads[u].wait == if u == ws[i] then Woken(l) else s.threads[u].wait
  {
    hide Inv, Restore, Step, SemaUp, Enabled;
    ReleaseHolds(s, t, l);
    HolderExists(s, l);
    ReleaseFrame(s, t, l);
    var s1 := State(Restore(s.threads, t, l), s.locks[l := s.locks[l].(holder := None)]);
    i := SemaUpWakes(s1, l);
    ReleaseIs(s, t, l, s1);
    SameRanks(s, s1, l, i);
  }

  lemma ReleaseHolds(s: State, t: Tid, l: Lid)
    requires Inv(s) && Enabled(s, Release(t, l))
    ensures t in s.threads && l in s.locks && s.locks[l].holder == Some(t)
    ensures forall d | d in s.threads[t].donors :: d in s.threads
  {
    RunsFree(s, t);
  }

  lemma ReleaseIs(s: State, t: Tid, l: Lid, s1: State)
    requires Inv(s) && Enabled(s, Release(t, l)) && (forall d | d in s.threads[t].donors :: d in s.threads)
    requires s1 == State(Restore(s.threads, t, l), s.locks[l := s.locks[l].(holder := None)])
    requires forall w | w in s.locks[l].waiters :: w in s1.threads
    ensures Step(s, Release(t, l)) == SemaUp(s1, l)
  {
    hide Inv, Restore, SemaUp;
  }

  lemma SameRanks(s: State, s1: State, l: Lid, i: nat)
    requires l in s.locks && i < |s.locks[l].waiters|
    requires forall w | w in s.locks[l].waiters ::
               w in s.threads && w in s1.threads && s1.threads[w].priority == s.threads[w].priority
    requires var ws := s.locks[l].waiters;
             && (forall j :: 0 <= j < |ws| ==> s1.threads[ws[j]].priority <= s1.threads[ws[i]].priority)
             && (forall j :: 0 <= j < i ==> s1.threads[ws[j]].priority < s1.threads[ws[i]].priority)
    ensures var ws := s.locks[l].waiters;
            && (forall j :: 0 <= j < |ws| ==> s.threads[ws[j]].priority <= s.threads[ws[i]].priority)
            && (forall j :: 0 <= j < i ==> s.threads[ws[j]].priority < s.threads[ws[i]].priority)
  {
  }

  lemma SemaUpWakes(s: State, l: Lid) returns (i: nat)
    requires l in s.locks && s.locks[l].waiters != [] && forall w | w in s.locks[l].waiters :: w in s.threads
    ensures i < |s.locks[l].waiters|
    ensures var ws := s.locks[l].waiters;
            && (forall j :: 0 <= j < |ws| ==> s.threads[ws[j]].priority <= s.threads[ws[i]].priority)
            && (forall j :: 0 <= j < i ==> s.threads[ws[j]].priority < s.threads[ws[i]].priority)
    ensures var k, s' := s.locks[l], SemaUp(s, l);
            && s'.locks == s.locks[l := k.(value := k.value + 1, waiters := k.waiters[..i] + k.waiters[i + 1..])]
            && s'.threads == s.threads[k.waiters[i] := s.threads[k.waiters[i]].(wait := Woken(l))]
  {
    i := MaxWaiter(s.threads, s.locks[l].waiters);
    hide MaxWaiter;
  }

  lemma ReleaseFrame(s: State, t: Tid, l: Lid)
    requires Inv(s) && Enabled(s, Release(t, l))
    ensures var ts1 := Restore(s.threads, t, l);
            && ts1.Keys == s.threads.Keys
            && (forall u | u in s.threads :: ts1[u].wait == s.threads[u].wait && ts1[u].genesis == s.threads[u].genesis)
            && (forall u | u in s.threads && u != t ::
                  ts1[u].priority == s.threads[u].priority && ts1[u].donors == s.threads[u].donors)
    ensures forall w | w in s.locks[l].waiters :: w in s.threads && w != t
  {
    NoRecipient(s, t);
    RestoreFrame(s.threads, t, l);
    WaitersWait(s, l);
  }

  /** lock_release without waiters. */
  lemma ReleaseFrees(s: State, t: Tid, l: Lid)
    requires Inv(s) && Enabled(s, Release(t, l)) && s.locks[l].waiters == []
    ensures Step(s, Release(t, l)).locks == s.locks[l := Lock(None, 1, [])]
    ensures forall u | u in s.threads ::
              u in Step(s, Release(t, l)).threads && Step(s, Release(t, l)).threads[u].wait == s.threads[u].wait
  {
    HolderExists(s, l);
    ReleaseFrame(s, t, l);
    hide Inv, Restore;
  }

  /** lock_release takes from the caller exactly the donations for that lock: their donors are no longer
      recorded, those for other locks are as before.  Without any such donation the priority is unchanged;
      else it is the greatest of the donors that are left, or the own one when none is. */
  lemma ReleaseRestores(s: State, t: Tid, l: Lid)
    requires Inv(s) && Enabled(s, Release(t, l))
    ensures t in Step(s, Release(t, l)).threads
    ensures forall d | d in s.threads[t].donors :: d in s.threads && d in Step(s, Release(t, l)).threads
    ensures var th, th' := s.threads[t], Step(s, Release(t, l)).threads[t];
            && th'.genesis == th.genesis
            && (forall d :: d in th'.donors <==> d in th.donors && s.threads[d].lock != Some(l))
            && (if forall d | d in th.donors :: s.threads[d].lock != Some(l) then th'.priority == th.priority
                else if th'.donors == [] then th'.priority == th.genesis
                else && (exists d :: d in th'.donors && s.threads[d].priority == th'.priority)
                     && forall d | d in th'.donors :: s.threads[d].priority <= th'.priority)
  {
    RestoreOutcome(s, t, l);
    SemaUpKeeps(s, t, l, t);
    forall d | d in s.threads[t].donors ensures d in s.threads && d in Step(s, Release(t, l)).threads {
      DonorGives(s, d, t);
      SemaUpKeeps(s, t, l, d);
    }
    hide Inv, Step, Enabled, Restore;
  }

  lemma SemaUpKeeps(s: State, t: Tid, l: Lid, u: Tid)
    requires Inv(s) && Enabled(s, Release(t, l)) && u in s.threads
    ensures u in Restore(s.threads, t, l) && u in Step(s, Release(t, l)).threads
    ensures var th' := Step(s, Release(t, l)).threads[u]; th' == Restore(s.threads, t, l)[u].(wait := th'.wait)
  {
    ReleaseFrame(s, t, l);
    SemaUpFrame(State(Restore(s.threads, t, l), s.locks[l := s.locks[l].(holder := None)]), l);
    hide Inv, Restore, SemaUp;
  }

  lemma RestoreOutcome(s: State, t: Tid, l: Lid)
    requires Inv(s) && Enabled(s, Release(t, l))
    ensures t in Restore(s.threads, t, l) && forall d | d in s.threads[t].donors :: d in s.threads
    ensures var th, th' := s.threads[t], Restore(s.threads, t, l)[t];
            && th'.genesis == th.genesis
            && (forall d :: d in th'.donors <==> d in th.donors && s.threads[d].lock != Some(l))
            && (if forall d | d in th.donors :: s.threads[d].lock != Some(l) then th'.priority == th.priority
                else if th'.donors == [] then th'.priority == th.genesis
                else && (exists d :: d in th'.donors && s.threads[d].priority == th'.priority)
                     && forall d | d in th'.donors :: s.threads[d].priority <= th'.priority)
  {
    var ts := s.threads;
    RunsFree(s, t);
    var kept := Kept(ts, ts[t].donors, t, l);
    KeptAll(ts, ts[t].donors, t, l);
    forall d | d in ts[t].donors ensures DonatedFor(ts, d, t, l) <==> ts[d].lock == Some(l) {
      DonorGives(s, d, t);
    }
    hide Inv, Kept;
    if kept != [] && |kept| < |ts[t].donors| {
      MaxOfSome(ts, kept);
    }
  }

  lemma MaxOfSome(ts: Threads, ds: seq<Tid>)
    requires ds != [] && forall d | d in ds :: d in ts
    ensures exists d :: d in ds && ts[d].priority == MaxPriority(ts, ds, PRI_MIN)
    ensures forall d | d in ds :: ts[d].priority <= MaxPriority(ts, ds, PRI_MIN)
  {
    var m := MaxPriority(ts, ds, PRI_MIN);
    if m == PRI_MIN {
      assert ds[0] in ds && ts[ds[0]].priority <= m;
    }
  }

  /** What lock_release does to every other thread: nothing, but that a donor of the caller for that lock
      no longer is one, and that one waiter is woken. */
  lemma ReleaseOthers(s: State, t: Tid, l: Lid, u: Tid)
    requires Inv(s) && Enabled(s, Release(t, l)) && u in s.threads && u != t
    ensures u in Step(s, Release(t, l)).threads
    ensures var th, th' := s.threads[u], Step(s, Release(t, l)).threads[u];
            th' == if u in s.threads[t].donors && th.lock == Some(l)
                   then th.(lock := None, recipient := None, wait := th'.wait)
                   else th.(wait := th'.wait)
  {
    SemaUpKeeps(s, t, l, u);
    RestoreOther(s, t, l, u);
    hide Inv, Step, Enabled, Restore;
  }

  lemma RestoreOther(s: State, t: Tid, l: Lid, u: Tid)
    requires Inv(s) && Enabled(s, Release(t, l)) && u in s.threads && u != t
    ensures u in Restore(s.threads, t, l)
    ensures Restore(s.threads, t, l)[u] ==
            if u in s.threads[t].donors && s.threads[u].lock == Some(l)
            then s.threads[u].(lock := None, recipient := None) else s.threads[u]
  {
    var ts := s.threads;
    RunsFree(s, t);
    KeptAll(ts, ts[t].donors, t, l);
    if u in ts[t].donors {
      DonorGives(s, u, t);
    }
    hide Inv;
  }

  // ---- the other operations ----

  /** thread_set_priority: the own priority is the new one, the effective one is the greatest of it and the
      donors', and nobody else changes. */
  lemma SetPriorityOutcome(s: State, t: Tid, p: nat)
    requires Inv(s) && Enabled(s, SetPriority(t, p))
    ensures var s' := Step(s, SetPriority(t, p));
            && s'.locks == s.locks && t in s'.threads && s'.threads[t].genesis == p
            && s'.threads == s.threads[t := s.threads[t].(genesis := p, priority := s'.threads[t].priority)]
            && s'.threads[t].priority >= p
            && (forall d | d in s.threads[t].donors ::
                  d in s.threads && s.threads[d].priority <= s'.threads[t].priority)
            && (s'.threads[t].priority == p ||
                exists d ::
                  d in s.threads[t].donors && d in s.threads && s.threads[d].priority == s'.threads[t].priority)
  {
    RunsFree(s, t);
    hide Inv;
    var m := MaxPriority(s.threads, s.threads[t].donors, p);
    hide MaxPriority;
    assert Step(s, SetPriority(t, p)).threads[t].priority == m;
  }

  /** thread_create: a thread of that priority with no donors, which waits for nothing. */
  lemma CreateOutcome(s: State, t: Tid, p: nat)
    requires Inv(s) && Enabled(s, Create(t, p))
    ensures Step(s, Create(t, p)) == s.(threads := s.threads[t := Thread(p, p, None, None, [], Free)])
  {
    hide Inv;
  }

  /** thread_exit: the thread is gone, and no lock and no other thread changes. */
  lemma ExitOutcome(s: State, t: Tid)
    requires Inv(s) && Enabled(s, Exit(t))
    ensures var s' := Step(s, Exit(t));
            && s'.locks == s.locks && t !in s'.threads
            && forall u | u in s.threads && u != t :: u in s'.threads && s'.threads[u] == s.threads[u]
  {
    hide Inv;
  }
}
