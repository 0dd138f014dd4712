/**
 pintos/src/threads/synch.c and thread.c: locks, the semaphores inside them, and priority
 donation, for any number of threads and locks.

 A lock_acquire up to the point where it blocks, the re-test of a thread woken from a
 semaphore, a lock_release and a thread_set_priority are single steps.  The `wait` field is
 the program counter of a thread inside sema_down; all other fields are the source's.
 */
module Donation {
  import opened Sequences
  import opened Wrappers

  type Tid = nat
  type Lid = nat

  const PRI_MIN: nat := 0
  const PRI_MAX: nat := 63

  datatype Wait = Free | Waiting(l: Lid) | Woken(l: Lid)

  datatype Thread = Thread(priority: nat, genesis: nat, lock: Option<Lid>, recipient: Option<Tid>,
                           donors: seq<Tid>, wait: Wait)

  datatype Lock = Lock(holder: Option<Tid>, value: nat, waiters: seq<Tid>)

  type Threads = map<Tid, Thread>
  type Locks = map<Lid, Lock>

  datatype State = State(threads: Threads, locks: Locks)

  // ---- nested donation ----

  /** `d` is recorded as donating to `r`. */
  ghost predicate Gives(ts: Threads, d: Tid, r: Tid) {
    d in ts && ts[d].recipient == Some(r)
  }

  ghost predicate RecipientsExist(ts: Threads) {
    forall d: Tid, r: Tid {:trigger Gives(ts, d, r)} | Gives(ts, d, r) :: r in ts
  }

  /** The threads that a donation of priority `p` could still raise. */
  ghost function Below(ts: Threads, p: nat): set<Tid> {
    set t | t in ts && ts[t].priority < p
  }

  /** The loop of thread_donate_priority, from the recipient `cur` whose priority was just
      raised.  It ends on every recipient graph, cyclic ones included: each round removes
      a thread from those below the donated priority. */
  ghost function Propagate(ts: Threads, cur: Tid): (r: Threads)
    requires cur in ts && RecipientsExist(ts)
    ensures r.Keys == ts.Keys
    decreases Below(ts, ts[cur].priority)
  {
    var next := ts[cur].recipient;
    assert next.Some? ==> Gives(ts, cur, next.value);
    if next.Some? && ts[cur].priority > ts[next.value].priority then
      assert RecipientsExist(ts[next.value := ts[next.value].(priority := ts[cur].priority)]) by {
        RaiseKeepsEdges(ts, next.value, ts[cur].priority);
      }
      var ts' := ts[next.value := ts[next.value].(priority := ts[cur].priority)];
      assert next.value in Below(ts, ts[cur].priority) && next.value !in Below(ts', ts'[next.value].priority);
      assert Below(ts', ts'[next.value].priority) <= Below(ts, ts[cur].priority);
      Propagate(ts', next.value)
    else ts
  }

  lemma RaiseKeepsEdges(ts: Threads, t: Tid, p: nat)
    requires t in ts
    ensures forall d: Tid, r: Tid :: Gives(ts[t := ts[t].(priority := p)], d, r) <==> Gives(ts, d, r)
    ensures RecipientsExist(ts) ==> RecipientsExist(ts[t := ts[t].(priority := p)])
  {
    var ts' := ts[t := ts[t].(priority := p)];
    forall d: Tid, r: Tid ensures Gives(ts', d, r) <==> Gives(ts, d, r) {
    }
    if RecipientsExist(ts) {
      forall d: Tid, r: Tid | Gives(ts', d, r) ensures r in ts' {
        assert Gives(ts, d, r);
      }
    }
  }

  lemma RaiseShrinksBelow(ts: Threads, cur: Tid, next: Tid)
    requires cur in ts && next in ts && ts[cur].priority > ts[next].priority
    ensures var ts' := ts[next := ts[next].(priority := ts[cur].priority)];
            Below(ts', ts'[next].priority) < Below(ts, ts[cur].priority)
  {
    var ts' := ts[next := ts[next].(priority := ts[cur].priority)];
    assert next in Below(ts, ts[cur].priority) && next !in Below(ts', ts'[next].priority);
  }

  /** Recording the edge and raising the recipient, before the loop. */
  ghost function Record(ts: Threads, donor: Tid, recipient: Tid, l: Lid): Threads
    requires donor in ts && recipient in ts && donor != recipient
  {
    ts[donor := ts[donor].(lock := Some(l), recipient := Some(recipient))]
      [recipient := ts[recipient].(priority := ts[donor].priority, donors := ts[recipient].donors + [donor])]
  }

  lemma RecordKeepsRecipients(ts: Threads, donor: Tid, recipient: Tid, l: Lid)
    requires donor in ts && recipient in ts && donor != recipient && RecipientsExist(ts)
    ensures RecipientsExist(Record(ts, donor, recipient, l))
  {
    var ts1 := Record(ts, donor, recipient, l);
    assert forall d: Tid, r: Tid :: Gives(ts1, d, r) <==> if d == donor then r == recipient else Gives(ts, d, r);
  }

  ghost function Donate(ts: Threads, donor: Tid, recipient: Tid, l: Lid): Threads
    requires donor in ts && recipient in ts && donor != recipient && RecipientsExist(ts)
  {
    if ts[recipient].priority > ts[donor].priority then ts
    else
      RecordKeepsRecipients(ts, donor, recipient, l);
      Propagate(Record(ts, donor, recipient, l), recipient)
  }

  // ---- restoring after a release ----

  ghost predicate DonatedFor(ts: Threads, d: Tid, r: Tid, l: Lid) {
    d in ts && ts[d].lock == Some(l) && ts[d].recipient == Some(r)
  }

  /** The donors that stay when `r` releases `l`. */
  ghost function Kept(ts: Threads, ds: seq<Tid>, r: Tid, l: Lid): (k: seq<Tid>)
    ensures forall d :: d in k <==> d in ds && !DonatedFor(ts, d, r, l)
  {
    if ds == [] then []
    else if DonatedFor(ts, ds[0], r, l) then Kept(ts, ds[1..], r, l)
    else [ds[0]] + Kept(ts, ds[1..], r, l)
  }

  /** The greatest of `p` and the priorities of `ds`. */
  ghost function MaxPriority(ts: Threads, ds: seq<Tid>, p: nat): (m: nat)
    requires forall d | d in ds :: d in ts
    ensures m >= p && (m == p || exists d :: d in ds && ts[d].priority == m)
    ensures forall d | d in ds :: ts[d].priority <= m
    decreases |ds|
  {
    if ds == [] then p
    else MaxPriority(ts, ds[1..], if ts[ds[0]].priority > p then ts[ds[0]].priority else p)
  }

  /** Clearing the edges that `r` was given for `l`. */
  ghost function Cleared(ts: Threads, r: Tid, l: Lid): Threads
    requires r in ts
  {
    map t | t in ts ::
      if t in ts[r].donors && DonatedFor(ts, t, r, l) then ts[t].(lock := None, recipient := None) else ts[t]
  }

  /** thread_restore_priority. */
  ghost function Restore(ts: Threads, r: Tid, l: Lid): (ts': Threads)
    requires r in ts && forall d | d in ts[r].donors :: d in ts
    ensures ts'.Keys == ts.Keys
  {
    var kept := Kept(ts, ts[r].donors, r, l);
    if |kept| == |ts[r].donors| then ts
    else
      var cleared := Cleared(ts, r, l);
      var priority := if kept == [] then ts[r].genesis else MaxPriority(ts, kept, PRI_MIN);
      cleared[r := cleared[r].(donors := kept, priority := priority)]
  }

  // ---- what donation keeps ----

  /** The donor lists and the recipient pointers describe the same edges. */
  ghost predicate EdgesMatch(ts: Threads) {
    && (forall t, d | t in ts && d in ts[t].donors :: Gives(ts, d, t))
    && (forall d: Tid, r: Tid {:trigger Gives(ts, d, r)} | Gives(ts, d, r) :: r in ts && r != d && d in ts[r].donors)
    && (forall t | t in ts :: Distinct(ts[t].donors))
  }

  /** The priority of `t` is its own one or that of a recorded donor. */
  ghost predicate Attained(ts: Threads, t: Tid)
    requires t in ts
  {
    ts[t].priority == ts[t].genesis ||
    exists d :: d in ts[t].donors && d in ts && ts[d].priority == ts[t].priority
  }

  /** No donor is above its recipient, and no priority comes from nowhere. */
  ghost predicate Priorities(ts: Threads) {
    && (forall t, d | t in ts && d in ts[t].donors :: d in ts && ts[d].priority <= ts[t].priority)
    && (forall t | t in ts :: Attained(ts, t))
  }

  /** The same, save for the edge out of `cur`, whose priority was just raised. */
  ghost predicate PrioritiesExcept(ts: Threads, cur: Tid) {
    && cur in ts
    && (forall t, d | t in ts && d in ts[t].donors :: d in ts && (d == cur || ts[d].priority <= ts[t].priority))
    && (forall t | t in ts :: Attained(ts, t) || (cur in ts[t].donors && ts[cur].priority > ts[t].priority))
  }

  /** Nested donation changes priorities only, and only upwards. */
  lemma {:induction false} PropagateFrame(ts: Threads, cur: Tid)
    requires cur in ts && RecipientsExist(ts)
    ensures forall t | t in ts :: Propagate(ts, cur)[t] == ts[t].(priority := Propagate(ts, cur)[t].priority)
    ensures forall t | t in ts :: Propagate(ts, cur)[t].priority >= ts[t].priority
    decreases Below(ts, ts[cur].priority)
  {
    var next := ts[cur].recipient;
    assert next.Some? ==> Gives(ts, cur, next.value);
    if next.Some? && ts[cur].priority > ts[next.value].priority {
      RaiseKeepsEdges(ts, next.value, ts[cur].priority);
      var ts' := ts[next.value := ts[next.value].(priority := ts[cur].priority)];
      assert next.value in Below(ts, ts[cur].priority) && next.value !in Below(ts', ts'[next.value].priority);
      assert Below(ts', ts'[next.value].priority) <= Below(ts, ts[cur].priority);
      PropagateFrame(ts', next.value);
    }
  }

  /** Nested donation restores the order of every recorded edge. */
  lemma {:induction false} PropagatePriorities(ts: Threads, cur: Tid)
    requires cur in ts && EdgesMatch(ts) && PrioritiesExcept(ts, cur) && RecipientsExist(ts)
    ensures Priorities(Propagate(ts, cur))
    decreases Below(ts, ts[cur].priority)
  {
    var next := ts[cur].recipient;
    assert next.Some? ==> Gives(ts, cur, next.value);
    if next.Some? && ts[cur].priority > ts[next.value].priority {
      RaiseKeepsEdges(ts, next.value, ts[cur].priority);
      var ts' := ts[next.value := ts[next.value].(priority := ts[cur].priority)];
      assert next.value in Below(ts, ts[cur].priority) && next.value !in Below(ts', ts'[next.value].priority);
      assert Below(ts', ts'[next.value].priority) <= Below(ts, ts[cur].priority);
      RaiseNext(ts, cur, next.value);
      hide PrioritiesExcept, EdgesMatch, Priorities, Below;
      PropagatePriorities(ts', next.value);
    } else {
      PropagateStop(ts, cur);
    }
  }

  lemma PropagateStop(ts: Threads, cur: Tid)
    requires cur in ts && EdgesMatch(ts) && PrioritiesExcept(ts, cur)
    requires ts[cur].recipient.Some? ==>
             ts[cur].recipient.value in ts && ts[cur].priority <= ts[ts[cur].recipient.value].priority
    ensures Priorities(ts)
  {
    assert forall t | t in ts && cur in ts[t].donors :: Gives(ts, cur, t);
  }

  lemma RaiseNext(ts: Threads, cur: Tid, next: Tid)
    requires cur in ts && next in ts && EdgesMatch(ts) && PrioritiesExcept(ts, cur)
    requires ts[cur].recipient == Some(next) && ts[cur].priority > ts[next].priority
    ensures var ts' := ts[next := ts[next].(priority := ts[cur].priority)];
            EdgesMatch(ts') && PrioritiesExcept(ts', next)
  {
    hide Attained;
    var ts' := ts[next := ts[next].(priority := ts[cur].priority)];
    assert Gives(ts, cur, next);
    assert forall t | t in ts && cur in ts[t].donors :: Gives(ts, cur, t);
    RaiseEdges(ts, next, ts[cur].priority);
    forall t | t in ts'
      ensures Attained(ts', t) || (next in ts'[t].donors && ts'[next].priority > ts'[t].priority)
    {
      RaiseAttained(ts, cur, next, t);
    }
  }

  lemma RaiseEdges(ts: Threads, t: Tid, p: nat)
    requires t in ts && EdgesMatch(ts)
    ensures EdgesMatch(ts[t := ts[t].(priority := p)])
  {
    var ts' := ts[t := ts[t].(priority := p)];
    assert forall d: Tid, r: Tid :: Gives(ts', d, r) <==> Gives(ts, d, r);
  }

  lemma RaiseAttained(ts: Threads, cur: Tid, next: Tid, t: Tid)
    requires cur in ts && next in ts && t in ts && next != cur && cur in ts[next].donors
    requires ts[cur].priority > ts[next].priority
    requires Attained(ts, t) || t == next
    ensures var ts' := ts[next := ts[next].(priority := ts[cur].priority)];
            Attained(ts', t) || (next in ts'[t].donors && ts'[next].priority > ts'[t].priority)
  {
    var ts' := ts[next := ts[next].(priority := ts[cur].priority)];
    if t == next {
      assert cur in ts'[t].donors && ts'[cur].priority == ts'[t].priority;
    } else if ts[t].priority != ts[t].genesis {
      var d :| d in ts[t].donors && d in ts && ts[d].priority == ts[t].priority;
      assert d in ts'[t].donors && (d == next || ts'[d].priority == ts'[t].priority);
    }
  }

  lemma DonatePriorities(ts: Threads, donor: Tid, recipient: Tid, l: Lid)
    requires donor in ts && recipient in ts && donor != recipient
    requires EdgesMatch(ts) && Priorities(ts) && ts[donor].recipient == None
    ensures RecipientsExist(ts)
    ensures Priorities(Donate(ts, donor, recipient, l))
    ensures EdgesMatch(Donate(ts, donor, recipient, l))
  {
    EdgesExist(ts);
    if ts[recipient].priority <= ts[donor].priority {
      var ts1 := Record(ts, donor, recipient, l);
      RecordExcept(ts, donor, recipient, l);
      EdgesExist(ts1);
      PropagatePriorities(ts1, recipient);
      PropagateFrame(ts1, recipient);
      hide PrioritiesExcept, Priorities, Propagate, Record;
      SameEdges(ts1, Propagate(ts1, recipient));
    }
  }

  lemma EdgesExist(ts: Threads)
    requires EdgesMatch(ts)
    ensures RecipientsExist(ts)
  {
  }

  lemma SameEdges(ts: Threads, ts': Threads)
    requires ts.Keys == ts'.Keys && EdgesMatch(ts)
    requires forall t | t in ts :: ts'[t].donors == ts[t].donors && ts'[t].recipient == ts[t].recipient
    ensures EdgesMatch(ts')
    ensures forall d: Tid, r: Tid :: Gives(ts', d, r) <==> Gives(ts, d, r)
  {
    forall d: Tid, r: Tid ensures Gives(ts, d, r) <==> Gives(ts', d, r) {
      if d in ts { assert ts'[d].recipient == ts[d].recipient; }
    }
  }

  lemma RecordExcept(ts: Threads, donor: Tid, recipient: Tid, l: Lid)
    requires donor in ts && recipient in ts && donor != recipient
    requires EdgesMatch(ts) && Priorities(ts) && ts[donor].recipient == None
    requires ts[recipient].priority <= ts[donor].priority
    ensures EdgesMatch(Record(ts, donor, recipient, l))
    ensures PrioritiesExcept(Record(ts, donor, recipient, l), recipient)
  {
    var ts1 := Record(ts, donor, recipient, l);
    assert donor in ts1[recipient].donors;
    RecordEdges(ts, donor, recipient, l);
    forall t | t in ts1
      ensures Attained(ts1, t) || (recipient in ts1[t].donors && ts1[recipient].priority > ts1[t].priority)
    {
      RecordAttained(ts, donor, recipient, l, t);
    }
  }

  lemma RecordEdges(ts: Threads, donor: Tid, recipient: Tid, l: Lid)
    requires donor in ts && recipient in ts && donor != recipient
    requires EdgesMatch(ts) && ts[donor].recipient == None
    ensures EdgesMatch(Record(ts, donor, recipient, l))
  {
    var ts1 := Record(ts, donor, recipient, l);
    assert forall d: Tid, r: Tid :: Gives(ts1, d, r) <==> Gives(ts, d, r) || (d == donor && r == recipient);
    assert forall t | t in ts :: donor !in ts[t].donors by {
      assert forall t :: !Gives(ts, donor, t);
    }
  }

  lemma RecordAttained(ts: Threads, donor: Tid, recipient: Tid, l: Lid, t: Tid)
    requires donor in ts && recipient in ts && donor != recipient && t in ts
    requires Attained(ts, t)
    requires ts[recipient].priority <= ts[donor].priority
    ensures var ts1 := Record(ts, donor, recipient, l);
            Attained(ts1, t) || (recipient in ts1[t].donors && ts1[recipient].priority > ts1[t].priority)
  {
    var ts1 := Record(ts, donor, recipient, l);
    if t == recipient {
      assert donor in ts1[t].donors && ts1[donor].priority == ts1[t].priority;
    } else if ts[t].priority != ts[t].genesis {
      var d :| d in ts[t].donors && d in ts && ts[d].priority == ts[t].priority;
      assert d in ts1[t].donors;
    }
  }

  lemma RestorePriorities(ts: Threads, r: Tid, l: Lid)
    requires r in ts && EdgesMatch(ts) && Priorities(ts)
    requires ts[r].recipient == None
    ensures Priorities(Restore(ts, r, l))
    ensures EdgesMatch(Restore(ts, r, l))
  {
    var ts' := Restore(ts, r, l);
    var kept := Kept(ts, ts[r].donors, r, l);
    assert r !in ts[r].donors;
    if |kept| != |ts[r].donors| {
      assert ts'[r].donors == kept;
      assert forall t | t in ts && t != r :: ts'[t].donors == ts[t].donors && ts'[t].priority == ts[t].priority;
      assert forall t | t in ts && t != r :: r !in ts[t].donors;
      RestoreEdges(ts, r, l);
      forall t | t in ts'
        ensures Attained(ts', t)
      {
        RestoreAttained(ts, r, l, t);
      }
    }
  }

  lemma {:induction false} KeptDistinct(ts: Threads, ds: seq<Tid>, r: Tid, l: Lid)
    requires Distinct(ds)
    ensures Distinct(Kept(ts, ds, r, l))
  {
    if ds != [] {
      KeptDistinct(ts, ds[1..], r, l);
    }
  }

  lemma RestoreEdges(ts: Threads, r: Tid, l: Lid)
    requires r in ts && EdgesMatch(ts)
    requires ts[r].recipient == None && r !in ts[r].donors
    ensures EdgesMatch(Restore(ts, r, l))
  {
    var ts' := Restore(ts, r, l);
    KeptDistinct(ts, ts[r].donors, r, l);
    if ts' != ts {
      forall d: Tid, t: Tid ensures Gives(ts', d, t) <==> Gives(ts, d, t) && !(t == r && DonatedFor(ts, d, r, l)) {
        assert Gives(ts, d, r) ==> d in ts[r].donors;
      }
      forall d: Tid, t: Tid | Gives(ts', d, t) ensures t in ts' && t != d && d in ts'[t].donors {
        assert Gives(ts, d, t);
      }
    }
  }

  lemma RestoreAttained(ts: Threads, r: Tid, l: Lid, t: Tid)
    requires r in ts && EdgesMatch(ts) && ts[r].recipient == None && r !in ts[r].donors
    requires t in ts && Attained(ts, t) && r !in ts[t].donors
    ensures Attained(Restore(ts, r, l), t)
  {
    var ts' := Restore(ts, r, l);
    var kept := Kept(ts, ts[r].donors, r, l);
    if t != r {
      StillAttained(ts, ts', t);
    } else if |kept| != |ts[r].donors| && kept != [] {
      MaxPriorityAttained(ts, kept);
      var d :| d in kept && ts[d].priority == MaxPriority(ts, kept, PRI_MIN);
      assert d in ts'[r].donors && ts'[d].priority == ts'[r].priority;
    }
  }

  lemma MaxPriorityAttained(ts: Threads, ds: seq<Tid>)
    requires ds != [] && forall d | d in ds :: d in ts
    ensures exists d :: d in ds && ts[d].priority == MaxPriority(ts, ds, PRI_MIN)
  {
    assert ds[0] in ds;
  }

  // ---- the transition system ----

  datatype Event =
    | Create(t: Tid, priority: nat)
    | InitLock(l: Lid)
    | Acquire(t: Tid, l: Lid)
    | TryAcquire(t: Tid, l: Lid)
    | Wake(t: Tid)
    | Release(t: Tid, l: Lid)
    | SetPriority(t: Tid, priority: nat)
    | Exit(t: Tid)

  ghost predicate Runs(s: State, t: Tid) {
    t in s.threads && s.threads[t].wait == Free
  }

  /** What each operation demands of its caller: its assertions, that priorities are from PRI_MIN to
      PRI_MAX, that a thread exits without a lock, and that only a thread that is not inside sema_down
      calls anything. */
  ghost predicate Enabled(s: State, e: Event) {
    match e
    case Create(t, p) => t !in s.threads && p <= PRI_MAX
    case InitLock(l) => l !in s.locks
    case Acquire(t, l) => Runs(s, t) && l in s.locks && s.locks[l].holder != Some(t)
    case TryAcquire(t, l) => Runs(s, t) && l in s.locks && s.locks[l].holder != Some(t)
    case Wake(t) => t in s.threads && s.threads[t].wait.Woken? && s.threads[t].wait.l in s.locks
    case Release(t, l) => Runs(s, t) && l in s.locks && s.locks[l].holder == Some(t)
    case SetPriority(t, p) => Runs(s, t) && p <= PRI_MAX
    case Exit(t) => Runs(s, t) && forall l | l in s.locks :: s.locks[l].holder != Some(t)
  }

  /** One round of the loop of sema_down, with what lock_acquire does when it leaves it. */
  ghost function SemaDown(s: State, t: Tid, l: Lid): State
    requires t in s.threads && l in s.locks
  {
    var k := s.locks[l];
    if k.value == 0 then
      State(s.threads[t := s.threads[t].(wait := Waiting(l))], s.locks[l := k.(waiters := k.waiters + [t])])
    else
      State(s.threads[t := s.threads[t].(wait := Free)],
            s.locks[l := k.(value := k.value - 1, holder := Some(t))])
  }

  function Rank(ts: Threads): Tid -> int {
    t => if t in ts then ts[t].priority else 0
  }

  /** The place of the first waiter of the greatest priority, as list_max finds it. */
  function MaxWaiter(ts: Threads, ws: seq<Tid>): (k: nat)
    requires ws != [] && forall w | w in ws :: w in ts
    ensures k < |ws|
    ensures forall j :: 0 <= j < |ws| ==> ts[ws[j]].priority <= ts[ws[k]].priority
    ensures forall j :: 0 <= j < k ==> ts[ws[j]].priority < ts[ws[k]].priority
  {
    FirstGreatest(Rank(ts), ws)
  }

  ghost function SemaUp(s: State, l: Lid): State
    requires l in s.locks && forall w | w in s.locks[l].waiters :: w in s.threads
  {
    var k := s.locks[l];
    if k.waiters == [] then s.(locks := s.locks[l := k.(value := k.value + 1)])
    else
      var i := MaxWaiter(s.threads, k.waiters);
      var w := k.waiters[i];
      State(s.threads[w := s.threads[w].(wait := Woken(l))],
            s.locks[l := k.(value := k.value + 1, waiters := k.waiters[..i] + k.waiters[i + 1..])])
  }

  function NewThread(p: nat): Thread {
    Thread(p, p, None, None, [], Free)
  }

  ghost function Step(s: State, e: Event): State
    requires Enabled(s, e) && Inv(s)
  {
    match e
    case Create(t, p) => s.(threads := s.threads[t := NewThread(p)])
    case InitLock(l) => s.(locks := s.locks[l := Lock(None, 1, [])])
    case Acquire(t, l) =>
      var h := s.locks[l].holder;
      SemaDown(if h.Some? then s.(threads := Donate(s.threads, t, h.value, l)) else s, t, l)
    case TryAcquire(t, l) => if s.locks[l].value > 0 then SemaDown(s, t, l) else s
    case Wake(t) => SemaDown(s, t, s.threads[t].wait.l)
    case Release(t, l) =>
      SemaUp(State(Restore(s.threads, t, l), s.locks[l := s.locks[l].(holder := None)]), l)
    case SetPriority(t, p) =>
      s.(threads := s.threads[t := s.threads[t].(genesis := p,
          priority := MaxPriority(s.threads, s.threads[t].donors, p))])
    case Exit(t) => s.(threads := s.threads - {t})
  }

  // ---- the invariant ----

  /** A recorded edge d -> r stands for a lock that r holds and d is blocked on. */
  ghost predicate EdgesHaveLocks(s: State) {
    forall d: Tid, r: Tid {:trigger Gives(s.threads, d, r)} | Gives(s.threads, d, r) ::
      && s.threads[d].lock.Some?
      && s.threads[d].lock.value in s.locks
      && s.locks[s.threads[d].lock.value].holder == Some(r)
      && s.threads[d].wait == Waiting(s.threads[d].lock.value)
  }

  ghost predicate SomeWoken(s: State, l: Lid) {
    exists t :: t in s.threads && s.threads[t].wait == Woken(l)
  }

  /** The semaphore inside the lock `l`, which has value 1 exactly while nobody holds the lock. */
  ghost predicate LockOk(s: State, l: Lid)
    requires l in s.locks
  {
    var k := s.locks[l];
    && (k.holder.Some? ==> k.holder.value in s.threads)
    && k.value == (if k.holder == None then 1 else 0)
    && Distinct(k.waiters)
    && (forall w | w in k.waiters :: w in s.threads && s.threads[w].wait == Waiting(l))
    // No lost wakeup: if the semaphore is up while threads wait, one was woken for it.
    && (k.waiters != [] && k.value > 0 ==> SomeWoken(s, l))
  }

  /** A thread inside sema_down is in the list its program counter says. */
  ghost predicate WaitOk(s: State, t: Tid)
    requires t in s.threads
  {
    match s.threads[t].wait
    case Free => true
    case Waiting(l) => l in s.locks && t in s.locks[l].waiters
    case Woken(l) => l in s.locks
  }

  ghost predicate LocksMatch(s: State) {
    && (forall l | l in s.locks :: LockOk(s, l))
    && (forall t | t in s.threads :: WaitOk(s, t))
  }

  ghost predicate Inv(s: State) {
    && EdgesMatch(s.threads)
    && Priorities(s.threads)
    && EdgesHaveLocks(s)
    && LocksMatch(s)
  }

  lemma SetWait(ts: Threads, t: Tid, w: Wait)
    requires t in ts && EdgesMatch(ts) && Priorities(ts)
    ensures EdgesMatch(ts[t := ts[t].(wait := w)]) && Priorities(ts[t := ts[t].(wait := w)])
    ensures forall d: Tid, r: Tid :: Gives(ts[t := ts[t].(wait := w)], d, r) <==> Gives(ts, d, r)
  {
    var ts' := ts[t := ts[t].(wait := w)];
    SameEdges(ts, ts');
    SamePriorities(ts, ts');
  }

  /** Everything that the priority rules depend on is unchanged. */
  lemma SamePriorities(ts: Threads, ts': Threads)
    requires ts.Keys == ts'.Keys && Priorities(ts)
    requires forall t | t in ts :: ts'[t].donors == ts[t].donors && ts'[t].priority == ts[t].priority
    requires forall t | t in ts :: ts'[t].genesis == ts[t].genesis
    ensures Priorities(ts')
  {
    hide Attained;
    forall t | t in ts' ensures Attained(ts', t) {
      StillAttained(ts, ts', t);
    }
    forall t, d | t in ts' && d in ts'[t].donors ensures d in ts' && ts'[d].priority <= ts'[t].priority {
      assert d in ts[t].donors;
    }
  }

  lemma StillAttained(ts: Threads, ts': Threads, t: Tid)
    requires t in ts && t in ts' && Attained(ts, t)
    requires ts'[t].priority == ts[t].priority && ts'[t].genesis == ts[t].genesis && ts'[t].donors == ts[t].donors
    requires forall d | d in ts[t].donors && d in ts :: d in ts' && ts'[d].priority == ts[d].priority
    ensures Attained(ts', t)
  {
    if ts[t].priority != ts[t].genesis {
      var d :| d in ts[t].donors && d in ts && ts[d].priority == ts[t].priority;
      assert d in ts'[t].donors;
    }
  }

  lemma DonateFrame(ts: Threads, donor: Tid, recipient: Tid, l: Lid)
    requires donor in ts && recipient in ts && donor != recipient && RecipientsExist(ts)
    ensures var ts' := Donate(ts, donor, recipient, l);
            && ts'.Keys == ts.Keys
            && (forall t | t in ts :: ts'[t].wait == ts[t].wait && ts'[t].genesis == ts[t].genesis)
            && (forall t | t in ts && t != donor :: ts'[t].lock == ts[t].lock && ts'[t].recipient == ts[t].recipient)
            && (if ts[recipient].priority > ts[donor].priority then ts' == ts
                else ts'[donor].lock == Some(l) && ts'[donor].recipient == Some(recipient))
  {
    if ts[recipient].priority <= ts[donor].priority {
      RecordKeepsRecipients(ts, donor, recipient, l);
      PropagateFrame(Record(ts, donor, recipient, l), recipient);
    }
  }

  lemma CreateInv(s: State, t: Tid, p: nat)
    requires Inv(s) && Enabled(s, Create(t, p))
    ensures Inv(Step(s, Create(t, p)))
  {
    CreatePriorities(s.threads, t, p);
    CreateLocks(s, t, p);
    CreateEdges(s, t, p);
    hide Priorities, LocksMatch, EdgesMatch, EdgesHaveLocks;
  }

  lemma CreateEdges(s: State, t: Tid, p: nat)
    requires EdgesMatch(s.threads) && EdgesHaveLocks(s) && t !in s.threads
    ensures EdgesMatch(s.threads[t := NewThread(p)])
    ensures EdgesHaveLocks(s.(threads := s.threads[t := NewThread(p)]))
  {
    var ts' := s.threads[t := NewThread(p)];
    assert forall d: Tid, r: Tid :: Gives(ts', d, r) <==> Gives(s.threads, d, r);
  }

  lemma CreatePriorities(ts: Threads, t: Tid, p: nat)
    requires Priorities(ts) && t !in ts
    ensures Priorities(ts[t := NewThread(p)])
  {
    var ts' := ts[t := NewThread(p)];
    forall u | u in ts' ensures Attained(ts', u) {
      if u != t {
        StillAttained(ts, ts', u);
      }
    }
  }

  lemma CreateLocks(s: State, t: Tid, p: nat)
    requires LocksMatch(s) && t !in s.threads
    ensures LocksMatch(s.(threads := s.threads[t := NewThread(p)]))
  {
    var s' := s.(threads := s.threads[t := NewThread(p)]);
    forall l | l in s'.locks ensures LockOk(s', l) {
      assert LockOk(s, l);
      if s.locks[l].waiters != [] && s.locks[l].value > 0 {
        var u :| u in s.threads && s.threads[u].wait == Woken(l);
        assert u in s'.threads && s'.threads[u].wait == Woken(l);
      }
    }
    forall u | u in s'.threads ensures WaitOk(s', u) {
      assert u in s.threads ==> WaitOk(s, u);
    }
  }

  lemma InitLockInv(s: State, l: Lid)
    requires Inv(s) && l !in s.locks
    ensures Inv(Step(s, InitLock(l)))
  {
    var s' := Step(s, InitLock(l));
    forall k | k in s'.locks ensures LockOk(s', k) {
      if k != l {
        assert LockOk(s, k);
        if s.locks[k].waiters != [] && s.locks[k].value > 0 {
          var u :| u in s.threads && s.threads[u].wait == Woken(k);
          assert u in s'.threads && s'.threads[u].wait == Woken(k);
        }
      }
    }
    forall u | u in s'.threads ensures WaitOk(s', u) {
      assert WaitOk(s, u);
    }
  }

  /** sema_down keeps the invariant for a thread that is not queued and has no recorded edge. */
  lemma SemaDownInv(s: State, t: Tid, l: Lid)
    requires Inv(s) && t in s.threads && l in s.locks
    requires s.threads[t].wait == Free || s.threads[t].wait == Woken(l)
    ensures Inv(SemaDown(s, t, l))
  {
    var s' := SemaDown(s, t, l);
    SetWait(s.threads, t, if s.locks[l].value == 0 then Waiting(l) else Free);
    assert forall r: Tid :: !Gives(s.threads, t, r);
    SemaDownEdges(s, t, l);
    SemaDownLocks(s, t, l);
  }

  lemma SemaDownEdges(s: State, t: Tid, l: Lid)
    requires EdgesHaveLocks(s) && LocksMatch(s) && t in s.threads && l in s.locks
    requires forall r: Tid :: !Gives(s.threads, t, r)
    ensures EdgesHaveLocks(SemaDown(s, t, l))
  {
    var s' := SemaDown(s, t, l);
    forall d: Tid, r: Tid ensures Gives(s'.threads, d, r) <==> Gives(s.threads, d, r) {
    }
  }

  lemma SemaDownLocks(s: State, t: Tid, l: Lid)
    requires LocksMatch(s) && t in s.threads && l in s.locks
    requires s.threads[t].wait == Free || s.threads[t].wait == Woken(l)
    ensures LocksMatch(SemaDown(s, t, l))
  {
    var s' := SemaDown(s, t, l);
    forall k | k in s'.locks ensures LockOk(s', k) {
      assert LockOk(s, k);
      assert t !in s.locks[k].waiters;
      if k != l && s.locks[k].waiters != [] && s.locks[k].value > 0 {
        var u :| u in s.threads && s.threads[u].wait == Woken(k);
        assert u in s'.threads && s'.threads[u].wait == Woken(k);
      }
    }
    forall u | u in s'.threads ensures WaitOk(s', u) {
      assert WaitOk(s, u);
    }
  }

  /** The semaphores depend on the threads only through their program counters. */
  lemma SameLocks(s: State, ts': Threads)
    requires LocksMatch(s) && ts'.Keys == s.threads.Keys
    requires forall t | t in ts' :: ts'[t].wait == s.threads[t].wait
    ensures LocksMatch(State(ts', s.locks))
  {
    var s' := State(ts', s.locks);
    forall l | l in s'.locks ensures LockOk(s', l) {
      assert LockOk(s, l);
      if s.locks[l].waiters != [] && s.locks[l].value > 0 {
        var u :| u in s.threads && s.threads[u].wait == Woken(l);
        assert u in s'.threads && s'.threads[u].wait == Woken(l);
      }
    }
    forall u | u in s'.threads ensures WaitOk(s', u) {
      assert WaitOk(s, u);
    }
  }

  /** A blocked lock_acquire.  The thread has no recipient yet: the assertion of
      thread_donate_priority holds. */
  lemma AcquireInv(s: State, t: Tid, l: Lid)
    requires Inv(s) && Enabled(s, Acquire(t, l))
    ensures s.threads[t].recipient == None
    ensures Inv(Step(s, Acquire(t, l)))
  {
    assert forall r: Tid :: !Gives(s.threads, t, r);
    assert s.threads[t].recipient.Some? ==> Gives(s.threads, t, s.threads[t].recipient.value);
    var h := s.locks[l].holder;
    if h == None {
      SemaDownInv(s, t, l);
    } else {
      assert LockOk(s, l);
      EdgesExist(s.threads);
      var s1 := s.(threads := Donate(s.threads, t, h.value, l));
      DonatePriorities(s.threads, t, h.value, l);
      DonateFrame(s.threads, t, h.value, l);
      SameLocks(s, s1.threads);
      SemaDownLocks(s1, t, l);
      SetWait(s1.threads, t, Waiting(l));
      DonatedEdges(s, s1, t, h.value, l);
    }
  }

  lemma DonatedEdges(s: State, s1: State, t: Tid, h: Tid, l: Lid)
    requires EdgesHaveLocks(s) && t in s.threads && l in s.locks && s.locks[l].holder == Some(h)
    requires s.locks[l].value == 0 && s.threads[t].wait == Free && s.threads[t].recipient == None
    requires s1.locks == s.locks && s1.threads.Keys == s.threads.Keys
    requires forall u | u in s.threads :: s1.threads[u].wait == s.threads[u].wait
    requires forall u | u in s.threads && u != t ::
               s1.threads[u].lock == s.threads[u].lock && s1.threads[u].recipient == s.threads[u].recipient
    requires s1.threads[t].recipient == None || (s1.threads[t].recipient == Some(h) && s1.threads[t].lock == Some(l))
    ensures EdgesHaveLocks(SemaDown(s1, t, l))
  {
    var s' := SemaDown(s1, t, l);
    forall d: Tid, r: Tid | Gives(s'.threads, d, r)
      ensures && s'.threads[d].lock.Some?
              && s'.threads[d].lock.value in s'.locks
              && s'.locks[s'.threads[d].lock.value].holder == Some(r)
              && s'.threads[d].wait == Waiting(s'.threads[d].lock.value)
    {
      if d != t {
        assert Gives(s.threads, d, r);
      }
    }
  }

  lemma SetPriorityInv(s: State, t: Tid, p: nat)
    requires Inv(s) && Enabled(s, SetPriority(t, p))
    ensures Inv(Step(s, SetPriority(t, p)))
  {
    hide EdgesMatch, LocksMatch, Priorities, EdgesHaveLocks, MaxPriority;
    RunsFree(s, t);
    var s' := Step(s, SetPriority(t, p));
    SameEdges(s.threads, s'.threads);
    SameLocks(s, s'.threads);
    SetPriorityPriorities(s.threads, t, p);
    SamePlaces(s, s');
  }

  /** A thread that runs gives to none. */
  lemma RunsFree(s: State, t: Tid)
    requires Inv(s) && Runs(s, t)
    ensures forall r: Tid :: !Gives(s.threads, t, r)
    ensures forall u, d | u in s.threads && d in s.threads[u].donors :: d in s.threads
  {
    hide LocksMatch, Priorities;
  }

  lemma SamePlaces(s: State, s': State)
    requires EdgesHaveLocks(s) && s'.locks == s.locks && s'.threads.Keys == s.threads.Keys
    requires forall u | u in s.threads ::
               && s'.threads[u].recipient == s.threads[u].recipient && s'.threads[u].lock == s.threads[u].lock
               && s'.threads[u].wait == s.threads[u].wait
    ensures EdgesHaveLocks(s')
  {
    assert forall d: Tid, r: Tid :: Gives(s'.threads, d, r) <==> Gives(s.threads, d, r);
  }

  lemma SetPriorityPriorities(ts: Threads, t: Tid, p: nat)
    requires t in ts && EdgesMatch(ts) && Priorities(ts) && forall r: Tid :: !Gives(ts, t, r)
    ensures Priorities(ts[t := ts[t].(genesis := p, priority := MaxPriority(ts, ts[t].donors, p))])
  {
    var ts' := ts[t := ts[t].(genesis := p, priority := MaxPriority(ts, ts[t].donors, p))];
    assert forall u | u in ts :: t !in ts[u].donors;
    forall u | u in ts' ensures Attained(ts', u) {
      if u != t {
        StillAttained(ts, ts', u);
      }
    }
  }

  /** A thread without a lock has no donors. */
  lemma ExitInv(s: State, t: Tid)
    requires Inv(s) && Enabled(s, Exit(t))
    ensures Inv(Step(s, Exit(t)))
  {
    var ts' := s.threads - {t};
    assert forall d: Tid :: !Gives(s.threads, d, t);
    assert forall r: Tid :: !Gives(s.threads, t, r);
    assert forall d: Tid, r: Tid :: Gives(ts', d, r) <==> Gives(s.threads, d, r);
    ExitPriorities(s.threads, t);
    ExitLocks(s, t);
    hide Priorities, LocksMatch;
  }

  lemma ExitPriorities(ts: Threads, t: Tid)
    requires Priorities(ts) && EdgesMatch(ts) && forall r: Tid :: !Gives(ts, t, r)
    ensures Priorities(ts - {t})
  {
    var ts' := ts - {t};
    forall u | u in ts' ensures Attained(ts', u) && t !in ts[u].donors {
      assert t in ts[u].donors ==> Gives(ts, t, u);
      StillAttained(ts, ts', u);
    }
  }

  lemma ExitLocks(s: State, t: Tid)
    requires LocksMatch(s) && Runs(s, t) && forall l | l in s.locks :: s.locks[l].holder != Some(t)
    ensures LocksMatch(s.(threads := s.threads - {t}))
  {
    var s' := s.(threads := s.threads - {t});
    forall l | l in s'.locks ensures LockOk(s', l) {
      assert LockOk(s, l);
      if s.locks[l].waiters != [] && s.locks[l].value > 0 {
        var u :| u in s.threads && s.threads[u].wait == Woken(l);
        assert u in s'.threads && s'.threads[u].wait == Woken(l);
      }
    }
    forall u | u in s'.threads ensures WaitOk(s', u) {
      assert WaitOk(s, u);
    }
  }

  /** Releasing: the edges for the lock are gone before the semaphore goes up. */
  lemma ReleaseInv(s: State, t: Tid, l: Lid)
    requires Inv(s) && Enabled(s, Release(t, l))
    ensures Inv(Step(s, Release(t, l)))
  {
    assert forall r: Tid :: !Gives(s.threads, t, r);
    assert s.threads[t].recipient.Some? ==> Gives(s.threads, t, s.threads[t].recipient.value);
    var ts1 := Restore(s.threads, t, l);
    var s1 := State(ts1, s.locks[l := s.locks[l].(holder := None)]);
    RestorePriorities(s.threads, t, l);
    RestoreFrame(s.threads, t, l);
    SameLocks(s, ts1);
    WaitersWait(State(ts1, s.locks), l);
    ReleasedEdges(s, s1, t, l);
    hide Restore, EdgesMatch, Priorities, EdgesHaveLocks, LocksMatch, SemaUp, Gives;
    SemaUpEdges(s1, l);
    SemaUpLocks(State(ts1, s.locks), l);
    SemaUpPriorities(s1, l);
  }

  lemma WaitersWait(s: State, l: Lid)
    requires LocksMatch(s) && l in s.locks
    ensures forall w | w in s.locks[l].waiters :: w in s.threads && s.threads[w].wait == Waiting(l)
  {
    assert LockOk(s, l);
  }

  lemma RestoreFrame(ts: Threads, r: Tid, l: Lid)
    requires r in ts && EdgesMatch(ts) && ts[r].recipient == None
    ensures var ts' := Restore(ts, r, l);
            && ts'.Keys == ts.Keys
            && (forall t | t in ts :: ts'[t].wait == ts[t].wait && ts'[t].genesis == ts[t].genesis)
            && (forall d: Tid, t: Tid :: Gives(ts', d, t) <==> Gives(ts, d, t) && !(t == r && ts[d].lock == Some(l)))
            && (forall d: Tid, t: Tid | Gives(ts', d, t) :: ts'[d].lock == ts[d].lock)
            && (forall t | t in ts && t != r :: ts'[t].priority == ts[t].priority && ts'[t].donors == ts[t].donors)
  {
    var ts' := Restore(ts, r, l);
    var kept := Kept(ts, ts[r].donors, r, l);
    KeptAll(ts, ts[r].donors, r, l);
    forall d: Tid, t: Tid
      ensures Gives(ts', d, t) <==> Gives(ts, d, t) && !(t == r && ts[d].lock == Some(l))
      ensures Gives(ts', d, t) ==> ts'[d].lock == ts[d].lock
    {
      assert Gives(ts, d, r) ==> d in ts[r].donors;
      assert Gives(ts, d, t) && ts[d].lock == Some(l) && t == r ==> DonatedFor(ts, d, r, l);
    }
  }

  /** Nothing was dropped exactly when no donor donated for this lock. */
  lemma {:induction false} KeptAll(ts: Threads, ds: seq<Tid>, r: Tid, l: Lid)
    ensures |Kept(ts, ds, r, l)| <= |ds|
    ensures |Kept(ts, ds, r, l)| == |ds| <==> forall d | d in ds :: !DonatedFor(ts, d, r, l)
    ensures |Kept(ts, ds, r, l)| == |ds| ==> Kept(ts, ds, r, l) == ds
  {
    if ds != [] {
      KeptAll(ts, ds[1..], r, l);
      assert ds == [ds[0]] + ds[1..];
    }
  }

  lemma ReleasedEdges(s: State, s1: State, t: Tid, l: Lid)
    requires EdgesHaveLocks(s) && l in s.locks && s.locks[l].holder == Some(t)
    requires s1.locks == s.locks[l := s.locks[l].(holder := None)]
    requires s1.threads.Keys == s.threads.Keys
    requires forall u | u in s.threads :: s1.threads[u].wait == s.threads[u].wait
    requires forall d: Tid, r: Tid :: Gives(s1.threads, d, r) <==>
             Gives(s.threads, d, r) && !(r == t && s.threads[d].lock == Some(l))
    requires forall d: Tid, r: Tid | Gives(s1.threads, d, r) :: s1.threads[d].lock == s.threads[d].lock
    ensures EdgesHaveLocks(s1)
    ensures forall d: Tid, r: Tid | Gives(s1.threads, d, r) :: s1.threads[d].lock != Some(l)
  {
    forall d: Tid, r: Tid | Gives(s1.threads, d, r)
      ensures && s1.threads[d].lock.Some?
              && s1.threads[d].lock.value in s1.locks
              && s1.locks[s1.threads[d].lock.value].holder == Some(r)
              && s1.threads[d].wait == Waiting(s1.threads[d].lock.value)
              && s1.threads[d].lock != Some(l)
    {
      assert Gives(s.threads, d, r);
    }
  }

  /** Waking a waiter of `l` once no edge for `l` is left. */
  lemma SemaUpEdges(s: State, l: Lid)
    requires EdgesHaveLocks(s) && l in s.locks && s.locks[l].holder == None
    requires forall w | w in s.locks[l].waiters :: w in s.threads && s.threads[w].wait == Waiting(l)
    requires forall d: Tid, r: Tid | Gives(s.threads, d, r) :: s.threads[d].lock != Some(l)
    ensures EdgesHaveLocks(SemaUp(s, l))
  {
    var s' := SemaUp(s, l);
    forall d: Tid, r: Tid ensures Gives(s'.threads, d, r) <==> Gives(s.threads, d, r) {
    }
    forall d: Tid, r: Tid | Gives(s.threads, d, r) ensures s'.threads[d] == s.threads[d] {
      assert s.threads[d].wait != Waiting(l);
    }
  }

  lemma SemaUpKeys(s: State, l: Lid)
    requires l in s.locks && forall w | w in s.locks[l].waiters :: w in s.threads
    ensures SemaUp(s, l).threads.Keys == s.threads.Keys && SemaUp(s, l).locks.Keys == s.locks.Keys
  {
  }

  lemma SemaUpLocks(s: State, l: Lid)
    requires LocksMatch(s) && l in s.locks && s.locks[l].holder.Some?
    requires forall w | w in s.locks[l].waiters :: w in s.threads && s.threads[w].wait == Waiting(l)
    ensures LocksMatch(SemaUp(s.(locks := s.locks[l := s.locks[l].(holder := None)]), l))
  {
    hide SemaUp, LockOk, WaitOk;
    var s' := SemaUp(s.(locks := s.locks[l := s.locks[l].(holder := None)]), l);
    SemaUpKeys(s.(locks := s.locks[l := s.locks[l].(holder := None)]), l);
    forall k | k in s'.locks ensures LockOk(s', k) {
      assert LockOk(s, k);
      if k == l {
        SemaUpLock(s, l);
      } else {
        SemaUpOtherLock(s, l, k);
      }
    }
    forall u | u in s'.threads ensures WaitOk(s', u) {
      assert WaitOk(s, u);
      SemaUpWait(s, l, u);
    }
  }

  lemma SemaUpWait(s: State, l: Lid, u: Tid)
    requires l in s.locks && u in s.threads && WaitOk(s, u)
    requires forall w | w in s.locks[l].waiters :: w in s.threads && s.threads[w].wait == Waiting(l)
    ensures var s' := SemaUp(s.(locks := s.locks[l := s.locks[l].(holder := None)]), l);
            u in s'.threads && WaitOk(s', u)
  {
    hide MaxWaiter;
    var ws := s.locks[l].waiters;
    if ws != [] {
      var i := MaxWaiter(s.threads, ws);
      assert ws == ws[..i] + [ws[i]] + ws[i + 1..];
    }
  }

  lemma SemaUpOtherLock(s: State, l: Lid, k: Lid)
    requires l in s.locks && k in s.locks && k != l && LockOk(s, k)
    requires forall w | w in s.locks[l].waiters :: w in s.threads && s.threads[w].wait == Waiting(l)
    ensures LockOk(SemaUp(s.(locks := s.locks[l := s.locks[l].(holder := None)]), l), k)
  {
    var s' := SemaUp(s.(locks := s.locks[l := s.locks[l].(holder := None)]), l);
    if s.locks[k].waiters != [] && s.locks[k].value > 0 {
      var u :| u in s.threads && s.threads[u].wait == Woken(k);
      assert s'.threads[u].wait == Woken(k);
    }
  }

  lemma SemaUpLock(s: State, l: Lid)
    requires l in s.locks && LockOk(s, l) && s.locks[l].holder.Some?
    ensures LockOk(SemaUp(s.(locks := s.locks[l := s.locks[l].(holder := None)]), l), l)
  {
    var s' := SemaUp(s.(locks := s.locks[l := s.locks[l].(holder := None)]), l);
    var ws := s.locks[l].waiters;
    if ws != [] {
      var i := MaxWaiter(s.threads, ws);
      assert s'.threads[ws[i]].wait == Woken(l);
      forall w | w in s'.locks[l].waiters ensures w in ws && w != ws[i] {
      }
    }
  }

  lemma SemaUpPriorities(s: State, l: Lid)
    requires l in s.locks && forall w | w in s.locks[l].waiters :: w in s.threads
    requires EdgesMatch(s.threads) && Priorities(s.threads)
    ensures EdgesMatch(SemaUp(s, l).threads) && Priorities(SemaUp(s, l).threads)
  {
    if s.locks[l].waiters != [] {
      SetWait(s.threads, s.locks[l].waiters[MaxWaiter(s.threads, s.locks[l].waiters)], Woken(l));
    }
  }

  /** Every step keeps the invariant. */
  lemma StepInv(s: State, e: Event)
    requires Inv(s) && Enabled(s, e)
    ensures Inv(Step(s, e))
  {
    hide Inv, Step, SemaDown, SemaUp, Donate, Restore, LocksMatch, EdgesMatch, Priorities, EdgesHaveLocks;
    match e
    case Create(t, p) => CreateInv(s, t, p);
    case InitLock(l) => InitLockInv(s, l);
    case Acquire(t, l) => AcquireInv(s, t, l);
    case TryAcquire(t, l) => TryAcquireInv(s, t, l);
    case Wake(t) => WakeInv(s, t);
    case Release(t, l) => ReleaseInv(s, t, l);
    case SetPriority(t, p) => SetPriorityInv(s, t, p);
    case Exit(t) => ExitInv(s, t);
  }

  lemma TryAcquireInv(s: State, t: Tid, l: Lid)
    requires Inv(s) && Enabled(s, TryAcquire(t, l))
    ensures Inv(Step(s, TryAcquire(t, l)))
  {
    SemaDownInv(s, t, l);
  }

  lemma WakeInv(s: State, t: Tid)
    requires Inv(s) && Enabled(s, Wake(t))
    ensures Inv(Step(s, Wake(t)))
  {
    SemaDownInv(s, t, s.threads[t].wait.l);
  }

  // ---- runs ----

  const BOOT := State(map[], map[])

  /** The state after a run, if each of its events is enabled where it comes. */
  ghost function Run(s: State, es: seq<Event>): (r: Option<State>)
    requires Inv(s)
    ensures r.Some? ==> Inv(r.value)
    decreases |es|
  {
    if es == [] then Some(s)
    else if Enabled(s, es[0]) then
      StepInv(s, es[0]);
      Run(Step(s, es[0]), es[1..])
    else None
  }

  // ---- the priority law ----

  /** The effective priority is the greatest of the thread's own and its donors'. */
  ghost predicate Law(s: State, t: Tid)
    requires Inv(s) && t in s.threads
  {
    s.threads[t].priority == MaxPriority(s.threads, s.threads[t].donors, s.threads[t].genesis)
  }

  /** In every reachable state the law can fail in one way only. */
  lemma LawIsLowerBound(s: State, t: Tid)
    requires Inv(s) && t in s.threads
    ensures Law(s, t) <==> s.threads[t].priority >= s.threads[t].genesis
  {
    assert Attained(s.threads, t);
  }

  /** thread_restore_priority forgets the thread's own priority when donors remain: the case
      that a release drops donors, keeps others, and those are all below the own priority. */
  ghost predicate Sinks(s: State, t: Tid, l: Lid)
    requires Inv(s) && t in s.threads
  {
    var kept := Kept(s.threads, s.threads[t].donors, t, l);
    && |kept| < |s.threads[t].donors|
    && kept != []
    && forall d | d in kept :: s.threads[d].priority < s.threads[t].genesis
  }

  /** Exactly when a step breaks the law for a thread that had it. */
  lemma LawLostExactlyBySinking(s: State, e: Event, u: Tid)
    requires Inv(s) && Enabled(s, e) && u in s.threads && Law(s, u) && e != Exit(u)
    ensures Inv(Step(s, e)) && u in Step(s, e).threads
    ensures Law(Step(s, e), u) <==> !(e.Release? && e.t == u && Sinks(s, u, e.l))
  {
    StepInv(s, e);
    LawIsLowerBound(s, u);
    StepPriority(s, e, u);
    LawIsLowerBound(Step(s, e), u);
  }

  lemma StepPriority(s: State, e: Event, u: Tid)
    requires Inv(s) && Enabled(s, e) && u in s.threads && s.threads[u].priority >= s.threads[u].genesis && e != Exit(u)
    ensures var s' := Step(s, e);
            u in s'.threads &&
            (s'.threads[u].priority >= s'.threads[u].genesis <==> !(e.Release? && e.t == u && Sinks(s, u, e.l)))
  {
    if e.Acquire? {
      AcquireRaises(s, e.t, e.l);
      hide Step, Inv, Enabled;
    } else if e.Release? {
      ReleasePriority(s, e.t, e.l, u);
      hide Step, Inv, Enabled, Sinks;
    } else {
      hide Inv;
    }
  }

  lemma ReleasePriority(s: State, t: Tid, l: Lid, u: Tid)
    requires Inv(s) && Enabled(s, Release(t, l)) && u in s.threads && s.threads[u].priority >= s.threads[u].genesis
    ensures var s' := Step(s, Release(t, l));
            u in s'.threads && (s'.threads[u].priority >= s'.threads[u].genesis <==> !(t == u && Sinks(s, u, l)))
  {
    NoRecipient(s, t);
    SemaUpFrame(State(Restore(s.threads, t, l), s.locks[l := s.locks[l].(holder := None)]), l);
    RestorePriority(s.threads, t, l, u);
  }

  lemma NoRecipient(s: State, t: Tid)
    requires Inv(s) && Runs(s, t)
    ensures s.threads[t].recipient == None
  {
    assert s.threads[t].recipient.Some? ==> Gives(s.threads, t, s.threads[t].recipient.value);
  }

  lemma RestorePriority(ts: Threads, t: Tid, l: Lid, u: Tid)
    requires t in ts && u in ts && EdgesMatch(ts) && ts[t].recipient == None
    requires ts[u].priority >= ts[u].genesis
    ensures var ts' := Restore(ts, t, l);
            var kept := Kept(ts, ts[t].donors, t, l);
            && u in ts'
            && (ts'[u].priority >= ts'[u].genesis <==>
                !(t == u && |kept| < |ts[t].donors| && kept != [] &&
                  forall d | d in kept :: d in ts && ts[d].priority < ts[t].genesis))
  {
    RestoreFrame(ts, t, l);
    KeptAll(ts, ts[t].donors, t, l);
    assert !Gives(ts, t, t);
    var kept := Kept(ts, ts[t].donors, t, l);
    assert forall d | d in kept :: Gives(ts, d, t);
    assert kept != [] ==> kept[0] in kept;
  }

  lemma DonateRaises(ts: Threads, donor: Tid, recipient: Tid, l: Lid)
    requires donor in ts && recipient in ts && donor != recipient && RecipientsExist(ts)
    ensures forall t | t in ts :: t in Donate(ts, donor, recipient, l)
    ensures forall t | t in ts :: Donate(ts, donor, recipient, l)[t].priority >= ts[t].priority
    ensures forall t | t in ts :: Donate(ts, donor, recipient, l)[t].genesis == ts[t].genesis
  {
    if ts[recipient].priority <= ts[donor].priority {
      RecordKeepsRecipients(ts, donor, recipient, l);
      PropagateFrame(Record(ts, donor, recipient, l), recipient);
    }
  }

  lemma SemaUpFrame(s: State, l: Lid)
    requires l in s.locks && forall w | w in s.locks[l].waiters :: w in s.threads
    ensures SemaUp(s, l).threads.Keys == s.threads.Keys
    ensures forall t | t in s.threads :: SemaUp(s, l).threads[t] == s.threads[t].(wait := SemaUp(s, l).threads[t].wait)
  {
  }

  /** A thread sets its own priority no higher than that of any of its donors. */
  ghost predicate Tame(s: State, e: Event)
    requires Inv(s) && Enabled(s, e)
  {
    e.SetPriority? ==> forall d | d in s.threads[e.t].donors :: s.threads[d].priority >= e.priority
  }

  /** The law everywhere, and no donor below its recipient's own priority. */
  ghost predicate LawEverywhere(s: State)
    requires Inv(s)
  {
    && (forall t | t in s.threads :: Law(s, t))
    && (forall t, d | t in s.threads && d in s.threads[t].donors :: s.threads[d].priority >= s.threads[t].genesis)
  }

  ghost predicate TameRun(s: State, es: seq<Event>)
    requires Inv(s)
    decreases |es|
  {
    es == [] || (Enabled(s, es[0]) && Tame(s, es[0]) && (StepInv(s, es[0]); TameRun(Step(s, es[0]), es[1..])))
  }

  /** In every state of every tame run each thread has the priority the law gives it. */
  lemma {:induction false} LawInTameRuns(s: State, es: seq<Event>)
    requires Inv(s) && LawEverywhere(s) && TameRun(s, es)
    ensures Run(s, es).Some? && LawEverywhere(Run(s, es).value)
    decreases |es|
  {
    if es != [] {
      StepInv(s, es[0]);
      StepLawEverywhere(s, es[0]);
      LawInTameRuns(Step(s, es[0]), es[1..]);
    }
  }

  lemma StepLawEverywhere(s: State, e: Event)
    requires Inv(s) && LawEverywhere(s) && Enabled(s, e) && Tame(s, e)
    ensures Inv(Step(s, e)) && LawEverywhere(Step(s, e))
  {
    StepInv(s, e);
    var s' := Step(s, e);
    forall t | t in s'.threads ensures Law(s', t) {
      StepLaw(s, e, t);
    }
    forall t, d | t in s'.threads && d in s'.threads[t].donors
      ensures s'.threads[d].priority >= s'.threads[t].genesis
    {
      DonorGives(s', d, t);
      StepDonor(s, e, d, t);
    }
    hide Inv, Step, Enabled, Tame, Law;
  }

  lemma StepLaw(s: State, e: Event, t: Tid)
    requires Inv(s) && LawEverywhere(s) && Enabled(s, e) && Tame(s, e)
    requires Inv(Step(s, e)) && t in Step(s, e).threads
    ensures Law(Step(s, e), t)
  {
    StepKeys(s, e);
    if t in s.threads {
      NeverSinks(s, e, t);
      assert Law(s, t);
      hide Inv, Step, Enabled, Sinks, Tame, LawEverywhere, Law;
      LawLostExactlyBySinking(s, e, t);
    } else {
      hide Inv, Step, Enabled, Sinks, Tame, LawEverywhere;
      assert Step(s, e).threads[t] == NewThread(e.priority);
    }
  }

  lemma StepKeys(s: State, e: Event)
    requires Inv(s) && Enabled(s, e)
    ensures forall t | t in s.threads :: t in Step(s, e).threads || e == Exit(t)
    ensures forall t | t in Step(s, e).threads && t !in s.threads ::
              e.Create? && t == e.t && Step(s, e).threads[t] == NewThread(e.priority)
  {
    match e
    case Acquire(t, l) =>
      if s.locks[l].holder.Some? {
        EdgesExist(s.threads);
        DonateFrame(s.threads, t, s.locks[l].holder.value, l);
      }
    case Release(t, l) =>
      SemaUpFrame(State(Restore(s.threads, t, l), s.locks[l := s.locks[l].(holder := None)]), l);
    case _ =>
  }

  lemma DonorGives(s: State, d: Tid, t: Tid)
    requires Inv(s) && t in s.threads && d in s.threads[t].donors
    ensures Gives(s.threads, d, t)
  {
  }

  lemma NeverSinks(s: State, e: Event, t: Tid)
    requires Inv(s) && LawEverywhere(s) && t in s.threads
    ensures e.Release? ==> !Sinks(s, t, e.l)
  {
    hide Inv, Law, Kept;
    if e.Release? {
      var kept := Kept(s.threads, s.threads[t].donors, t, e.l);
      if kept != [] {
        assert kept[0] in kept;
      }
    }
  }

  lemma StepDonor(s: State, e: Event, d: Tid, t: Tid)
    requires Inv(s) && LawEverywhere(s) && Enabled(s, e) && Tame(s, e)
    requires Gives(Step(s, e).threads, d, t) && t in Step(s, e).threads
    ensures Step(s, e).threads[d].priority >= Step(s, e).threads[t].genesis
  {
    if e.Acquire? {
      AcquireRaises(s, e.t, e.l);
      AcquireDonor(s, e.t, e.l, d, t, Step(s, e));
    } else if e.Release? {
      StepKeys(s, e);
      ReleaseDonor(s, e.t, e.l, d, t);
    } else {
      SimpleStepEdge(s, e, d, t);
      hide Step, Inv, LawEverywhere, Enabled, Tame;
      OldDonor(s, d, t);
    }
  }

  /** The steps that neither donate nor restore leave the edges alone. */
  lemma SimpleStepEdge(s: State, e: Event, d: Tid, t: Tid)
    requires Inv(s) && Enabled(s, e) && Tame(s, e) && !e.Acquire? && !e.Release?
    requires Gives(Step(s, e).threads, d, t)
    ensures Gives(s.threads, d, t) && t in s.threads && d in s.threads && t in Step(s, e).threads
    ensures Step(s, e).threads[d].priority == s.threads[d].priority
    ensures Step(s, e).threads[t].genesis == s.threads[t].genesis ||
            Step(s, e).threads[t].genesis <= s.threads[d].priority
  {
    hide LocksMatch, Priorities;
    assert Gives(s.threads, d, t);
    assert e.SetPriority? ==> d != e.t;
  }

  lemma OldDonor(s: State, d: Tid, t: Tid)
    requires Inv(s) && LawEverywhere(s) && Gives(s.threads, d, t)
    ensures t in s.threads && d in s.threads[t].donors && s.threads[d].priority >= s.threads[t].genesis
    ensures s.threads[d].wait.Waiting?
  {
  }

  lemma AcquireDonor(s: State, u: Tid, l: Lid, d: Tid, t: Tid, s': State)
    requires Inv(s) && LawEverywhere(s) && Enabled(s, Acquire(u, l)) && s' == Step(s, Acquire(u, l))
    requires Gives(s'.threads, d, t) && t in s.threads && t in s'.threads
    ensures s'.threads[d].priority >= s'.threads[t].genesis
  {
    AcquireRaises(s, u, l);
    AcquireEdge(s, u, l, d, t);
    hide Step, Inv, LawEverywhere, Enabled;
    if Gives(s.threads, d, t) {
      OldDonor(s, d, t);
    } else {
      HolderLaw(s, t);
    }
  }

  lemma HolderLaw(s: State, t: Tid)
    requires Inv(s) && LawEverywhere(s) && t in s.threads
    ensures s.threads[t].priority >= s.threads[t].genesis
  {
    LawIsLowerBound(s, t);
  }

  lemma AcquireRaises(s: State, u: Tid, l: Lid)
    requires Inv(s) && Enabled(s, Acquire(u, l))
    ensures var s' := Step(s, Acquire(u, l));
            && s'.threads.Keys == s.threads.Keys
            && (forall t | t in s.threads :: s'.threads[t].genesis == s.threads[t].genesis)
            && (forall t | t in s.threads :: s'.threads[t].priority >= s.threads[t].priority)
  {
    var h := s.locks[l].holder;
    if h.Some? {
      EdgesExist(s.threads);
      DonateFrame(s.threads, u, h.value, l);
      DonateRaises(s.threads, u, h.value, l);
    }
  }

  /** The only edge that an acquire can add goes to the holder, which is not above the caller. */
  lemma AcquireEdge(s: State, u: Tid, l: Lid, d: Tid, t: Tid)
    requires Inv(s) && Enabled(s, Acquire(u, l))
    requires Gives(Step(s, Acquire(u, l)).threads, d, t)
    ensures Gives(s.threads, d, t) ||
            (d == u && t in s.threads && s.locks[l].holder == Some(t) && s.threads[t].priority <= s.threads[u].priority)
  {
    var h := s.locks[l].holder;
    if h.Some? {
      EdgesExist(s.threads);
      DonateFrame(s.threads, u, h.value, l);
      assert !Gives(s.threads, u, t);
    }
  }

  lemma ReleaseDonor(s: State, u: Tid, l: Lid, d: Tid, t: Tid)
    requires Inv(s) && LawEverywhere(s) && Enabled(s, Release(u, l))
    requires Gives(Step(s, Release(u, l)).threads, d, t) && t in s.threads
    ensures Step(s, Release(u, l)).threads[d].priority >= Step(s, Release(u, l)).threads[t].genesis
  {
    assert forall r: Tid :: !Gives(s.threads, u, r);
    assert s.threads[u].recipient.Some? ==> Gives(s.threads, u, s.threads[u].recipient.value);
    RestoreFrame(s.threads, u, l);
    var s1 := State(Restore(s.threads, u, l), s.locks[l := s.locks[l].(holder := None)]);
    SemaUpFrame(s1, l);
    assert Gives(s1.threads, d, t);
    assert Gives(s.threads, d, t);
    OldDonor(s, d, t);
  }

  // ---- the law does fail ----

  /** Thread 0 holds locks 0 and 1, thread 1 (40) waits for lock 0 and thread 2 (50) for lock 1. */
  ghost function TwoDonors(p: nat, genesis: nat): State {
    State(map[0 := Thread(p, genesis, None, None, [1, 2], Free),
              1 := Thread(40, 40, Some(0), Some(0), [], Waiting(0)),
              2 := Thread(50, 50, Some(1), Some(0), [], Waiting(1))],
          map[0 := Lock(Some(0), 0, [1]), 1 := Lock(Some(0), 0, [2])])
  }

  lemma RunStep(s: State, e: Event, es: seq<Event>, s': State)
    requires Inv(s) && Enabled(s, e) && Step(s, e) == s'
    ensures Inv(s') && Run(s, [e] + es) == Run(s', es)
  {
    StepInv(s, e);
    assert ([e] + es)[1..] == es;
  }

  const SETUP := [Create(0, 31), InitLock(0), InitLock(1), Acquire(0, 0), Acquire(0, 1)]
  const BLOCKING := [Create(1, 40), Create(2, 50), Acquire(1, 0), Acquire(2, 1)]
  const SINKING := [SetPriority(0, 60), Release(0, 1)]

  const HELD := State(map[0 := NewThread(31)], map[0 := Lock(Some(0), 0, []), 1 := Lock(Some(0), 0, [])])

  lemma BootInv()
    ensures Inv(BOOT) && Run(BOOT, []) == Some(BOOT)
  {
  }

  lemma RunEnd(s: State)
    requires Inv(s)
    ensures Run(s, []) == Some(s)
  {
  }

  lemma RunSetup()
    ensures Inv(BOOT) && Run(BOOT, SETUP) == Some(HELD) && Inv(HELD)
  {
    hide Inv, Run;
    BootInv();
    var ts := map[0 := NewThread(31)];
    var free := Lock(None, 1, []);
    var mine := Lock(Some(0), 0, []);
    var s1 := State(ts, map[]);
    var s2 := State(ts, map[0 := free]);
    var s3 := State(ts, map[0 := free, 1 := free]);
    var s4 := State(ts, map[0 := mine, 1 := free]);
    RunStep(BOOT, SETUP[0], SETUP[1..], s1);
    assert SETUP == [SETUP[0]] + SETUP[1..];
    RunStep(s1, SETUP[1], SETUP[2..], s2);
    assert SETUP[1..] == [SETUP[1]] + SETUP[2..];
    RunStep(s2, SETUP[2], SETUP[3..], s3);
    assert SETUP[2..] == [SETUP[2]] + SETUP[3..];
    RunStep(s3, SETUP[3], SETUP[4..], s4);
    assert SETUP[3..] == [SETUP[3]] + SETUP[4..];
    RunStep(s4, SETUP[4], [], HELD);
    RunEnd(HELD);
    assert SETUP[4..] == [SETUP[4]] + [];
  }

  /** BLOCKING on a lock whose holder is not blocked itself. */
  lemma BlocksOn(s: State, t: Tid, l: Lid, h: Tid)
    requires Inv(s) && Enabled(s, Acquire(t, l)) && s.locks[l].holder == Some(h) && s.locks[l].value == 0
    requires h in s.threads && s.threads[h].recipient == None && s.threads[h].priority <= s.threads[t].priority
    ensures Step(s, Acquire(t, l)) ==
            State(s.threads[h := s.threads[h].(priority := s.threads[t].priority, donors := s.threads[h].donors + [t])]
                           [t := s.threads[t].(lock := Some(l), recipient := Some(h), wait := Waiting(l))],
                  s.locks[l := s.locks[l].(waiters := s.locks[l].waiters + [t])])
  {
    EdgesExist(s.threads);
    RecordKeepsRecipients(s.threads, t, h, l);
    hide Inv;
    assert Donate(s.threads, t, h, l) == Record(s.threads, t, h, l);
  }

  const ONE_DONOR := State(map[0 := Thread(40, 31, None, None, [1], Free),
                              1 := Thread(40, 40, Some(0), Some(0), [], Waiting(0)),
                              2 := NewThread(50)],
                          map[0 := Lock(Some(0), 0, [1]), 1 := Lock(Some(0), 0, [])])

  lemma FirstBlocks(s: State)
    requires Inv(s) && Enabled(s, Acquire(1, 0))
    requires s == State(map[0 := NewThread(31), 1 := NewThread(40), 2 := NewThread(50)], HELD.locks)
    ensures Step(s, Acquire(1, 0)) == ONE_DONOR
  {
    hide Inv;
    BlocksOn(s, 1, 0, 0);
    assert [] + [1] == [1];
    assert Step(s, Acquire(1, 0)).threads == ONE_DONOR.threads;
  }

  lemma SecondBlocks()
    requires Inv(ONE_DONOR) && Enabled(ONE_DONOR, Acquire(2, 1))
    ensures Step(ONE_DONOR, Acquire(2, 1)) == TwoDonors(50, 31)
  {
    hide Inv;
    BlocksOn(ONE_DONOR, 2, 1, 0);
    assert [1] + [2] == [1, 2];
    assert [] + [2] == [2];
    assert Step(ONE_DONOR, Acquire(2, 1)).threads == TwoDonors(50, 31).threads;
    assert Step(ONE_DONOR, Acquire(2, 1)).locks == TwoDonors(50, 31).locks;
  }

  lemma RunBlocking()
    ensures Inv(HELD) && Run(HELD, BLOCKING) == Some(TwoDonors(50, 31)) && Inv(TwoDonors(50, 31))
  {
    hide Inv, Run;
    RunSetup();
    var s1 := State(map[0 := NewThread(31), 1 := NewThread(40)], HELD.locks);
    var s2 := State(map[0 := NewThread(31), 1 := NewThread(40), 2 := NewThread(50)], HELD.locks);
    RunStep(HELD, BLOCKING[0], BLOCKING[1..], s1);
    assert BLOCKING == [BLOCKING[0]] + BLOCKING[1..];
    RunStep(s1, BLOCKING[1], BLOCKING[2..], s2);
    assert BLOCKING[1..] == [BLOCKING[1]] + BLOCKING[2..];
    FirstBlocks(s2);
    RunStep(s2, BLOCKING[2], BLOCKING[3..], ONE_DONOR);
    assert BLOCKING[2..] == [BLOCKING[2]] + BLOCKING[3..];
    SecondBlocks();
    RunStep(ONE_DONOR, BLOCKING[3], [], TwoDonors(50, 31));
    RunEnd(TwoDonors(50, 31));
    assert BLOCKING[3..] == [BLOCKING[3]] + [];
  }

  lemma {:induction false} RunConcat(s: State, es: seq<Event>, fs: seq<Event>)
    requires Inv(s) && Run(s, es).Some?
    ensures Run(s, es + fs) == Run(Run(s, es).value, fs)
    decreases |es|
  {
    if es == [] {
      assert es + fs == fs;
    } else {
      StepInv(s, es[0]);
      assert (es + fs)[1..] == es[1..] + fs;
      RunConcat(Step(s, es[0]), es[1..], fs);
    }
  }

  const SUNK := State(map[0 := Thread(40, 60, None, None, [1], Free),
                          1 := Thread(40, 40, Some(0), Some(0), [], Waiting(0)),
                          2 := Thread(50, 50, None, None, [], Woken(1))],
                      map[0 := Lock(Some(0), 0, [1]), 1 := Lock(None, 1, [])])

  const RESTORED := map[0 := Thread(40, 60, None, None, [1], Free),
                        1 := Thread(40, 40, Some(0), Some(0), [], Waiting(0)),
                        2 := Thread(50, 50, None, None, [], Waiting(1))]

  lemma SinkingRestore()
    ensures Restore(TwoDonors(60, 60).threads, 0, 1) == RESTORED
  {
    hide Kept;
    var ts := TwoDonors(60, 60).threads;
    assert DonatedFor(ts, 2, 0, 1) && !DonatedFor(ts, 1, 0, 1);
    SinkingKept();
    assert MaxPriority(ts, [1], PRI_MIN) == 40;
    hide MaxPriority;
  }

  lemma SinkingKept()
    ensures Kept(TwoDonors(60, 60).threads, [1, 2], 0, 1) == [1]
  {
    var ts := TwoDonors(60, 60).threads;
    assert DonatedFor(ts, 2, 0, 1) && !DonatedFor(ts, 1, 0, 1);
    assert [1, 2][1..] == [2] && [2][1..] == [];
    assert Kept(ts, [2], 0, 1) == [];
  }

  lemma SinkingSemaUp(ks: Locks)
    requires ks == map[0 := Lock(Some(0), 0, [1]), 1 := Lock(None, 0, [2])]
    ensures SemaUp(State(RESTORED, ks), 1) == SUNK
  {
    hide MaxWaiter;
    var w := MaxWaiter(RESTORED, [2]);
    assert w == 0 && [2][..0] + [2][1..] == [];
  }

  lemma SinkingRelease(s: State)
    requires Inv(s) && Enabled(s, Release(0, 1)) && s == TwoDonors(60, 60)
    ensures Step(s, Release(0, 1)) == SUNK
  {
    SinkingRestore();
    hide Inv, Restore, SemaUp;
    var ks := s.locks[1 := s.locks[1].(holder := None)];
    SinkingSemaUp(ks);
  }

  lemma RaisingOwnPriority(s: State)
    requires Inv(s) && Enabled(s, SetPriority(0, 60)) && s == TwoDonors(50, 31)
    ensures Step(s, SetPriority(0, 60)) == TwoDonors(60, 60)
  {
    hide Inv;
    assert MaxPriority(TwoDonors(50, 31).threads, [1, 2], 60) == 60;
  }

  /** A thread that raises its own priority above its donors and then releases one of two
      contended locks drops to the other donor's priority, below its own. */
  lemma LawFails()
    ensures Inv(BOOT)
    ensures var r := Run(BOOT, SETUP + BLOCKING + SINKING);
            && r.Some? && 0 in r.value.threads
            && r.value.threads[0].genesis == 60 && r.value.threads[0].priority == 40
            && !Law(r.value, 0)
  {
    hide Inv, Run, Step;
    RunSetup();
    RunBlocking();
    RunConcat(BOOT, SETUP, BLOCKING);
    RunConcat(BOOT, SETUP + BLOCKING, SINKING);
    RaisingOwnPriority(TwoDonors(50, 31));
    RunStep(TwoDonors(50, 31), SINKING[0], [SINKING[1]], TwoDonors(60, 60));
    assert SINKING == [SINKING[0]] + [SINKING[1]];
    SinkingRelease(TwoDonors(60, 60));
    RunStep(TwoDonors(60, 60), SINKING[1], [], SUNK);
    assert [SINKING[1]] == [SINKING[1]] + [];
    RunEnd(SUNK);
    LawIsLowerBound(SUNK, 0);
  }
}
