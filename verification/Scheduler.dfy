/**
 The scheduler of pintos/src/threads/thread.c, with the waiting lists of semaphores: who runs, who
 is ready, who waits and who sleeps.  Every step runs with interrupts off, and starts from a state
 in which the idle thread exists.  Priorities may change at any time, by whatever rule.
 */
module Scheduler {
  import opened BitTricks
  import opened Sequences
  import opened Wrappers

  type Tid = nat
  type Sid = nat

  datatype Status = Running | Ready | Blocked

  datatype Thread = Thread(priority: nat, status: Status, sleeping: bool, wakeup: int)

  type Threads = map<Tid, Thread>

  datatype State = State(threads: Threads, current: Tid, idle: Tid, ready: seq<Tid>, sleepers: seq<Tid>,
                         waiters: map<Sid, seq<Tid>>, now: int)

  // ---- choosing a thread ----

  function Rank(ts: Threads): Tid -> int {
    t => if t in ts then ts[t].priority else 0
  }

  /** list_max: the first of the threads of the greatest priority. */
  function FirstTop(ts: Threads, s: seq<Tid>): (k: nat)
    requires s != [] && forall t | t in s :: t in ts
    ensures k < |s|
    ensures forall j :: 0 <= j < |s| ==> ts[s[j]].priority <= ts[s[k]].priority
    ensures forall j :: 0 <= j < k ==> ts[s[j]].priority < ts[s[k]].priority
  {
    FirstGreatest(Rank(ts), s)
  }

  function SetStatus(ts: Threads, t: Tid, status: Status): Threads
    requires t in ts
  {
    ts[t := ts[t].(status := status)]
  }

  /** next_thread_to_run and schedule: the running thread has already been given its new status. */
  function Schedule(s: State): (r: State)
    requires s.idle in s.threads && forall t | t in s.ready :: t in s.threads
    ensures r == s.(current := r.current, threads := r.threads, ready := r.ready)
    ensures r.threads.Keys == s.threads.Keys
    ensures forall u | u in s.threads :: r.threads[u] == s.threads[u].(status := r.threads[u].status)
  {
    if s.ready == [] then s.(current := s.idle, threads := SetStatus(s.threads, s.idle, Running))
    else
      var k := FirstTop(s.threads, s.ready);
      s.(current := s.ready[k], threads := SetStatus(s.threads, s.ready[k], Running), ready := Without(s.ready, k))
  }

  /** thread_unblock */
  function Unblock(s: State, t: Tid): State
    requires t in s.threads
  {
    s.(threads := SetStatus(s.threads, t, Ready), ready := s.ready + [t])
  }

  /** thread_yield */
  function Yield(s: State): State
    requires s.current in s.threads && s.idle in s.threads && forall t | t in s.ready :: t in s.threads
  {
    Schedule(s.(threads := SetStatus(s.threads, s.current, Ready),
                ready := if s.current != s.idle then s.ready + [s.current] else s.ready))
  }

  /** thread_block */
  function Block(s: State): State
    requires s.current in s.threads && s.idle in s.threads && forall t | t in s.ready :: t in s.threads
  {
    Schedule(s.(threads := SetStatus(s.threads, s.current, Blocked)))
  }

  // ---- sleeping ----

  /** list_insert_ordered by wakeup time: before the first sleeper that wakes up later. */
  function InsertSleeper(ts: Threads, s: seq<Tid>, t: Tid): (r: seq<Tid>)
    requires t in ts && forall u | u in s :: u in ts
    ensures |r| == |s| + 1 && forall u :: u in r <==> u == t || u in s
  {
    if s == [] then [t]
    else if ts[t].wakeup < ts[s[0]].wakeup then [t] + s
    else [s[0]] + InsertSleeper(ts, s[1..], t)
  }

  /** thread_enter_sleep, before it blocks */
  function FallAsleep(s: State, wakeup: int): State
    requires s.current in s.threads && forall t | t in s.sleepers :: t in s.threads
  {
    var ts := s.threads[s.current := s.threads[s.current].(sleeping := true, wakeup := wakeup)];
    s.(threads := ts, sleepers := InsertSleeper(ts, s.sleepers, s.current))
  }

  /** The first sleeper, taken from the list */
  function Leaving(s: State): State
    requires s.sleepers != [] && s.sleepers[0] in s.threads
  {
    var t := s.sleepers[0];
    s.(sleepers := s.sleepers[1..], threads := s.threads[t := s.threads[t].(sleeping := false, wakeup := 0)])
  }

  /** thread_exit_sleep of the first sleeper */
  function ExitSleep(s: State): State
    requires s.sleepers != [] && s.sleepers[0] in s.threads
  {
    Unblock(Leaving(s), s.sleepers[0])
  }

  /** The loop of thread_tick over the sorted sleepers: it wakes them up to the first that must
      sleep on. */
  function WakeUp(s: State, time: int): State
    requires forall t | t in s.sleepers :: t in s.threads
    decreases |s.sleepers|
  {
    if s.sleepers == [] || s.threads[s.sleepers[0]].wakeup > time then s else WakeUp(ExitSleep(s), time)
  }

  // ---- events ----

  datatype Event =
    | Create(t: Tid, priority: nat)     // thread_create: unblocks the new thread and yields
    | YieldNow                          // thread_yield, also at the end of a time slice
    | Wait(k: Sid)                      // sema_down that blocks
    | Wake(k: Sid)                      // sema_up with a waiter, by a thread or an interrupt
    | IdleBlock                         // the idle thread's thread_block
    | Sleep(ticks: int)                 // thread_enter_sleep
    | Tick                              // thread_tick
    | Exit                              // thread_exit
    | SetPriority(t: Tid, priority: nat)

  predicate Enabled(s: State, e: Event) {
    match e
    case Create(t, p) => t !in s.threads && s.current != s.idle
    case YieldNow => true
    case Wait(k) => s.current != s.idle
    case Wake(k) => k in s.waiters && s.waiters[k] != []
    case IdleBlock => s.current == s.idle
    case Sleep(ticks) => s.current != s.idle
    case Tick => true
    case Exit => s.current != s.idle
    case SetPriority(t, p) => t in s.threads
  }

  function Waiting(s: State, k: Sid): seq<Tid> {
    if k in s.waiters then s.waiters[k] else []
  }

  ghost function Step(s: State, e: Event): State
    requires Inv(s) && Enabled(s, e)
  {
    Members(s);
    match e
    case Create(t, p) => Yield(Unblock(s.(threads := s.threads[t := Thread(p, Blocked, false, 0)]), t))
    case YieldNow => Yield(s)
    case Wait(k) => Block(s.(waiters := s.waiters[k := Waiting(s, k) + [s.current]]))
    case Wake(k) =>
      var i := FirstTop(s.threads, s.waiters[k]);
      Unblock(s.(waiters := s.waiters[k := Without(s.waiters[k], i)]), s.waiters[k][i])
    case IdleBlock => Block(s)
    case Sleep(ticks) =>
      if ticks <= 0 then s else Block(FallAsleep(s, s.now + ticks))
    case Tick => WakeUp(s, s.now + 1).(now := s.now + 1)
    case Exit => Schedule(s.(threads := s.threads - {s.current}))
    case SetPriority(t, p) => s.(threads := s.threads[t := s.threads[t].(priority := p)])
  }

  // ---- the invariant ----

  ghost predicate WaitsOn(ws: map<Sid, seq<Tid>>, t: Tid, k: Sid) {
    k in ws && t in ws[k]
  }

  /** Where a thread is, by its status: running, or on the ready list, the sleepers' list or the
      waiting list of just one semaphore.  The idle thread is on no list. */
  ghost predicate Placed(s: State, t: Tid, running: Option<Tid>)
    requires t in s.threads
  {
    var th := s.threads[t];
    && (th.status == Running <==> running == Some(t))
    && (t in s.ready <==> th.status == Ready && t != s.idle)
    && (t in s.sleepers <==> th.sleeping)
    && (th.sleeping ==> th.status == Blocked && t != s.idle)
    && ((exists k :: WaitsOn(s.waiters, t, k)) <==> th.status == Blocked && !th.sleeping && t != s.idle)
    && (forall j, k | WaitsOn(s.waiters, t, j) && WaitsOn(s.waiters, t, k) :: j == k)
  }

  /** On no list, as a thread is while it moves from one to another. */
  ghost predicate Loose(s: State, t: Tid) {
    t !in s.ready && t !in s.sleepers && (forall k :: !WaitsOn(s.waiters, t, k)) && t != s.idle
  }

  /** The sleepers are sorted by wakeup time, all of which are in the future. */
  ghost predicate SleepersOk(ts: Threads, s: seq<Tid>, now: int) {
    && (forall t | t in s :: t in ts && ts[t].wakeup > now)
    && (forall i, j | 0 <= i < j < |s| :: ts[s[i]].wakeup <= ts[s[j]].wakeup)
  }

  /** The invariant while `running` runs and `loose` is between lists. */
  ghost predicate Core(s: State, running: Option<Tid>, loose: Option<Tid>) {
    && s.idle in s.threads && (running.Some? ==> running.value in s.threads)
    && Distinct(s.ready) && Distinct(s.sleepers) && (forall k | k in s.waiters :: Distinct(s.waiters[k]))
    && (forall t | t in s.ready :: t in s.threads)
    && (forall t, k {:trigger WaitsOn(s.waiters, t, k)} | WaitsOn(s.waiters, t, k) :: t in s.threads)
    && SleepersOk(s.threads, s.sleepers, s.now)
    && (forall t | t in s.threads && loose != Some(t) :: Placed(s, t, running))
    && (loose.Some? ==> Loose(s, loose.value) && running != loose)
  }

  /** Every thread other than the idle one is in exactly one place, which its status tells. */
  ghost predicate Inv(s: State) {
    Core(s, Some(s.current), None)
  }

  lemma Members(s: State)
    requires Inv(s)
    ensures s.current in s.threads && s.idle in s.threads
    ensures forall t | t in s.ready :: t in s.threads
    ensures forall t | t in s.sleepers :: t in s.threads
    ensures forall k, t | k in s.waiters && t in s.waiters[k] :: t in s.threads
  {
    forall k, t | k in s.waiters && t in s.waiters[k] ensures t in s.threads {
      assert WaitsOn(s.waiters, t, k);
    }
  }

  // ---- threads moving between lists ----

  /** The running thread is on no list. */
  lemma Park(s: State, c: Tid)
    requires Core(s, Some(c), None) && c != s.idle
    ensures Core(s, None, Some(c))
  {
    assert Placed(s, c, Some(c));
    forall t | t in s.threads && t != c ensures Placed(s, t, None) {
      assert Placed(s, t, Some(c));
    }
  }

  /** The idle thread stops running. */
  lemma ParkIdle(s: State, status: Status)
    requires Core(s, Some(s.idle), None) && status != Running
    ensures Core(s.(threads := SetStatus(s.threads, s.idle, status)), None, None)
  {
    var s' := s.(threads := SetStatus(s.threads, s.idle, status));
    forall t | t in s'.threads ensures Placed(s', t, None) {
      assert Placed(s, t, Some(s.idle));
    }
  }

  lemma JoinReady(s: State, t: Tid, running: Option<Tid>)
    requires Core(s, running, Some(t)) && t in s.threads && !s.threads[t].sleeping
    ensures Core(Unblock(s, t), running, None)
  {
    var s' := Unblock(s, t);
    forall u | u in s'.threads ensures Placed(s', u, running) {
      assert u != t ==> Placed(s, u, running);
      assert u in s'.ready <==> u in s.ready || u == t;
    }
  }

  lemma JoinWaiters(s: State, t: Tid, k: Sid)
    requires Core(s, None, Some(t)) && t in s.threads && !s.threads[t].sleeping
    ensures Core(s.(threads := SetStatus(s.threads, t, Blocked), waiters := s.waiters[k := Waiting(s, k) + [t]]),
            None, None)
  {
    var ws := s.waiters[k := Waiting(s, k) + [t]];
    var s' := s.(threads := SetStatus(s.threads, t, Blocked), waiters := ws);
    forall u, j ensures WaitsOn(ws, u, j) <==> WaitsOn(s.waiters, u, j) || (u == t && j == k) {
    }
    assert t !in Waiting(s, k) by { assert !WaitsOn(s.waiters, t, k); }
    forall u | u in s'.threads ensures Placed(s', u, None) {
      if u == t {
        assert WaitsOn(ws, t, k);
      } else {
        SameWaits(s.waiters, ws, u);
        assert Placed(s, u, None);
      }
    }
  }

  lemma SameWaits(ws: map<Sid, seq<Tid>>, ws': map<Sid, seq<Tid>>, t: Tid)
    requires forall k :: WaitsOn(ws', t, k) <==> WaitsOn(ws, t, k)
    ensures (exists k :: WaitsOn(ws', t, k)) <==> exists k :: WaitsOn(ws, t, k)
  {
  }

  lemma SortedCons(ts: Threads, t: Tid, s: seq<Tid>, now: int)
    requires SleepersOk(ts, s, now) && Distinct(s) && t !in s && t in ts && ts[t].wakeup > now
    requires forall u | u in s :: ts[t].wakeup <= ts[u].wakeup
    ensures SleepersOk(ts, [t] + s, now) && Distinct([t] + s)
  {
    var r := [t] + s;
    forall j | 0 < j < |r| ensures r[j] == s[j - 1] && r[j] in s {
    }
  }

  lemma {:induction false} InsertSorted(ts: Threads, s: seq<Tid>, t: Tid, now: int)
    requires t in ts && ts[t].wakeup > now && SleepersOk(ts, s, now) && Distinct(s) && t !in s
    ensures SleepersOk(ts, InsertSleeper(ts, s, t), now) && Distinct(InsertSleeper(ts, s, t))
  {
    if s == [] {
    } else {
      assert s == [s[0]] + s[1..];
      forall u | u in s ensures ts[s[0]].wakeup <= ts[u].wakeup {
      }
      if ts[t].wakeup < ts[s[0]].wakeup {
        SortedCons(ts, t, s, now);
      } else {
        InsertSorted(ts, s[1..], t, now);
        FirstGone(s);
        hide SleepersOk, Distinct;
        SortedCons(ts, s[0], InsertSleeper(ts, s[1..], t), now);
      }
    }
  }

  lemma JoinSleepers(s: State, wakeup: int)
    requires Core(s, None, Some(s.current)) && s.current in s.threads && wakeup > s.now
    ensures forall u | u in s.sleepers :: u in s.threads
    ensures var s' := FallAsleep(s, wakeup); Core(s'.(threads := SetStatus(s'.threads, s.current, Blocked)), None, None)
  {
    var t := s.current;
    var ts := s.threads[t := s.threads[t].(sleeping := true, wakeup := wakeup)];
    assert SleepersOk(ts, s.sleepers, s.now);
    InsertSorted(ts, s.sleepers, t, s.now);
    var s' := s.(threads := SetStatus(ts, t, Blocked), sleepers := InsertSleeper(ts, s.sleepers, t));
    forall u | u in s'.threads ensures Placed(s', u, None) {
      assert u != t ==> Placed(s, u, None);
    }
  }

  lemma Remove(s: State, t: Tid)
    requires Core(s, None, Some(t))
    ensures Core(s.(threads := s.threads - {t}), None, None)
  {
    var s' := s.(threads := s.threads - {t});
    forall u | u in s'.threads ensures Placed(s', u, None) {
      assert Placed(s, u, None);
    }
  }

  lemma LeaveWaiters(s: State, k: Sid, i: nat, running: Option<Tid>)
    requires Core(s, running, None) && k in s.waiters && i < |s.waiters[k]|
    ensures var w := s.waiters[k][i];
            && w in s.threads && !s.threads[w].sleeping && s.threads[w].status == Blocked
            && Core(s.(waiters := s.waiters[k := Without(s.waiters[k], i)]), running, Some(w))
  {
    var w, ws := s.waiters[k][i], s.waiters[k := Without(s.waiters[k], i)];
    assert WaitsOn(s.waiters, w, k) && Placed(s, w, running);
    WithoutMembers(s.waiters[k], i);
    forall u, j ensures WaitsOn(ws, u, j) <==> WaitsOn(s.waiters, u, j) && u != w {
      assert WaitsOn(s.waiters, w, j) ==> j == k;
    }
    var s' := s.(waiters := ws);
    forall u | u in s'.threads && u != w ensures Placed(s', u, running) {
      assert Placed(s, u, running);
      SameWaits(s.waiters, ws, u);
    }
  }

  lemma LeaveSleepers(s: State, running: Option<Tid>)
    requires Core(s, running, None) && s.sleepers != [] && s.sleepers[0] in s.threads
    ensures s.threads[s.sleepers[0]].status == Blocked && Core(Leaving(s), running, Some(s.sleepers[0]))
  {
    var t := s.sleepers[0];
    assert Placed(s, t, running);
    FirstGone(s.sleepers);
    RestSorted(s.threads, s.sleepers, s.now);
    forall u | u in s.threads && u != t ensures Placed(Leaving(s), u, running) {
      StillPlaced(s, u, running);
    }
    hide SleepersOk, Distinct, Placed;
    assert Loose(Leaving(s), t);
  }

  lemma StillPlaced(s: State, u: Tid, running: Option<Tid>)
    requires s.sleepers != [] && s.sleepers[0] in s.threads && Distinct(s.sleepers) && u in s.threads &&
             u != s.sleepers[0]
    requires Placed(s, u, running)
    ensures Placed(Leaving(s), u, running)
  {
    FirstGone(s.sleepers);
    hide Distinct;
  }

  lemma RestSorted(ts: Threads, s: seq<Tid>, now: int)
    requires s != [] && SleepersOk(ts, s, now) && Distinct(s) && s[0] in ts
    ensures SleepersOk(ts[s[0] := ts[s[0]].(sleeping := false, wakeup := 0)], s[1..], now)
  {
    FirstGone(s);
  }

  lemma FirstGone(s: seq<Tid>)
    requires s != [] && Distinct(s)
    ensures Distinct(s[1..])
    ensures s[0] !in s[1..] && forall t :: t in s[1..] <==> t in s && t != s[0]
  {
    assert s == [s[0]] + s[1..];
  }

  /** A dispatch from a state in which nobody runs. */
  lemma ScheduleInv(s: State)
    requires Core(s, None, None)
    ensures Inv(Schedule(s))
  {
    hide Placed, FirstTop;
    IdleNotReady(s);
    var s' := Schedule(s);
    if s.ready != [] {
      WithoutMembers(s.ready, FirstTop(s.threads, s.ready));
    }
    forall t | t in s'.threads ensures Placed(s', t, Some(s'.current)) {
      assert Placed(s, t, None);
      SchedulePlaced(s, t);
    }
    hide Distinct;
  }

  lemma IdleNotReady(s: State)
    requires Core(s, None, None)
    ensures s.idle !in s.ready
  {
    assert Placed(s, s.idle, None);
  }

  lemma SchedulePlaced(s: State, t: Tid)
    requires s.idle in s.threads && (forall u | u in s.ready :: u in s.threads) && Distinct(s.ready)
    requires t in s.threads && Placed(s, t, None) && (s.ready != [] ==> s.idle !in s.ready)
    ensures Placed(Schedule(s), t, Some(Schedule(s).current))
  {
    if s.ready != [] {
      WithoutMembers(s.ready, FirstTop(s.threads, s.ready));
    }
    hide FirstTop, Distinct;
  }

  // ---- every step keeps the invariant ----

  lemma YieldInv(s: State)
    requires Inv(s)
    ensures s.current in s.threads && s.idle in s.threads && (forall t | t in s.ready :: t in s.threads) &&
            Inv(Yield(s))
  {
    Members(s);
    if s.current == s.idle {
      ParkIdle(s, Ready);
      ScheduleInv(s.(threads := SetStatus(s.threads, s.idle, Ready)));
    } else {
      assert Placed(s, s.current, Some(s.current));
      Park(s, s.current);
      JoinReady(s, s.current, None);
      ScheduleInv(Unblock(s, s.current));
    }
  }

  lemma CreateInv(s: State, t: Tid, p: nat)
    requires Inv(s) && t !in s.threads
    ensures Inv(Unblock(s.(threads := s.threads[t := Thread(p, Blocked, false, 0)]), t))
  {
    Members(s);
    var s' := s.(threads := s.threads[t := Thread(p, Blocked, false, 0)]);
    forall u | u in s.threads ensures Placed(s', u, Some(s.current)) {
      assert Placed(s, u, Some(s.current));
    }
    forall k ensures !WaitsOn(s.waiters, t, k) {
    }
    JoinReady(s', t, Some(s.current));
  }

  lemma WaitInv(s: State, k: Sid)
    requires Inv(s) && s.current != s.idle
    ensures Inv(Step(s, Wait(k)))
  {
    Members(s);
    assert Placed(s, s.current, Some(s.current));
    Park(s, s.current);
    JoinWaiters(s, s.current, k);
    ScheduleInv(s.(threads := SetStatus(s.threads, s.current, Blocked),
        waiters := s.waiters[k := Waiting(s, k) + [s.current]]));
  }

  lemma SleepInv(s: State, wakeup: int)
    requires Inv(s) && s.current != s.idle && wakeup > s.now
    ensures s.current in s.threads && s.idle in s.threads && forall t | t in s.sleepers + s.ready :: t in s.threads
    ensures Inv(Block(FallAsleep(s, wakeup)))
  {
    hide Placed, FirstTop, Core, Loose, SleepersOk, InsertSleeper;
    Members(s);
    Park(s, s.current);
    JoinSleepers(s, wakeup);
    var s' := FallAsleep(s, wakeup);
    ScheduleInv(s'.(threads := SetStatus(s'.threads, s.current, Blocked)));
  }

  lemma WakeInv(s: State, k: Sid)
    requires Inv(s) && Enabled(s, Wake(k))
    ensures Inv(Step(s, Wake(k)))
  {
    Members(s);
    var i := FirstTop(s.threads, s.waiters[k]);
    LeaveWaiters(s, k, i, Some(s.current));
    JoinReady(s.(waiters := s.waiters[k := Without(s.waiters[k], i)]), s.waiters[k][i], Some(s.current));
  }

  lemma ExitSleepCore(s: State, running: Option<Tid>)
    requires Core(s, running, None) && s.sleepers != []
    ensures s.sleepers[0] in s.threads && Core(ExitSleep(s), running, None)
  {
    assert s.sleepers[0] in s.sleepers;
    LeaveSleepers(s, running);
    JoinReady(Leaving(s), s.sleepers[0], running);
  }

  lemma {:induction false} WakeUpCore(s: State, time: int, running: Option<Tid>)
    requires Core(s, running, None) && time >= s.now
    ensures Core(WakeUp(s, time).(now := time), running, None) && WakeUp(s, time).current == s.current
    decreases |s.sleepers|
  {
    if s.sleepers == [] || s.threads[s.sleepers[0]].wakeup > time {
      var s' := s.(now := time);
      forall t | t in s.threads ensures Placed(s', t, running) {
        assert Placed(s, t, running);
      }
    } else {
      ExitSleepCore(s, running);
      WakeUpCore(ExitSleep(s), time, running);
    }
  }

  lemma ExitInv(s: State)
    requires Inv(s) && s.current != s.idle
    ensures Inv(Step(s, Exit))
  {
    hide Placed, Loose, SleepersOk, FirstTop;
    Members(s);
    Park(s, s.current);
    Remove(s, s.current);
    ScheduleInv(s.(threads := s.threads - {s.current}));
  }

  lemma SetPriorityInv(s: State, t: Tid, p: nat)
    requires Inv(s) && t in s.threads
    ensures Inv(Step(s, SetPriority(t, p)))
  {
    var s' := Step(s, SetPriority(t, p));
    forall u | u in s'.threads ensures Placed(s', u, Some(s.current)) {
      assert Placed(s, u, Some(s.current));
    }
  }

  lemma IdleBlockInv(s: State)
    requires Inv(s) && s.current == s.idle
    ensures Inv(Step(s, IdleBlock))
  {
    hide Placed, Loose, SleepersOk, FirstTop;
    Members(s);
    ParkIdle(s, Blocked);
    ScheduleInv(s.(threads := SetStatus(s.threads, s.idle, Blocked)));
  }

  lemma TickInv(s: State)
    requires Inv(s)
    ensures Inv(Step(s, Tick))
  {
    hide Placed, Loose, SleepersOk, WakeUp;
    Members(s);
    WakeUpCore(s, s.now + 1, Some(s.current));
  }

  /** Every step of every thread, interrupt and clock tick keeps each thread in the one place its
      status tells, and each list free of duplicates. */
  lemma StepInv(s: State, e: Event)
    requires Inv(s) && Enabled(s, e)
    ensures Inv(Step(s, e))
  {
    hide Core, FirstTop, WakeUp, InsertSleeper, Schedule, Unblock, FallAsleep;
    Members(s);
    match e
    case Create(t, p) =>
      CreateInv(s, t, p);
      YieldInv(Unblock(s.(threads := s.threads[t := Thread(p, Blocked, false, 0)]), t));
    case YieldNow => YieldInv(s);
    case Wait(k) => WaitInv(s, k);
    case Wake(k) => WakeInv(s, k);
    case IdleBlock => IdleBlockInv(s);
    case Sleep(ticks) => if ticks > 0 { SleepInv(s, s.now + ticks); }
    case Tick => TickInv(s);
    case Exit => ExitInv(s);
    case SetPriority(t, p) => SetPriorityInv(s, t, p);
  }

  // ---- runs ----

  const PRI_DEFAULT: nat := 31
  const PRI_MIN: nat := 0

  /** Once the idle thread, number 1, has blocked for the first time: main runs. */
  function Boot(): State {
    State(map[0 := Thread(PRI_DEFAULT, Running, false, 0), 1 := Thread(PRI_MIN, Blocked, false, 0)], 0, 1, [], [],
        map[], 0)
  }

  ghost function Run(s: State, es: seq<Event>): (r: Option<State>)
    requires Inv(s)
    ensures r.Some? ==> Inv(r.value)
    decreases |es|
  {
    if es == [] then Some(s)
    else if !Enabled(s, es[0]) then None
    else
      StepInv(s, es[0]);
      Run(Step(s, es[0]), es[1..])
  }

  ghost predicate Waits(s: State, t: Tid) {
    exists k :: WaitsOn(s.waiters, t, k)
  }

  function Count(b: bool): nat {
    if b then 1 else 0
  }

  lemma BootInv()
    ensures Inv(Boot())
  {
    var s := Boot();
    forall t | t in s.threads ensures Placed(s, t, Some(s.current)) {
      assert forall k :: !WaitsOn(s.waiters, t, k);
    }
  }

  /** A state that a run can reach. */
  ghost function Reached(es: seq<Event>): (r: Option<State>)
    ensures r.Some? ==> Inv(r.value)
  {
    BootInv();
    Run(Boot(), es)
  }

  /** The scheduler partition: in every reachable state a live thread other than the idle one is
      in exactly one of the four places, and on each list at most once. */
  lemma OnePlace(es: seq<Event>, t: Tid)
    requires Reached(es).Some? && t in Reached(es).value.threads && t != Reached(es).value.idle
    ensures var s := Reached(es).value;
            && Count(t == s.current) + Count(t in s.ready) + Count(t in s.sleepers) + Count(Waits(s, t)) == 1
            && (s.threads[t].status == Running <==> t == s.current)
            && (s.threads[t].status == Ready <==> t in s.ready)
            && (s.threads[t].status == Blocked <==> t in s.sleepers || Waits(s, t))
            && Distinct(s.ready) && Distinct(s.sleepers)
  {
    hide Reached;
    var s := Reached(es).value;
    assert Placed(s, t, Some(s.current));
  }

  // ---- time ----

  /** How many sleepers are due. */
  function Due(ts: Threads, s: seq<Tid>, time: int): (n: nat)
    requires forall t | t in s :: t in ts
    ensures n <= |s| && (n < |s| ==> ts[s[n]].wakeup > time) && forall i :: 0 <= i < n ==> ts[s[i]].wakeup <= time
  {
    if s == [] || ts[s[0]].wakeup > time then 0 else Due(ts, s[1..], time) + 1
  }

  lemma {:induction false} SameDue(ts: Threads, ts': Threads, s: seq<Tid>, time: int)
    requires forall t | t in s :: t in ts && t in ts' && ts[t].wakeup == ts'[t].wakeup
    ensures Due(ts, s, time) == Due(ts', s, time)
  {
    if s != [] {
      SameDue(ts, ts', s[1..], time);
    }
  }

  lemma OneMore(ready: seq<Tid>, s: seq<Tid>, m: nat)
    requires s != [] && m < |s|
    ensures ready + [s[0]] + s[1..][..m] == ready + s[..m + 1] && s[1..][m..] == s[m + 1..]
    ensures forall t :: t in s[..m + 1] <==> t == s[0] || t in s[1..][..m]
  {
    assert s[..m + 1] == [s[0]] + s[1..][..m];
  }

  lemma {:induction false} WakeUpLists(s: State, time: int)
    requires (forall t | t in s.sleepers :: t in s.threads) && Distinct(s.sleepers)
    ensures var n, s' := Due(s.threads, s.sleepers, time), WakeUp(s, time);
            s' == s.(sleepers := s.sleepers[n..], ready := s.ready + s.sleepers[..n], threads := s'.threads)
    decreases |s.sleepers|
  {
    if s.sleepers != [] && s.threads[s.sleepers[0]].wakeup <= time {
      FirstGone(s.sleepers);
      SameDue(s.threads, ExitSleep(s).threads, s.sleepers[1..], time);
      WakeUpLists(ExitSleep(s), time);
      OneMore(s.ready, s.sleepers, Due(s.threads, s.sleepers[1..], time));
    }
  }

  lemma {:induction false} WakeUpThread(s: State, time: int, t: Tid)
    requires (forall t | t in s.sleepers :: t in s.threads) && Distinct(s.sleepers)
    ensures var n := Due(s.threads, s.sleepers, time);
            && (t in WakeUp(s, time).threads <==> t in s.threads)
            && (t in s.threads && t !in s.sleepers[..n] ==> WakeUp(s, time).threads[t] == s.threads[t])
    decreases |s.sleepers|
  {
    if s.sleepers != [] && s.threads[s.sleepers[0]].wakeup <= time {
      FirstGone(s.sleepers);
      SameDue(s.threads, ExitSleep(s).threads, s.sleepers[1..], time);
      WakeUpThread(ExitSleep(s), time, t);
      OneMore(s.ready, s.sleepers, Due(s.threads, s.sleepers[1..], time));
    }
  }

  /** After each tick the sleepers are exactly those whose wakeup time is still in the future, in
      order; the others, whose time is this very tick, were made ready in that order, and nothing
      else changed. */
  lemma TickWakes(s: State) returns (n: nat)
    requires Inv(s)
    ensures n <= |s.sleepers| && forall t | t in s.sleepers :: t in s.threads
    ensures var s' := Step(s, Tick);
            && s'.sleepers == s.sleepers[n..] && s'.ready == s.ready + s.sleepers[..n]
            && s'.current == s.current && s'.waiters == s.waiters && s'.threads.Keys == s.threads.Keys
            && s'.now == s.now + 1
    ensures forall i :: 0 <= i < |s.sleepers| ==>
            if i < n then s.threads[s.sleepers[i]].wakeup == s.now + 1 else s.threads[s.sleepers[i]].wakeup > s.now + 1
    ensures forall t | t in s.threads && t !in s.sleepers[..n] :: Step(s, Tick).threads[t] == s.threads[t]
  {
    Members(s);
    n := Due(s.threads, s.sleepers, s.now + 1);
    TickLists(s);
    assert SleepersOk(s.threads, s.sleepers, s.now);
    hide Inv, Step, Due, SleepersOk;
    forall i | 0 <= i < |s.sleepers|
      ensures if i < n then s.threads[s.sleepers[i]].wakeup == s.now + 1
              else s.threads[s.sleepers[i]].wakeup > s.now + 1 {
      DueTime(s.threads, s.sleepers, s.now, i);
    }
    forall t | t in s.threads && t !in s.sleepers[..n] ensures Step(s, Tick).threads[t] == s.threads[t] {
      TickThread(s, t);
    }
  }

  lemma TickIs(s: State)
    requires Inv(s)
    ensures (forall t | t in s.sleepers :: t in s.threads) && Distinct(s.sleepers)
    ensures Enabled(s, Tick) && Step(s, Tick) == WakeUp(s, s.now + 1).(now := s.now + 1)
  {
    hide Placed, WakeUp, FirstTop, Schedule, InsertSleeper, SleepersOk, Unblock;
    Members(s);
    DistinctSleepers(s);
    hide Inv;
  }

  lemma DistinctSleepers(s: State)
    requires Inv(s)
    ensures Distinct(s.sleepers)
  {
    hide Placed;
  }

  lemma TickLists(s: State)
    requires Inv(s)
    ensures forall t | t in s.sleepers :: t in s.threads
    ensures var n, s' := Due(s.threads, s.sleepers, s.now + 1), Step(s, Tick);
            && s'.threads.Keys == s.threads.Keys
            && s' == s.(sleepers := s.sleepers[n..], ready := s.ready + s.sleepers[..n], now := s.now + 1,
               threads := s'.threads)
  {
    hide *;
    TickIs(s);
    WakeUpLists(s, s.now + 1);
    forall t ensures t in Step(s, Tick).threads <==> t in s.threads {
      WakeUpThread(s, s.now + 1, t);
    }
  }

  lemma TickThread(s: State, t: Tid)
    requires Inv(s) && t in s.threads
    ensures forall t | t in s.sleepers :: t in s.threads
    ensures t !in s.sleepers[..Due(s.threads, s.sleepers, s.now + 1)] ==>
            t in Step(s, Tick).threads && Step(s, Tick).threads[t] == s.threads[t]
  {
    hide *;
    TickIs(s);
    WakeUpThread(s, s.now + 1, t);
  }

  lemma DueTime(ts: Threads, s: seq<Tid>, now: int, i: nat)
    requires SleepersOk(ts, s, now) && i < |s|
    ensures i < Due(ts, s, now + 1) <==> ts[s[i]].wakeup == now + 1
    ensures ts[s[i]].wakeup > now
  {
    assert s[i] in s;
  }

  /** A sleeper stays asleep until the tick of its wakeup time, which makes it ready. */
  lemma SleepStep(s: State, e: Event, t: Tid)
    requires Inv(s) && Enabled(s, e) && t in s.sleepers
    ensures t in s.threads && s.now <= Step(s, e).now
    ensures var s', w := Step(s, e), s.threads[t].wakeup;
            if s'.now < w then t in s'.sleepers && t in s'.threads && s'.threads[t].wakeup == w
            else e == Tick && s'.now == w && t in s'.ready
  {
    Members(s);
    assert Placed(s, t, Some(s.current)) && Placed(s, s.current, Some(s.current));
    if e == Tick {
      SleepTick(s, t);
    } else {
      assert SleepersOk(s.threads, s.sleepers, s.now);
      hide Core, Inv, Placed, WakeUp, FirstTop, Schedule;
    }
  }

  lemma SleepTick(s: State, t: Tid)
    requires Inv(s) && t in s.sleepers
    ensures t in s.threads
    ensures var s', w := Step(s, Tick), s.threads[t].wakeup;
            && s'.now == s.now + 1
            && if s'.now < w then t in s'.sleepers && t in s'.threads && s'.threads[t].wakeup == w
               else s'.now == w && t in s'.ready
  {
    assert Distinct(s.sleepers);
    hide Inv, Core, Step;
    var n := TickWakes(s);
    var i :| 0 <= i < |s.sleepers| && s.sleepers[i] == t;
    FirstsApart(s.sleepers, n, i);
  }

  lemma FirstsApart(s: seq<Tid>, n: nat, i: nat)
    requires Distinct(s) && i < |s| && n <= |s|
    ensures if i < n then s[i] in s[..n] else s[i] !in s[..n] && s[i] in s[n..]
  {
    if i < n {
      assert s[..n][i] == s[i];
    } else {
      assert s[n..][i - n] == s[i];
    }
  }

  lemma {:induction false} SleepsUntil(s: State, es: seq<Event>, t: Tid)
    requires Inv(s) && t in s.sleepers && Run(s, es).Some?
    ensures t in s.threads && s.now <= Run(s, es).value.now
    ensures var s', w := Run(s, es).value, s.threads[t].wakeup;
            s'.now < w ==> t in s'.sleepers && t in s'.threads && s'.threads[t].wakeup == w
    decreases |es|
  {
    Members(s);
    if es != [] {
      StepInv(s, es[0]);
      SleepStep(s, es[0], t);
      hide Inv, Step;
      LaterNow(Step(s, es[0]), es[1..]);
      if Step(s, es[0]).now < s.threads[t].wakeup {
        SleepsUntil(Step(s, es[0]), es[1..], t);
      }
    }
  }

  lemma {:induction false} LaterNow(s: State, es: seq<Event>)
    requires Inv(s) && Run(s, es).Some?
    ensures s.now <= Run(s, es).value.now
    decreases |es|
  {
    if es != [] {
      StepInv(s, es[0]);
      NowStep(s, es[0]);
      hide Inv, Step;
      LaterNow(Step(s, es[0]), es[1..]);
    }
  }

  lemma NowStep(s: State, e: Event)
    requires Inv(s) && Enabled(s, e)
    ensures s.now <= Step(s, e).now
  {
    hide Placed, FirstTop, WakeUp;
    Members(s);
  }

  // ---- turns ----

  /** The threads of priority p, in their order. */
  function Having(ts: Threads, s: seq<Tid>, p: nat): seq<Tid>
    requires forall t | t in s :: t in ts
  {
    if s == [] then []
    else Having(ts, s[..|s| - 1], p) + if ts[s[|s| - 1]].priority == p then [s[|s| - 1]] else []
  }

  lemma {:induction false} HavingConcat(ts: Threads, a: seq<Tid>, b: seq<Tid>, p: nat)
    requires forall t | t in a + b :: t in ts
    ensures (forall t | t in a :: t in ts) && (forall t | t in b :: t in ts)
    ensures Having(ts, a + b, p) == Having(ts, a, p) + Having(ts, b, p)
  {
    forall t | t in a || t in b ensures t in ts {
      assert t in a + b;
    }
    if b == [] {
      assert a + b == a;
    } else {
      assert (a + b)[..|a + b| - 1] == a + b[..|b| - 1];
      HavingConcat(ts, a, b[..|b| - 1], p);
    }
  }

  lemma {:induction false} HavingNone(ts: Threads, s: seq<Tid>, p: nat)
    requires (forall t | t in s :: t in ts) && forall i :: 0 <= i < |s| ==> ts[s[i]].priority < p
    ensures Having(ts, s, p) == []
  {
    if s != [] {
      HavingNone(ts, s[..|s| - 1], p);
    }
  }

  lemma {:induction false} HavingMembers(ts: Threads, s: seq<Tid>, p: nat, t: Tid)
    requires forall t | t in s :: t in ts
    ensures t in Having(ts, s, p) <==> t in s && t in ts && ts[t].priority == p
    ensures Distinct(s) ==> Distinct(Having(ts, s, p))
    decreases |s|
  {
    if s != [] {
      var h, l := s[..|s| - 1], s[|s| - 1];
      assert s == h + [l];
      HavingMembers(ts, h, p, t);
      HavingMembers(ts, h, p, l);
    }
  }

  lemma {:induction false} HavingSame(ts: Threads, ts': Threads, s: seq<Tid>, p: nat)
    requires forall t | t in s :: t in ts && t in ts' && ts[t].priority == ts'[t].priority
    ensures Having(ts, s, p) == Having(ts', s, p)
  {
    if s != [] {
      HavingSame(ts, ts', s[..|s| - 1], p);
    }
  }

  /** Those who take part in the next dispatch when the running thread yields. */
  function Line(s: State): seq<Tid> {
    s.ready + [s.current]
  }

  function Top(s: State): nat
    requires forall t | t in Line(s) :: t in s.threads
  {
    s.threads[Line(s)[FirstTop(s.threads, Line(s))]].priority
  }

  /** The threads of the greatest priority, in the order in which they were queued. */
  function TopQueue(s: State): seq<Tid>
    requires forall t | t in Line(s) :: t in s.threads
  {
    Having(s.threads, Line(s), Top(s))
  }

  lemma LineExists(s: State)
    requires Inv(s)
    ensures forall t | t in Line(s) :: t in s.threads
    ensures s.current != s.idle ==> Distinct(Line(s))
  {
    Members(s);
    if s.current != s.idle {
      assert Placed(s, s.current, Some(s.current));
    }
  }

  lemma OnlyFirstTop(ts: Threads, ts': Threads, s: seq<Tid>)
    requires s != [] && forall t | t in s :: t in ts && t in ts' && ts[t].priority == ts'[t].priority
    ensures FirstTop(ts, s) == FirstTop(ts', s)
  {
  }

  lemma HavingFirst(ts: Threads, s: seq<Tid>)
    requires s != [] && forall t | t in s :: t in ts
    ensures forall t | t in Without(s, FirstTop(ts, s)) :: t in ts
    ensures var k := FirstTop(ts, s);
            var p := ts[s[k]].priority;
            Having(ts, s, p) == [s[k]] + Having(ts, Without(s, k), p)
  {
    var k := FirstTop(ts, s);
    var p := ts[s[k]].priority;
    assert forall j :: 0 <= j < k ==> ts[s[j]].priority < p;
    hide FirstTop, Having, Without;
    HavingSplit(ts, s, k, p);
    HavingNone(ts, s[..k], p);
    assert [] + [s[k]] == [s[k]];
  }

  lemma HavingSplit(ts: Threads, s: seq<Tid>, k: nat, p: nat)
    requires k < |s| && (forall t | t in s :: t in ts) && ts[s[k]].priority == p
    ensures (forall t | t in s[..k] :: t in ts) && (forall t | t in s[k + 1..] :: t in ts) &&
            forall t | t in Without(s, k) :: t in ts
    ensures Having(ts, s, p) == Having(ts, s[..k], p) + [s[k]] + Having(ts, s[k + 1..], p)
    ensures Having(ts, Without(s, k), p) == Having(ts, s[..k], p) + Having(ts, s[k + 1..], p)
  {
    hide Having;
    var a, b, c := s[..k], [s[k]], s[k + 1..];
    assert s == a + (b + c);
    HavingConcat(ts, a, b + c, p);
    HavingConcat(ts, b, c, p);
    HavingConcat(ts, a, c, p);
    HavingOne(ts, s[k], p);
  }

  /** thread_yield runs the first of the threads of the greatest priority and puts it behind its
      equals: who yields goes to the end of the line. */
  lemma YieldRotates(s: State)
    requires Inv(s) && s.current != s.idle
    ensures Inv(Step(s, YieldNow)) && forall t | t in Line(s) :: t in s.threads
    ensures forall t | t in Line(Step(s, YieldNow)) :: t in Step(s, YieldNow).threads
    ensures var s', q := Step(s, YieldNow), TopQueue(s);
            && q != [] && s'.current == q[0] && s'.current != s'.idle && s'.idle == s.idle
            && TopQueue(s') == q[1..] + q[..1]
  {
    hide Inv, FirstTop, Having, Line, Step, Top, Without;
    LineExists(s);
    StepInv(s, YieldNow);
    LineNotIdle(s);
    YieldIs(s);
    var s', line := Step(s, YieldNow), Line(s);
    LineExists(s');
    var k := FirstTop(s.threads, line);
    var p := Top(s);
    HavingFirst(s.threads, line);
    TopAgain(s, s', line, k);
    TopRank(s);
    HavingConcat(s.threads, Without(line, k), [line[k]], p);
    HavingOne(s.threads, line[k], p);
    HavingSame(s.threads, s'.threads, Line(s'), p);
  }

  lemma TopRank(s: State)
    requires forall t | t in Line(s) :: t in s.threads
    ensures Line(s) != [] && Top(s) == s.threads[Line(s)[FirstTop(s.threads, Line(s))]].priority
  {
  }

  /** thread_yield dispatches the first of the line, and puts it at the end of the next one. */
  lemma YieldIs(s: State)
    requires Inv(s) && s.current != s.idle
    ensures Line(s) != [] && (forall t | t in Line(s) :: t in s.threads)
    ensures var s', k := Step(s, YieldNow), FirstTop(s.threads, Line(s));
            && s'.current == Line(s)[k] && Line(s') == Without(Line(s), k) + [Line(s)[k]] && s'.idle == s.idle
            && forall t | t in s.threads :: t in s'.threads && s'.threads[t].priority == s.threads[t].priority
  {
    LineExists(s);
    Members(s);
    OnlyFirstTop(s.threads, SetStatus(s.threads, s.current, Ready), Line(s));
    hide Inv, FirstTop, Without;
  }

  lemma HavingOne(ts: Threads, t: Tid, p: nat)
    requires t in ts && ts[t].priority == p
    ensures Having(ts, [t], p) == [t]
  {
    assert [t][..0] == [];
  }

  lemma LineNotIdle(s: State)
    requires Inv(s) && s.current != s.idle
    ensures s.idle !in Line(s)
  {
    assert Placed(s, s.idle, Some(s.current));
  }

  lemma Requeued(line: seq<Tid>, k: nat)
    requires k < |line|
    ensures forall t | t in Without(line, k) + [line[k]] :: t in line
    ensures line[k] in Without(line, k) + [line[k]]
  {
  }

  lemma TopIs(s: State, t: Tid)
    requires (forall u | u in Line(s) :: u in s.threads) && t in Line(s)
    requires forall u | u in Line(s) :: s.threads[u].priority <= s.threads[t].priority
    ensures Top(s) == s.threads[t].priority
  {
    var j :| 0 <= j < |Line(s)| && Line(s)[j] == t;
    assert Line(s)[FirstTop(s.threads, Line(s))] in Line(s);
  }

  lemma TopAgain(s: State, s': State, line: seq<Tid>, k: nat)
    requires line != [] && (forall t | t in line :: t in s.threads) && k == FirstTop(s.threads, line)
    requires Line(s') == Without(line, k) + [line[k]]
    requires forall t | t in line :: t in s'.threads && s'.threads[t].priority == s.threads[t].priority
    ensures forall t | t in Line(s') ::
                  t in s'.threads && t in s.threads && s'.threads[t].priority == s.threads[t].priority
    ensures Top(s') == s.threads[line[k]].priority
  {
    Requeued(line, k);
    assert forall j :: 0 <= j < |line| ==> s.threads[line[j]].priority <= s.threads[line[k]].priority;
    hide Line, Top, Without, FirstTop;
    TopIs(s', line[k]);
  }

  /** n times thread_yield */
  ghost function Yields(s: State, n: nat): (r: State)
    requires Inv(s)
    ensures Inv(r)
  {
    if n == 0 then s
    else
      var r := Yields(s, n - 1);
      YieldInv(r);
      Step(r, YieldNow)
  }

  /** q with its first n members put behind the others, one by one, round and round */
  function Rotated(q: seq<Tid>, n: nat): seq<Tid>
    requires q != []
  {
    q[n % |q|..] + q[..n % |q|]
  }

  lemma YieldsRotate(s: State, n: nat)
    requires Inv(s) && s.current != s.idle && (forall t | t in Line(s) :: t in s.threads) && TopQueue(s) != []
    ensures var r := Yields(s, n);
            && r.current != r.idle && (forall t | t in Line(r) :: t in r.threads)
            && TopQueue(r) == Rotated(TopQueue(s), n)
    decreases n
  {
    hide Inv, TopQueue, Line, Step, Rotated;
    if n == 0 {
      RotatedNone(TopQueue(s));
    } else {
      YieldsRotate(s, n - 1);
      YieldRotates(Yields(s, n - 1));
      Rotate(TopQueue(s), n - 1);
    }
  }

  lemma RotatedNone(q: seq<Tid>)
    requires q != []
    ensures Rotated(q, 0) == q
  {
  }

  lemma TopQueueIs(s: State)
    requires Inv(s) && s.current != s.idle
    ensures (forall t | t in Line(s) :: t in s.threads) && Distinct(TopQueue(s))
    ensures forall t :: t in TopQueue(s) <==> t in Line(s) && s.threads[t].priority == Top(s)
  {
    LineExists(s);
    var line, p := Line(s), Top(s);
    hide Inv, Line, Top, Having, Distinct;
    forall t ensures t in TopQueue(s) <==> t in line && s.threads[t].priority == p {
      HavingMembers(s.threads, line, p, t);
    }
    HavingMembers(s.threads, line, p, s.current);
  }

  /** Threads that only yield take turns: with k threads at the greatest priority, dispatch n goes
      to number n % k of them, so that each runs once in every k dispatches. */
  lemma RoundRobin(s: State, n: nat)
    requires Inv(s) && s.current != s.idle
    ensures (forall t | t in Line(s) :: t in s.threads) && TopQueue(s) != [] && Distinct(TopQueue(s))
    ensures forall t :: t in TopQueue(s) <==> t in Line(s) && s.threads[t].priority == Top(s)
    ensures Yields(s, n + 1).current == TopQueue(s)[n % |TopQueue(s)|]
  {
    hide Inv, Line, Step, TopQueue, Distinct;
    TopQueueIs(s);
    YieldRotates(s);
    YieldsRotate(s, n);
    YieldRotates(Yields(s, n));
    assert Yields(s, n + 1) == Step(Yields(s, n), YieldNow);
  }

  lemma Rotate(q: seq<Tid>, n: nat)
    requires q != []
    ensures var r := Rotated(q, n); r != [] && r[1..] + r[..1] == Rotated(q, n + 1)
  {
    var i, j := n % |q|, (n + 1) % |q|;
    ModStep(n, |q|);
    var r := q[i..] + q[..i];
    if i + 1 == |q| {
      assert r[1..] == q[..i] && r[..1] == [q[i]];
    } else {
      assert r[1..] == q[i + 1..] + q[..i] && r[..1] == [q[i]];
    }
  }

  lemma ModStep(n: nat, k: nat)
    requires k > 0
    ensures (n + 1) % k == if n % k + 1 == k then 0 else n % k + 1
  {
    if n % k + 1 == k {
      ModUnique(n + 1, k, n / k + 1, 0);
    } else {
      ModUnique(n + 1, k, n / k, n % k + 1);
    }
  }

  // ---- the operations, as they change the fields ----

  class Cpu {
    var threads: Threads
    var current: Tid
    var idle: Tid
    var ready: seq<Tid>
    var sleepers: seq<Tid>
    var waiters: map<Sid, seq<Tid>>
    var now: int

    constructor ()
      ensures Current() == Boot()
    {
      threads := Boot().threads;
      current, idle, ready, sleepers, waiters, now := 0, 1, [], [], map[], 0;
    }

    ghost function Current(): State
      reads this
    {
      State(threads, current, idle, ready, sleepers, waiters, now)
    }

    /** list_max by priority */
    method Highest(list: seq<Tid>) returns (k: nat)
      requires list != [] && forall t | t in list :: t in threads
      ensures k == FirstTop(threads, list)
    {
      k := FindGreatest(Rank(threads), list);
    }

    /** schedule, with next_thread_to_run and thread_schedule_tail */
    method Dispatch()
      requires idle in threads && forall t | t in ready :: t in threads
      modifies this
      ensures Current() == Schedule(old(Current()))
    {
      var next := idle;
      if ready != [] {
        var k := Highest(ready);
        next := ready[k];
        ready := ready[..k] + ready[k + 1..];
      }
      current := next;
      threads := threads[current := threads[current].(status := Running)];
    }

    method ThreadUnblock(t: Tid)
      requires t in threads
      modifies this`threads, this`ready
      ensures Current() == Unblock(old(Current()), t)
    {
      ready := ready + [t];
      threads := threads[t := threads[t].(status := Ready)];
    }

    method ThreadBlock()
      requires current in threads && idle in threads && forall t | t in ready :: t in threads
      modifies this
      ensures Current() == Block(old(Current()))
    {
      threads := threads[current := threads[current].(status := Blocked)];
      Dispatch();
    }

    method ThreadYield()
      requires Inv(Current())
      modifies this
      ensures Current() == Step(old(Current()), YieldNow) && Inv(Current())
    {
      hide Core, FirstTop;
      Members(Current());
      StepInv(Current(), YieldNow);
      if current != idle {
        ready := ready + [current];
      }
      threads := threads[current := threads[current].(status := Ready)];
      Dispatch();
    }

    /** thread_create, for a thread number that is free */
    method ThreadCreate(t: Tid, priority: nat)
      requires Inv(Current()) && Enabled(Current(), Create(t, priority))
      modifies this
      ensures Current() == Step(old(Current()), Create(t, priority)) && Inv(Current())
    {
      hide Core, FirstTop;
      StepInv(Current(), Create(t, priority));
      CreateInv(Current(), t, priority);
      threads := threads[t := Thread(priority, Blocked, false, 0)];
      ThreadUnblock(t);
      ThreadYield();
    }

    /** The part of sema_down that waits, for a semaphore whose value is 0. */
    method SemaWait(k: Sid)
      requires Inv(Current()) && Enabled(Current(), Wait(k))
      modifies this
      ensures Current() == Step(old(Current()), Wait(k)) && Inv(Current())
    {
      hide Core, FirstTop;
      Members(Current());
      StepInv(Current(), Wait(k));
      if k !in waiters {
        waiters := waiters[k := []];
      }
      waiters := waiters[k := waiters[k] + [current]];
      assert waiters == old(waiters)[k := Waiting(old(Current()), k) + [current]];
      ThreadBlock();
    }

    /** The part of sema_up that wakes a thread, for a semaphore that has waiters. */
    method SemaWake(k: Sid)
      requires Inv(Current()) && Enabled(Current(), Wake(k))
      modifies this
      ensures Current() == Step(old(Current()), Wake(k)) && Inv(Current())
    {
      hide Core, FirstTop;
      Members(Current());
      StepInv(Current(), Wake(k));
      var i := Highest(waiters[k]);
      var t := waiters[k][i];
      waiters := waiters[k := waiters[k][..i] + waiters[k][i + 1..]];
      ThreadUnblock(t);
    }

    /** list_insert_ordered by thread_wakeup_time_less */
    method InsertOrdered(t: Tid)
      requires t in threads && forall u | u in sleepers :: u in threads
      modifies this`sleepers
      ensures sleepers == InsertSleeper(threads, old(sleepers), t)
    {
      var i := 0;
      while i < |sleepers| && !(threads[t].wakeup < threads[sleepers[i]].wakeup)
        invariant i <= |sleepers|
        invariant forall j :: 0 <= j < i ==> threads[sleepers[j]].wakeup <= threads[t].wakeup
      {
        i := i + 1;
      }
      InsertAt(threads, sleepers, t, i);
      hide InsertSleeper;
      sleepers := sleepers[..i] + [t] + sleepers[i..];
    }

    method ThreadEnterSleep(ticks: int) returns (slept: bool)
      requires Inv(Current()) && Enabled(Current(), Sleep(ticks))
      modifies this
      ensures Current() == Step(old(Current()), Sleep(ticks)) && Inv(Current()) && slept == (ticks > 0)
    {
      hide Core, FirstTop, InsertSleeper, Schedule;
      Members(Current());
      StepInv(Current(), Sleep(ticks));
      slept := ticks > 0;
      if slept {
        SleepInv(Current(), now + ticks);
        threads := threads[current := threads[current].(sleeping := true, wakeup := now + ticks)];
        InsertOrdered(current);
        ThreadBlock();
      }
    }

    /** thread_exit_sleep of a sleeper at the front of the list */
    method ThreadExitSleep(t: Tid) returns (result: bool)
      requires sleepers != [] && t == sleepers[0] && t in threads
      modifies this`threads, this`ready, this`sleepers
      ensures result == (old(threads)[t].wakeup <= now)
      ensures Current() == if result then ExitSleep(old(Current())) else old(Current())
    {
      if threads[t].wakeup > now {
        return false;
      }
      threads := threads[t := threads[t].(sleeping := false)];
      threads := threads[t := threads[t].(wakeup := 0)];
      sleepers := sleepers[1..];
      ThreadUnblock(t);
      result := true;
    }

    /** The wakeup loop of thread_tick, after the timer interrupt has advanced the time. */
    method ThreadTick()
      requires Inv(Current())
      modifies this
      ensures Current() == Step(old(Current()), Tick) && Inv(Current())
    {
      hide Core, Unblock, Due;
      Members(Current());
      StepInv(Current(), Tick);
      ghost var start := Current();
      now := now + 1;
      TimeApart(start, now, now);
      while sleepers != []
        invariant forall t | t in sleepers :: t in threads
        invariant now == start.now + 1
        invariant WakeUp(Current(), now) == WakeUp(start, now).(now := now)
        decreases |sleepers|
      {
        var t := sleepers[0];
        if threads[t].wakeup > now {
          break;
        }
        ExitSleepMembers(Current());
        var woken := ThreadExitSleep(t);
      }
    }

    method ThreadExit()
      requires Inv(Current()) && Enabled(Current(), Exit)
      modifies this
      ensures Current() == Step(old(Current()), Exit) && Inv(Current())
    {
      hide Core, FirstTop;
      Members(Current());
      StepInv(Current(), Exit);
      ExitMembers(Current());
      threads := threads - {current};
      Dispatch();
    }
  }

  lemma ExitMembers(s: State)
    requires Inv(s) && s.current != s.idle
    ensures s.idle in s.threads - {s.current} && forall t | t in s.ready :: t in s.threads - {s.current}
  {
    Members(s);
    assert Placed(s, s.current, Some(s.current));
  }

  lemma ExitSleepMembers(s: State)
    requires s.sleepers != [] && forall t | t in s.sleepers :: t in s.threads
    ensures forall t | t in ExitSleep(s).sleepers :: t in ExitSleep(s).threads
    ensures |ExitSleep(s).sleepers| < |s.sleepers|
  {
  }

  lemma {:induction false} TimeApart(s: State, time: int, now: int)
    requires forall t | t in s.sleepers :: t in s.threads
    ensures WakeUp(s.(now := now), time) == WakeUp(s, time).(now := now)
    decreases |s.sleepers|
  {
    if s.sleepers != [] && s.threads[s.sleepers[0]].wakeup <= time {
      TimeApart(ExitSleep(s), time, now);
      assert ExitSleep(s).(now := now) == ExitSleep(s.(now := now));
    }
  }

  lemma {:induction false} InsertAt(ts: Threads, s: seq<Tid>, t: Tid, i: nat)
    requires t in ts && (forall u | u in s :: u in ts) && i <= |s|
    requires (forall j :: 0 <= j < i ==> ts[s[j]].wakeup <= ts[t].wakeup) &&
             (i < |s| ==> ts[t].wakeup < ts[s[i]].wakeup)
    ensures InsertSleeper(ts, s, t) == s[..i] + [t] + s[i..]
    decreases i
  {
    if i == 0 {
      assert s[..0] + [t] + s[0..] == [t] + s;
    } else {
      InsertAt(ts, s[1..], t, i - 1);
      OneBefore(s, t, i);
    }
  }

  lemma OneBefore(s: seq<Tid>, t: Tid, i: nat)
    requires 0 < i <= |s|
    ensures [s[0]] + (s[1..][..i - 1] + [t] + s[1..][i - 1..]) == s[..i] + [t] + s[i..]
  {
    assert s[..i] == [s[0]] + s[1..][..i - 1];
    assert s[1..][i - 1..] == s[i..];
  }
}
