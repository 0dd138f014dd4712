/**
 What each operation of the scheduler of pintos/src/threads/thread.c does, said of the states before
 and after: who runs next, who waits where, and when a sleeper wakes.
 */
module SchedulerSteps {
  import opened Scheduler
  import opened Sequences
  import opened Wrappers

  // ---- who runs next ----

  /** The dispatch from a line of ready threads: the first of those of the greatest priority runs and
      leaves the line; with nobody in line the idle thread runs. */
  ghost predicate Dispatches(ts: Threads, line: seq<Tid>, idle: Tid, s': State) {
    if line == [] then s'.current == idle && s'.ready == []
    else
      exists k | 0 <= k < |line| && Leads(ts, line, k) ::
        s'.current == line[k] && s'.ready == line[..k] + line[k + 1..]
  }

  ghost predicate Leads(ts: Threads, line: seq<Tid>, k: nat) {
    && k < |line| && (forall t | t in line :: t in ts)
    && (forall j :: 0 <= j < |line| ==> ts[line[j]].priority <= ts[line[k]].priority)
    && (forall j :: 0 <= j < k ==> ts[line[j]].priority < ts[line[k]].priority)
  }

  lemma ScheduleDispatches(s: State, ts: Threads)
    requires s.idle in s.threads && forall t | t in s.ready :: t in s.threads
    requires forall t | t in s.ready :: t in ts && ts[t].priority == s.threads[t].priority
    ensures Dispatches(ts, s.ready, s.idle, Schedule(s))
  {
    if s.ready != [] {
      var k := FirstTop(s.threads, s.ready);
      hide FirstTop;
      assert Leads(ts, s.ready, k);
    }
  }

  /** Threads other than the one that runs next keep their status, and all of them all else. */
  lemma ScheduleStatus(s: State)
    requires s.idle in s.threads && forall t | t in s.ready :: t in s.threads
    ensures var s' := Schedule(s);
            && s'.current in s'.threads && s'.threads[s'.current].status == Running
            && s'.threads == s.threads[s'.current := s.threads[s'.current].(status := Running)]
            && s'.sleepers == s.sleepers && s'.waiters == s.waiters && s'.now == s.now && s'.idle == s.idle
  {
    hide FirstTop;
  }

  /** thread_yield: the caller joins the end of the line, but not the idle thread. */
  lemma YieldOutcome(s: State)
    requires Inv(s)
    ensures var s' := Step(s, YieldNow);
            && Dispatches(s.threads, if s.current == s.idle then s.ready else s.ready + [s.current], s.idle, s')
            && s'.sleepers == s.sleepers && s'.waiters == s.waiters && s'.now == s.now
  {
    hide Inv, Schedule, Dispatches;
    Members(s);
    var s1 := s.(threads := SetStatus(s.threads, s.current, Ready),
                 ready := if s.current != s.idle then s.ready + [s.current] else s.ready);
    ScheduleDispatches(s1, s.threads);
    ScheduleStatus(s1);
  }

  /** thread_create: the new thread joins the end of the line, and then the caller. */
  lemma CreateOutcome(s: State, t: Tid, p: nat)
    requires Inv(s) && Enabled(s, Create(t, p))
    ensures var s', ts := Step(s, Create(t, p)), s.threads[t := Thread(p, Ready, false, 0)];
            && Dispatches(ts, s.ready + [t, s.current], s.idle, s')
            && s'.threads.Keys == s.threads.Keys + {t} && s'.threads[t].priority == p && !s'.threads[t].sleeping
            && s'.sleepers == s.sleepers && s'.waiters == s.waiters && s'.now == s.now
  {
    hide Inv, Schedule, Dispatches;
    Members(s);
    CreateInv(s, t, p);
    var s1 := Unblock(s.(threads := s.threads[t := Thread(p, Blocked, false, 0)]), t);
    Members(s1);
    var s2 := s1.(threads := SetStatus(s1.threads, s.current, Ready), ready := s1.ready + [s.current]);
    assert s2.ready == s.ready + [t, s.current];
    ScheduleDispatches(s2, s.threads[t := Thread(p, Ready, false, 0)]);
    ScheduleStatus(s2);
  }

  /** sema_down that waits: the caller joins the end of that semaphore's waiting list. */
  lemma WaitOutcome(s: State, k: Sid)
    requires Inv(s) && Enabled(s, Wait(k))
    ensures var s' := Step(s, Wait(k));
            && Dispatches(s.threads, s.ready, s.idle, s')
            && k in s'.waiters && s'.waiters[k] == (if k in s.waiters then s.waiters[k] else []) + [s.current]
            && s'.waiters == s.waiters[k := s'.waiters[k]]
            && s'.sleepers == s.sleepers && s'.now == s.now
  {
    hide Inv, Schedule, Dispatches;
    Members(s);
    var s1 := s.(waiters := s.waiters[k := Waiting(s, k) + [s.current]],
                 threads := SetStatus(s.threads, s.current, Blocked));
    ScheduleDispatches(s1, s.threads);
    ScheduleStatus(s1);
  }

  /** The idle thread's thread_block. */
  lemma IdleBlockOutcome(s: State)
    requires Inv(s) && Enabled(s, IdleBlock)
    ensures var s' := Step(s, IdleBlock);
            && Dispatches(s.threads, s.ready, s.idle, s')
            && s'.sleepers == s.sleepers && s'.waiters == s.waiters && s'.now == s.now
  {
    hide Inv, Schedule, Dispatches;
    Members(s);
    var s1 := s.(threads := SetStatus(s.threads, s.current, Blocked));
    ScheduleDispatches(s1, s.threads);
    ScheduleStatus(s1);
  }

  /** thread_exit: the caller is gone. */
  lemma ExitOutcome(s: State)
    requires Inv(s) && Enabled(s, Exit)
    ensures var s' := Step(s, Exit);
            && Dispatches(s.threads, s.ready, s.idle, s') && s'.threads.Keys == s.threads.Keys - {s.current}
            && s'.sleepers == s.sleepers && s'.waiters == s.waiters && s'.now == s.now
  {
    hide Inv, Schedule, Dispatches;
    Members(s);
    ExitMembers(s);
    var s1 := s.(threads := s.threads - {s.current});
    ScheduleDispatches(s1, s.threads);
    ScheduleStatus(s1);
  }

  // ---- who is woken ----

  /** sema_up with waiters: the first of those of the greatest priority becomes ready, at the end of the
      line; the others wait on in their order, and nobody else runs, waits or sleeps differently. */
  lemma WakeOutcome(s: State, k: Sid) returns (i: nat)
    requires Inv(s) && Enabled(s, Wake(k))
    ensures Leads(s.threads, s.waiters[k], i)
    ensures var ws, s' := s.waiters[k], Step(s, Wake(k));
            && s'.waiters == s.waiters[k := ws[..i] + ws[i + 1..]] && s'.ready == s.ready + [ws[i]]
            && s'.threads == s.threads[ws[i] := s.threads[ws[i]].(status := Ready)]
            && s'.current == s.current && s'.sleepers == s.sleepers && s'.now == s.now
  {
    Members(s);
    i := FirstTop(s.threads, s.waiters[k]);
    hide Inv, FirstTop;
  }

  // ---- when a sleeper wakes ----

  /** t joins the line in front of place i, behind all before it and ahead of the one there. */
  ghost predicate Joins(ts: Threads, line: seq<Tid>, t: Tid, wakeup: int, i: nat, line': seq<Tid>) {
    && i <= |line| && line' == line[..i] + [t] + line[i..] && (forall u | u in line :: u in ts)
    && (forall j :: 0 <= j < i ==> ts[line[j]].wakeup <= wakeup)
    && (i < |line| ==> ts[line[i]].wakeup > wakeup)
  }

  ghost predicate Queued(ts: Threads, line: seq<Tid>, t: Tid, wakeup: int, line': seq<Tid>) {
    exists i: nat :: Joins(ts, line, t, wakeup, i, line')
  }

  lemma {:induction false} InsertJoins(ts: Threads, line: seq<Tid>, t: Tid) returns (i: nat)
    requires t in ts && forall u | u in line :: u in ts
    ensures Joins(ts, line, t, ts[t].wakeup, i, InsertSleeper(ts, line, t))
  {
    if line == [] || ts[t].wakeup < ts[line[0]].wakeup {
      i := 0;
      assert line[..0] + [t] + line[0..] == [t] + line;
    } else {
      var k := InsertJoins(ts, line[1..], t);
      i := k + 1;
      assert line[..i] == [line[0]] + line[1..][..k] && line[i..] == line[1..][k..];
    }
  }

  /** thread_enter_sleep for n > 0 ticks: the caller sleeps until now + n, among the sleepers in the order
      of their times and behind those of the same time. */
  lemma SleepOutcome(s: State, n: int)
    requires Inv(s) && Enabled(s, Sleep(n))
    ensures n <= 0 ==> Step(s, Sleep(n)) == s
    ensures n > 0 ==>
              var t, s' := s.current, Step(s, Sleep(n));
              && t in s'.sleepers && t in s'.threads && s'.threads[t].sleeping && s'.threads[t].wakeup == s.now + n
              && (forall u :: u in s'.sleepers <==> u == t || u in s.sleepers)
              && (forall u | u in s.sleepers :: u in s'.threads && s'.threads[u].wakeup == s.threads[u].wakeup)
              && Queued(s.threads, s.sleepers, t, s.now + n, s'.sleepers)
              && s'.waiters == s.waiters && s'.now == s.now
              && Dispatches(s.threads, s.ready, s.idle, s')
  {
    hide Inv, Schedule, Dispatches, InsertSleeper, Joins;
    Members(s);
    CurrentAwake(s);
    if n > 0 {
      var s0 := FallAsleep(s, s.now + n);
      var s1 := s0.(threads := SetStatus(s0.threads, s.current, Blocked));
      ScheduleDispatches(s1, s.threads);
      ScheduleStatus(s1);
      var i := InsertJoins(s0.threads, s.sleepers, s.current);
      JoinsBefore(s0.threads, s.threads, s.sleepers, s.current, s.now + n, i, s0.sleepers);
    }
  }

  lemma JoinsBefore(ts: Threads, ts': Threads, line: seq<Tid>, t: Tid, wakeup: int, i: nat, line': seq<Tid>)
    requires Joins(ts, line, t, wakeup, i, line') && t !in line
    requires forall u | u in line :: u in ts && u in ts' && ts'[u].wakeup == ts[u].wakeup
    ensures Joins(ts', line, t, wakeup, i, line')
  {
  }

  lemma CurrentAwake(s: State)
    requires Inv(s) && s.current != s.idle
    ensures s.current !in s.sleepers && s.current !in s.ready
  {
    LineExists(s);
    assert Placed(s, s.current, Some(s.current));
  }

  /** Sleep(n) at time T, along any run: as long as the time is before T + n the thread is among the
      sleepers, to wake at T + n. */
  lemma SleepsFor(s: State, n: int, es: seq<Event>)
    requires Inv(s) && Enabled(s, Sleep(n)) && n > 0
    requires Run(s, [Sleep(n)] + es).Some?
    ensures var r, t := Run(s, [Sleep(n)] + es).value, s.current;
            r.now < s.now + n ==> t in r.sleepers && t in r.threads && r.threads[t].wakeup == s.now + n
  {
    assert ([Sleep(n)] + es)[1..] == es;
    StepInv(s, Sleep(n));
    SleepOutcome(s, n);
    hide Inv, Step, Enabled;
    SleepsUntil(Step(s, Sleep(n)), es, s.current);
  }

  /** And the tick that makes the time T + n puts it on the ready list. */
  lemma WakesOnTime(s: State, n: int, es: seq<Event>, r: State)
    requires Inv(s) && Enabled(s, Sleep(n)) && n > 0
    requires Run(s, [Sleep(n)] + es + [Tick]) == Some(r) && r.now == s.now + n
    ensures s.current in r.ready
  {
    hide Inv, Run, Step, Enabled;
    var r0 := LastStep(s, [Sleep(n)] + es, Tick, r);
    TickAdvances(r0, r);
    SleepsFor(s, n, es);
    SleepTick(r0, s.current);
  }

  lemma TickAdvances(r0: State, r: State)
    requires Inv(r0) && Enabled(r0, Tick) && r == Step(r0, Tick)
    ensures r.now == r0.now + 1
  {
    hide Inv;
  }

  lemma {:induction false} LastStep(s: State, es: seq<Event>, e: Event, r: State) returns (r0: State)
    requires Inv(s) && Run(s, es + [e]) == Some(r)
    ensures Run(s, es) == Some(r0) && Inv(r0) && Enabled(r0, e) && r == Step(r0, e)
    decreases |es|
  {
    hide Inv, Step, Enabled;
    if es == [] {
      assert es + [e] == [e] && [e][1..] == [];
      StepInv(s, e);
      r0 := s;
    } else {
      assert (es + [e])[1..] == es[1..] + [e];
      StepInv(s, es[0]);
      r0 := LastStep(Step(s, es[0]), es[1..], e, r);
    }
  }
}
