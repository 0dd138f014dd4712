/**
 The multi-level feedback scheduler's arithmetic: pintos/src/threads/fixed-point.h and the
 mlfqs parts of thread.c.  A fixed64 counts units of 1 / 2^14.
 */
module Mlfqs {
  import opened Arithmetic
  import opened Wrappers

  const F := 16384            // FRACTION_CONSTANT
  const TIMER_FREQ := 100
  const PRI_MAX := 63
  const PRI_MIN := 0
  const NICE_MAX := 20

  // ---- fixed-point.h ----

  function FromInt(x: int): int { x * F }

  function ToInt(x: int): int { I32(TruncDiv(x, F)) }

  function AddInt(x: int, n: int): int { x + FromInt(n) }

  function FixMul(x: int, y: int): int { TruncDiv(x * y, F) }

  function FixDiv(x: int, y: int): int
    requires y != 0
  {
    TruncDiv(x * F, y)
  }

  lemma TruncDivIs(x: int, d: int)
    requires d > 0
    ensures TruncDiv(x, d) == if x >= 0 then x / d else -((-x) / d)
  {
  }

  // ---- the formulas of thread.c ----

  /** mlfqs_recalculate_load_avg */
  function NewLoad(load: int, ready: nat): int {
    FixMul(TruncDiv(FromInt(59), 60), load) + TruncDiv(FromInt(1), 60) * ready
  }

  /** The decay of recent_cpu: (2 * load_avg) / (2 * load_avg + 1). */
  function Decay(load: int): int
    requires load >= 0
  {
    FixDiv(load * 2, AddInt(load * 2, 1))
  }

  /** thread_mlfqs_recalculate_recent_cpu */
  function NewRecent(load: int, recent: int, nice: int): int
    requires load >= 0
  {
    AddInt(FixMul(Decay(load), recent), nice)
  }

  function Clamp(p: int): int {
    if p > PRI_MAX then PRI_MAX else if p < PRI_MIN then PRI_MIN else p
  }

  /** thread_mlfqs_recalculate_priority */
  function NewPriority(recent: int, nice: int): int {
    Clamp(PRI_MAX - ToInt(TruncDiv(recent, 4)) - nice * 2)
  }

  // ---- bounds ----

  /** The weights 59/60 and 1/60 lose enough in rounding to sum to less than one. */
  lemma Weights()
    ensures TruncDiv(FromInt(59), 60) == 16110 && TruncDiv(FromInt(1), 60) == 273
  {
    TruncDivIs(FromInt(59), 60);
    TruncDivIs(FromInt(1), 60);
  }

  lemma LoadBound(load: int, ready: nat, n: nat)
    requires 0 <= load <= n * F && ready <= n
    ensures 0 <= NewLoad(load, ready) <= n * F
  {
    Weights();
    TruncDivIs(16110 * load, F);
    assert 16110 * load <= 16110 * n * F;
    assert 16110 * load / F <= 16110 * n;
  }

  /** The decay stays below one by at least 1 / (2 n + 1). */
  lemma DecayBound(load: int, n: nat)
    requires 0 <= load <= n * F
    ensures 0 <= Decay(load) && Decay(load) * (2 * n + 1) <= 2 * n * F
  {
    var a, b := 2 * load * F, 2 * load + F;
    TruncDivIs(a, b);
    var c := a / b;
    assert Decay(load) == c;
    DivMulLe(a, b);
    // c * b <= a, and a * (2 n + 1) <= 2 n F * b since load <= n F
    DecayRatio(load, n);
    assert c * b * (2 * n + 1) <= a * (2 * n + 1) <= 2 * n * F * b;
    CancelRight(c * (2 * n + 1), 2 * n * F, b);
  }

  lemma DivMulLe(a: nat, b: nat)
    requires b > 0
    ensures a / b * b <= a && a / b >= 0
  {
    assert a == b * (a / b) + a % b;
  }

  lemma DecayRatio(load: int, n: nat)
    requires 0 <= load <= n * F
    ensures 2 * load * F * (2 * n + 1) <= 2 * n * F * (2 * load + F)
  {
    assert 2 * load * F * (2 * n + 1) == 4 * load * n * F + 2 * load * F;
    assert 2 * n * F * (2 * load + F) == 4 * load * n * F + 2 * (n * F) * F;
    assert 2 * load * F <= 2 * (n * F) * F;
  }

  lemma CancelRight(x: int, y: int, b: int)
    requires b > 0 && x * b <= y * b
    ensures x <= y
  {
    if x > y {
      Larger(x, y, b);
    }
  }

  lemma Larger(x: int, y: int, b: int)
    requires b > 0 && x > y
    ensures x * b >= y * b + b
  {
    AtLeastOnce(x - y, b);
    Distribute(y, x - y, b);
  }

  lemma {:induction false} AtLeastOnce(d: nat, b: int)
    requires b > 0 && d > 0
    ensures d * b >= b
  {
    if d > 1 {
      AtLeastOnce(d - 1, b);
      Distribute(d - 1, 1, b);
    }
  }

  lemma Distribute(x: int, y: int, b: int)
    ensures (x + y) * b == x * b + y * b
  {
  }

  // ---- recent_cpu ----

  /** The bounds on recent_cpu `k` ticks after the last update, for n threads. */
  predicate RecentOk(recent: int, n: nat, k: nat) {
    -(40 * n + 20) * F <= recent <= (240 * n + 20) * F + k * F
  }

  /** c * x / F for a decay c, in magnitude. */
  lemma Decayed(c: nat, x: nat, n: nat, top: nat)
    requires c * (2 * n + 1) <= 2 * n * F && x <= top
    ensures c * x / F * (2 * n + 1) <= 2 * n * top
  {
    var y := c * x / F;
    assert y * F <= c * x by { DivMulLe(c * x, F); }
    LeMul(x, top, c);
    // y * F * (2 n + 1) <= c * top * (2 n + 1) <= 2 n F * top
    LeMul(y * F, c * top, 2 * n + 1);
    LeMul(c * (2 * n + 1), 2 * n * F, top);
    assert y * F * (2 * n + 1) == y * (2 * n + 1) * F;
    assert c * top * (2 * n + 1) == c * (2 * n + 1) * top;
    assert 2 * n * F * top == 2 * n * top * F;
    CancelRight(y * (2 * n + 1), 2 * n * top, F);
  }

  lemma LeMul(x: int, y: int, c: nat)
    requires x <= y
    ensures x * c <= y * c && c * x <= c * y
  {
    if x < y && c > 0 {
      Larger(y, x, c);
    }
  }

  /** Right after an update, within a second's worth of ticks of the last one. */
  lemma RecentBound(load: int, recent: int, nice: int, n: nat, k: nat)
    requires 0 <= load <= n * F && -NICE_MAX <= nice <= NICE_MAX && k <= TIMER_FREQ && RecentOk(recent, n, k)
    ensures RecentOk(NewRecent(load, recent, nice), n, 0)
  {
    DecayBound(load, n);
    DecayedRecent(Decay(load), recent, n, k);
    hide Decay, FixMul;
    assert FromInt(nice) == nice * F;
  }

  lemma DecayedRecent(c: nat, recent: int, n: nat, k: nat)
    requires c * (2 * n + 1) <= 2 * n * F && k <= TIMER_FREQ && RecentOk(recent, n, k)
    ensures -(40 * n) * F <= FixMul(c, recent) <= (240 * n) * F
  {
    if recent >= 0 {
      Decayed(c, recent, n, (240 * n + 120) * F);
      ShrinkUp(c * recent / F, n);
      NonNegative(c, recent);
      TruncDivIs(c * recent, F);
    } else {
      Decayed(c, -recent, n, (40 * n + 20) * F);
      ShrinkDown(c * -recent / F, n);
      NonNegative(c, -recent);
      assert -(c * recent) == c * -recent;
      TruncDivIs(c * recent, F);
    }
  }

  lemma NonNegative(a: nat, b: nat)
    ensures a * b >= 0
  {
  }

  lemma ShrinkUp(y: nat, n: nat)
    requires y * (2 * n + 1) <= 2 * n * ((240 * n + 120) * F)
    ensures y <= 240 * n * F
  {
    assert 2 * n * ((240 * n + 120) * F) == 240 * n * F * (2 * n + 1);
    CancelRight(y, 240 * n * F, 2 * n + 1);
  }

  lemma ShrinkDown(y: nat, n: nat)
    requires y * (2 * n + 1) <= 2 * n * ((40 * n + 20) * F)
    ensures y <= 40 * n * F
  {
    assert 2 * n * ((40 * n + 20) * F) == 40 * n * F * (2 * n + 1);
    CancelRight(y, 40 * n * F, 2 * n + 1);
  }

  // ---- ticks ----

  type Tid = nat

  datatype Cpu = Cpu(recent: int, nice: int, priority: int)

  /** The threads are all but the idle thread; `time` is timer_ticks. */
  datatype State = State(time: nat, load: int, threads: map<Tid, Cpu>)

  datatype Event =
    | Tick(running: Option<Tid>, ready: seq<Tid>)   // None: the idle thread runs
    | Create(t: Tid, priority: nat)
    | Exit(t: Tid)
    | SetNice(t: Tid, nice: int)

  predicate Enabled(s: State, e: Event, n: nat) {
    match e
    case Tick(running, ready) =>
      && (forall i, j :: 0 <= i < j < |ready| ==> ready[i] != ready[j])
      && (forall t | t in ready :: t in s.threads)
      && (running.Some? ==> running.value in s.threads && running.value !in ready)
    case Create(t, p) => t !in s.threads && |s.threads| < n && p <= PRI_MAX
    case Exit(t) => t in s.threads
    case SetNice(t, nice) => t in s.threads && -NICE_MAX <= nice <= NICE_MAX
  }

  function Charge(threads: map<Tid, Cpu>, running: Option<Tid>): (r: map<Tid, Cpu>)
    ensures r.Keys == threads.Keys
  {
    if running.Some? && running.value in threads
    then threads[running.value := threads[running.value].(recent := AddInt(threads[running.value].recent, 1))]
    else threads
  }

  function ReadyCount(running: Option<Tid>, ready: seq<Tid>): nat {
    (if running == None then 0 else 1) + |ready|
  }

  /** What the per-thread loop of thread_tick does to one thread. */
  function TickOne(c: Cpu, time: nat, load: int): Cpu
    requires load >= 0
  {
    var c1 := if time % 4 == 0 then c.(priority := NewPriority(c.recent, c.nice)) else c;
    if time % TIMER_FREQ == 0 then c1.(recent := NewRecent(load, c1.recent, c1.nice)) else c1
  }

  function TickLoad(s: State, running: Option<Tid>, ready: seq<Tid>): int {
    if (s.time + 1) % TIMER_FREQ == 0 then NewLoad(s.load, ReadyCount(running, ready)) else s.load
  }

  function Step(s: State, e: Event): State
    requires e.Tick? ==> TickLoad(s, e.running, e.ready) >= 0
    requires e.SetNice? ==> e.t in s.threads
  {
    match e
    case Tick(running, ready) =>
      var load := TickLoad(s, running, ready);
      var charged := Charge(s.threads, running);
      State(s.time + 1, load, map t | t in charged :: TickOne(charged[t], s.time + 1, load))
    case Create(t, p) => s.(threads := s.threads[t := Cpu(0, 0, p)])
    case Exit(t) => s.(threads := s.threads - {t})
    case SetNice(t, nice) => s.(threads := s.threads[t := s.threads[t].(nice := nice)])
  }

  predicate CpuOk(c: Cpu, n: nat, k: nat) {
    RecentOk(c.recent, n, k) && -NICE_MAX <= c.nice <= NICE_MAX && PRI_MIN <= c.priority <= PRI_MAX
  }

  /** With at most n threads: load_avg is at most n, and recent_cpu is within its bounds, allowing
      for the ticks since the last per-second update. */
  predicate Inv(s: State, n: nat) {
    && |s.threads| <= n && 0 <= s.load <= n * F
    && forall t | t in s.threads :: CpuOk(s.threads[t], n, s.time % TIMER_FREQ)
  }

  lemma {:induction false} DistinctSize(s: seq<Tid>, d: set<Tid>)
    requires forall i, j :: 0 <= i < j < |s| ==> s[i] != s[j]
    requires forall t | t in s :: t in d
    ensures |s| <= |d|
  {
    if s != [] {
      assert s[0] in d;
      forall t | t in s[1..] ensures t in d - {s[0]} {
      }
      DistinctSize(s[1..], d - {s[0]});
    }
  }

  lemma ReadyBound(s: State, running: Option<Tid>, ready: seq<Tid>, n: nat)
    requires Enabled(s, Tick(running, ready), n)
    ensures ReadyCount(running, ready) <= |s.threads|
  {
    var all := if running == None then ready else ready + [running.value];
    DistinctSize(all, s.threads.Keys);
  }

  lemma TickLoadBound(s: State, running: Option<Tid>, ready: seq<Tid>, n: nat)
    requires Inv(s, n) && Enabled(s, Tick(running, ready), n)
    ensures 0 <= TickLoad(s, running, ready) <= n * F
  {
    ReadyBound(s, running, ready, n);
    LoadBound(s.load, ReadyCount(running, ready), n);
  }

  lemma TickOneOk(c: Cpu, time: nat, load: int, n: nat, k: nat)
    requires CpuOk(c, n, k) && k <= TIMER_FREQ && 0 <= load <= n * F
    requires time % TIMER_FREQ == 0 || time % TIMER_FREQ == k
    ensures CpuOk(TickOne(c, time, load), n, time % TIMER_FREQ)
  {
    hide NewRecent, ToInt, TruncDiv;
    RecentBound(load, c.recent, c.nice, n, k);
  }

  lemma TickInv(s: State, running: Option<Tid>, ready: seq<Tid>, n: nat)
    requires Inv(s, n) && Enabled(s, Tick(running, ready), n)
    ensures TickLoad(s, running, ready) >= 0
    ensures Inv(Step(s, Tick(running, ready)), n)
  {
    hide TickOne, TickLoad, Enabled, Charge, CpuOk;
    TickLoadBound(s, running, ready, n);
    var s' := Step(s, Tick(running, ready));
    forall t | t in s'.threads ensures CpuOk(s'.threads[t], n, s'.time % TIMER_FREQ) {
      TickThread(s, running, ready, n, t);
    }
    SameSize(s.threads, s'.threads);
  }

  lemma TickThread(s: State, running: Option<Tid>, ready: seq<Tid>, n: nat, t: Tid)
    requires Inv(s, n) && t in s.threads && 0 <= TickLoad(s, running, ready) <= n * F
    ensures CpuOk(TickOne(Charge(s.threads, running)[t], s.time + 1, TickLoad(s, running, ready)), n,
            (s.time + 1) % TIMER_FREQ)
  {
    ChargedOk(s, running, n, t);
    hide Inv, CpuOk, TickLoad, Charge, TickOne;
    NextMod(s.time);
    TickOneOk(Charge(s.threads, running)[t], s.time + 1, TickLoad(s, running, ready), n, s.time % TIMER_FREQ + 1);
  }

  lemma NextMod(time: nat)
    ensures (time + 1) % TIMER_FREQ == 0 || (time + 1) % TIMER_FREQ == time % TIMER_FREQ + 1
  {
  }

  lemma ChargedOk(s: State, running: Option<Tid>, n: nat, t: Tid)
    requires Inv(s, n) && t in s.threads
    ensures CpuOk(Charge(s.threads, running)[t], n, s.time % TIMER_FREQ + 1)
  {
    assert CpuOk(s.threads[t], n, s.time % TIMER_FREQ);
  }

  lemma StepInv(s: State, e: Event, n: nat)
    requires Inv(s, n) && Enabled(s, e, n)
    ensures e.Tick? ==> TickLoad(s, e.running, e.ready) >= 0
    ensures Inv(Step(s, e), n)
  {
    match e
    case Tick(running, ready) =>
      TickInv(s, running, ready, n);
    case Create(t, p) => assert RecentOk(0, n, s.time % TIMER_FREQ);
    case Exit(t) =>
    case SetNice(t, nice) =>
      SameSize(s.threads, Step(s, e).threads);
  }

  lemma SameSize(a: map<Tid, Cpu>, b: map<Tid, Cpu>)
    requires a.Keys == b.Keys
    ensures |a| == |b|
  {
    assert |a| == |a.Keys| && |b| == |b.Keys|;
  }

  ghost function Run(s: State, es: seq<Event>, n: nat): (r: Option<State>)
    requires Inv(s, n)
    ensures r.Some? ==> Inv(r.value, n)
    decreases |es|
  {
    if es == [] then Some(s)
    else if Enabled(s, es[0], n) then
      StepInv(s, es[0], n);
      Run(Step(s, es[0]), es[1..], n)
    else None
  }

  const BOOT := State(0, 0, map[])

  /** A state that a run with at most n threads at a time can reach. */
  ghost function Reached(es: seq<Event>, n: nat): (r: Option<State>)
    ensures r.Some? ==> Inv(r.value, n)
  {
    Run(BOOT, es, n)
  }

  /** Over every run of ticks: the bounds on load_avg, and right after each per-second update those
      on recent_cpu. */
  lemma BoundsInRuns(es: seq<Event>, n: nat)
    requires Reached(es, n).Some?
    ensures var s := Reached(es, n).value;
            && 0 <= s.load <= n * F
            && (forall t | t in s.threads :: PRI_MIN <= s.threads[t].priority <= PRI_MAX)
            && (s.time % TIMER_FREQ == 0 ==> forall t | t in s.threads ::
                  -(40 * n + 20) * F <= s.threads[t].recent <= (240 * n + 20) * F)
  {
    var s := Reached(es, n).value;
    assert Inv(s, n);
    forall t | t in s.threads
      ensures PRI_MIN <= s.threads[t].priority <= PRI_MAX
      ensures s.time % TIMER_FREQ == 0 ==> -(40 * n + 20) * F <= s.threads[t].recent <= (240 * n + 20) * F
    {
      assert CpuOk(s.threads[t], n, s.time % TIMER_FREQ);
    }
  }

  /** With up to 2^20 threads no intermediate value leaves 64 bits, and the conversion to int in
      the priority formula loses nothing. */
  lemma NoOverflow(load: int, recent: int, n: nat, k: nat)
    requires n <= 0x10_0000 && 0 <= load <= n * F && RecentOk(recent, n, k) && k <= TIMER_FREQ
    ensures 16110 * load < 0x8000_0000_0000_0000 && load * 2 * F < 0x8000_0000_0000_0000
    ensures -0x8000_0000_0000_0000 <= Decay(load) * recent < 0x8000_0000_0000_0000
    ensures ToInt(TruncDiv(recent, 4)) == TruncDiv(TruncDiv(recent, 4), F)
  {
    DecayBound(load, n);
    var c := Decay(load);
    hide Decay;
    assert c <= F by {
      assert c * (2 * n + 1) <= F * (2 * n + 1);
      CancelRight(c, F, 2 * n + 1);
    }
    var top := 0x1000_0000 * F;
    assert -top <= recent <= top;
    SmallProduct(c, recent, top);
    TruncDivIs(recent, 4);
    TruncDivIs(TruncDiv(recent, 4), F);
  }

  lemma SmallProduct(c: nat, x: int, top: int)
    requires c <= F && top >= 0 && -top <= x <= top
    ensures -(F * top) <= c * x <= F * top
  {
    LeMul(x, top, c);
    LeMul(-top, x, c);
    LeMul(c, F, top);
  }

  // ---- thread_tick ----

  class Clock {
    var time: nat
    var load: int
    var threads: map<Tid, Cpu>

    constructor ()
      ensures Current() == BOOT
    {
      time, load, threads := 0, 0, map[];
    }

    ghost function Current(): State
      reads this
    {
      State(time, load, threads)
    }

    /** mlfqs_recalculate_load_avg */
    method RecalculateLoadAvg(running: Option<Tid>, ready: seq<Tid>)
      modifies this`load
      ensures load == NewLoad(old(load), ReadyCount(running, ready))
    {
      var readyThreads := if running == None then 0 else 1;
      var i := 0;
      while i < |ready|
        invariant i <= |ready| && readyThreads == (if running == None then 0 else 1) + i
      {
        readyThreads := readyThreads + 1;
        i := i + 1;
      }
      var p := TruncDiv(FromInt(59), 60);
      var q := TruncDiv(FromInt(1), 60);
      load := FixMul(p, load) + q * readyThreads;
    }

    /** The mlfqs part of thread_tick; `all` is the list of all threads but the idle one. */
    method Tick(running: Option<Tid>, ready: seq<Tid>, all: seq<Tid>, ghost n: nat)
      requires Inv(Current(), n) && Enabled(Current(), Event.Tick(running, ready), n)
      requires Lists(all, threads)
      modifies this
      ensures TickLoad(old(Current()), running, ready) >= 0
      ensures Current() == Step(old(Current()), Event.Tick(running, ready)) && Inv(Current(), n)
    {
      hide Inv, TickOne, NewLoad, Enabled, Lists, Step;
      StepInv(Current(), Event.Tick(running, ready), n);
      RunningExists(Current(), running, ready, n);
      StillListed(all, threads, running);
      time := time + 1;
      if running.Some? {
        threads := threads[running.value := threads[running.value].(recent := AddInt(threads[running.value].recent,
            1))];
      }
      ghost var charged := threads;
      if time % TIMER_FREQ == 0 {
        RecalculateLoadAvg(running, ready);
      }
      UpdateAll(all);
      IsTick(old(Current()), Current(), running, ready, charged);
    }

    /** The per-thread loop of thread_tick. */
    method UpdateAll(all: seq<Tid>)
      requires load >= 0 && Lists(all, threads)
      modifies this`threads
      ensures threads.Keys == old(threads).Keys
      ensures forall t | t in old(threads) :: threads[t] == TickOne(old(threads)[t], time, load)
    {
      hide TickOne, Lists;
      ghost var charged := threads;
      var i := 0;
      while i < |all|
        invariant i <= |all| && threads.Keys == charged.Keys
        invariant forall t | t in charged :: threads[t] == if t in all[..i] then TickOne(charged[t], time, load)
                  else charged[t]
      {
        var t := all[i];
        NextListed(all, charged, i);
        if time % 4 == 0 {
          threads := threads[t := threads[t].(priority := NewPriority(threads[t].recent, threads[t].nice))];
        }
        if time % TIMER_FREQ == 0 {
          threads := threads[t := threads[t].(recent := NewRecent(load, threads[t].recent, threads[t].nice))];
        }
        IsTickOne(charged[t], time, load);
        i := i + 1;
      }
      AllListed(all, charged);
    }
  }

  /** The list of all threads has each of them once. */
  predicate Lists(all: seq<Tid>, threads: map<Tid, Cpu>) {
    && (forall i, j :: 0 <= i < j < |all| ==> all[i] != all[j])
    && (forall t | t in all :: t in threads) && (forall t | t in threads :: t in all)
  }

  lemma IsTick(s: State, s': State, running: Option<Tid>, ready: seq<Tid>, charged: map<Tid, Cpu>)
    requires TickLoad(s, running, ready) >= 0 && charged == Charge(s.threads, running)
    requires s'.time == s.time + 1 && s'.load == TickLoad(s, running, ready) && s'.threads.Keys == charged.Keys
    requires forall t | t in charged :: s'.threads[t] == TickOne(charged[t], s'.time, s'.load)
    ensures s' == Step(s, Event.Tick(running, ready))
  {
    hide TickOne, TickLoad;
  }

  lemma RunningExists(s: State, running: Option<Tid>, ready: seq<Tid>, n: nat)
    requires Enabled(s, Event.Tick(running, ready), n)
    ensures running.Some? ==> running.value in s.threads
  {
  }

  lemma StillListed(all: seq<Tid>, threads: map<Tid, Cpu>, running: Option<Tid>)
    requires Lists(all, threads)
    ensures Lists(all, Charge(threads, running))
  {
  }

  lemma NextListed(all: seq<Tid>, threads: map<Tid, Cpu>, i: nat)
    requires Lists(all, threads) && i < |all|
    ensures all[i] in threads && all[i] !in all[..i] && all[..i + 1] == all[..i] + [all[i]]
  {
    assert all[i] in all;
  }

  lemma AllListed(all: seq<Tid>, threads: map<Tid, Cpu>)
    requires Lists(all, threads)
    ensures all[..|all|] == all && forall t | t in threads :: t in all
  {
  }

  lemma IsTickOne(c: Cpu, time: nat, load: int)
    requires load >= 0
    ensures TickOne(c, time, load) ==
            c.(priority := if time % 4 == 0 then NewPriority(c.recent, c.nice) else c.priority,
               recent := if time % TIMER_FREQ == 0 then NewRecent(load, c.recent, c.nice) else c.recent)
  {
  }
}
