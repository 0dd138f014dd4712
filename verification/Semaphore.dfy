/**
 pintos/src/threads/synch.c under every interleaving: one semaphore, alone or inside a lock,
 and any number of threads.  A step is one section that runs with interrupts off, or one
 assignment to lock->holder outside such a section; between two steps any other thread may
 run.  Which waiter sema_up wakes is left open, so the results hold for all priorities.
 */
module Semaphore {
  import opened Sequences
  import opened Wrappers

  type Tid = nat

  /** Where a thread is.  `Entered` is between the return of sema_down and the assignment of the
      holder, `Leaving` between clearing the holder and sema_up. */
  datatype Place = Outside | Blocked | Woken | Entered | Holding | Leaving

  datatype State = State(value: nat, waiters: seq<Tid>, holder: Option<Tid>, pcs: map<Tid, Place>)

  datatype Event =
    | Down(t: Tid)            // sema_down from its start, or again after thread_block
    | TryDown(t: Tid)
    | TakeHolder(t: Tid)      // lock_acquire, lock_try_acquire: lock->holder = thread_current ()
    | ClearHolder(t: Tid)     // lock_release: lock->holder = NULL
    | Up(t: Tid, pick: nat)   // lock_release: sema_up
    | Return(t: Tid)          // a plain semaphore: sema_down has returned
    | Signal(pick: nat)       // a plain semaphore: sema_up by a thread or an interrupt handler

  function Pc(s: State, t: Tid): Place {
    if t in s.pcs then s.pcs[t] else Outside
  }

  predicate Enabled(s: State, e: Event) {
    match e
    case Down(t) => Pc(s, t) == Outside || Pc(s, t) == Woken
    case TryDown(t) => Pc(s, t) == Outside
    case TakeHolder(t) => Pc(s, t) == Entered
    case ClearHolder(t) => Pc(s, t) == Holding
    case Up(t, pick) => Pc(s, t) == Leaving && PickOk(s, pick)
    case Return(t) => Pc(s, t) == Entered
    case Signal(pick) => PickOk(s, pick)
  }

  predicate PickOk(s: State, pick: nat) {
    s.waiters != [] ==> pick < |s.waiters|
  }

  function Move(s: State, t: Tid, pc: Place): State {
    s.(pcs := s.pcs[t := pc])
  }

  function SemaDown(s: State, t: Tid): State {
    if s.value == 0 then Move(s, t, Blocked).(waiters := s.waiters + [t])
    else Move(s, t, Entered).(value := s.value - 1)
  }

  function SemaUp(s: State, pick: nat): State
    requires PickOk(s, pick)
  {
    if s.waiters == [] then s.(value := s.value + 1)
    else Move(s, s.waiters[pick], Woken).(waiters := s.waiters[..pick] + s.waiters[pick + 1..], value := s.value + 1)
  }

  function Step(s: State, e: Event): State
    requires Enabled(s, e)
  {
    match e
    case Down(t) => SemaDown(s, t)
    case TryDown(t) => if s.value > 0 then SemaDown(s, t) else s
    case TakeHolder(t) => Move(s, t, Holding).(holder := Some(t))
    case ClearHolder(t) => Move(s, t, Leaving).(holder := None)
    case Up(t, pick) => SemaUp(Move(s, t, Outside), pick)
    case Return(t) => Move(s, t, Outside)
    case Signal(pick) => SemaUp(s, pick)
  }

  function Init(value: nat): State {
    State(value, [], None, map[])
  }

  function Run(s: State, es: seq<Event>): Option<State>
    decreases |es|
  {
    if es == [] then Some(s)
    else if Enabled(s, es[0]) then Run(Step(s, es[0]), es[1..])
    else None
  }

  // ---- semaphores ----

  /** A sema_down or a successful sema_try_down is completed by this step. */
  predicate CompletesDown(s: State, e: Event) {
    (e.Down? || e.TryDown?) && s.value > 0
  }

  function Downs(s: State, es: seq<Event>): nat
    decreases |es|
  {
    if es == [] || !Enabled(s, es[0]) then 0
    else (if CompletesDown(s, es[0]) then 1 else 0) + Downs(Step(s, es[0]), es[1..])
  }

  function Ups(es: seq<Event>): nat
    decreases |es|
  {
    if es == [] then 0 else (if es[0].Up? || es[0].Signal? then 1 else 0) + Ups(es[1..])
  }

  /** The threads at a place. */
  function At(s: State, pc: Place): set<Tid> {
    set t | t in s.pcs && s.pcs[t] == pc
  }

  ghost predicate SemaInv(s: State) {
    && Distinct(s.waiters)
    && (forall t :: t in s.waiters <==> Pc(s, t) == Blocked)
    // No lost wakeup: as long as a thread sleeps, every unit of the value is already promised
    // to a thread that was woken and has yet to test again.
    && (s.waiters != [] ==> s.value <= |At(s, Woken)|)
  }

  lemma AtMove(s: State, t: Tid, pc: Place, at: Place)
    ensures at == pc ==> At(Move(s, t, pc), at) == At(s, at) + {t}
    ensures at != pc ==> At(Move(s, t, pc), at) == At(s, at) - {t}
  {
  }

  lemma AddOne(s: set<Tid>, t: Tid)
    requires t !in s
    ensures |s + {t}| == |s| + 1
  {
  }

  lemma SemaDownInv(s: State, t: Tid)
    requires SemaInv(s) && (Pc(s, t) == Outside || Pc(s, t) == Woken)
    ensures SemaInv(SemaDown(s, t))
  {
    var s' := SemaDown(s, t);
    AtMove(s, t, if s.value == 0 then Blocked else Entered, Woken);
    assert s'.value == 0 || At(s', Woken) == At(s, Woken) - {t};
    if s.value > 0 && t in At(s, Woken) {
      assert |At(s, Woken) - {t}| == |At(s, Woken)| - 1;
    } else if s.value > 0 {
      assert At(s, Woken) - {t} == At(s, Woken);
    }
    forall u ensures u in s'.waiters <==> Pc(s', u) == Blocked {
      assert u in s.waiters <==> Pc(s, u) == Blocked;
    }
  }

  lemma SemaUpInv(s: State, pick: nat)
    requires SemaInv(s) && PickOk(s, pick)
    ensures SemaInv(SemaUp(s, pick))
  {
    var s' := SemaUp(s, pick);
    if s.waiters == [] {
      assert At(s', Woken) == At(s, Woken);
    } else {
      var w := s.waiters[pick];
      assert w in s.waiters && w !in s'.waiters;
      AtMove(s, w, Woken, Woken);
      assert At(s', Woken) == At(s, Woken) + {w};
      AddOne(At(s, Woken), w);
    }
    forall u ensures u in s'.waiters <==> Pc(s', u) == Blocked {
      assert u in s.waiters <==> Pc(s, u) == Blocked;
    }
  }

  /** Moving a thread between places outside the semaphore. */
  lemma MoveInv(s: State, t: Tid, pc: Place, holder: Option<Tid>)
    requires SemaInv(s)
    requires Pc(s, t) != Blocked && Pc(s, t) != Woken && pc != Blocked && pc != Woken
    ensures SemaInv(Move(s, t, pc).(holder := holder))
  {
    var s' := Move(s, t, pc).(holder := holder);
    AtMove(s, t, pc, Woken);
    assert At(s', Woken) == At(s, Woken);
    forall u ensures u in s'.waiters <==> Pc(s', u) == Blocked {
      assert u in s.waiters <==> Pc(s, u) == Blocked;
    }
  }

  lemma StepSemaInv(s: State, e: Event)
    requires SemaInv(s) && Enabled(s, e)
    ensures SemaInv(Step(s, e))
  {
    match e
    case Down(t) => SemaDownInv(s, t);
    case TryDown(t) => if s.value > 0 { SemaDownInv(s, t); }
    case TakeHolder(t) => MoveInv(s, t, Holding, Some(t));
    case ClearHolder(t) => MoveInv(s, t, Leaving, None);
    case Up(t, pick) =>
      MoveInv(s, t, Outside, s.holder);
      SemaUpInv(Move(s, t, Outside), pick);
    case Return(t) => MoveInv(s, t, Outside, s.holder);
    case Signal(pick) => SemaUpInv(s, pick);
  }

  /** Over every run: the value is the initial one plus the ups minus the completed downs,
      the waiters are exactly the blocked threads, and no wakeup is lost. */
  lemma {:induction false} SemaphoreRuns(s: State, es: seq<Event>)
    requires SemaInv(s) && Run(s, es).Some?
    ensures SemaInv(Run(s, es).value)
    ensures Run(s, es).value.value + Downs(s, es) == s.value + Ups(es)
    decreases |es|
  {
    if es != [] {
      StepSemaInv(s, es[0]);
      SemaphoreRuns(Step(s, es[0]), es[1..]);
    }
  }

  // ---- what a step does ----

  /** sema_down takes a unit if there is one; otherwise the caller waits behind the others.  Nobody
      else moves. */
  lemma DownOutcome(s: State, t: Tid)
    requires Enabled(s, Down(t))
    ensures var s' := Step(s, Down(t));
            && (forall u | u != t :: Pc(s', u) == Pc(s, u)) && s'.holder == s.holder
            && (if s.value > 0 then Pc(s', t) == Entered && s'.value == s.value - 1 && s'.waiters == s.waiters
                else Pc(s', t) == Blocked && s'.value == 0 && s'.waiters == s.waiters + [t])
  {
  }

  /** sema_up adds a unit and wakes exactly the picked waiter; the others keep their order and wait. */
  lemma UpOutcome(s: State, e: Event)
    requires SemaInv(s) && Enabled(s, e) && (e.Up? || e.Signal?)
    ensures var s' := Step(s, e);
            && s'.value == s.value + 1 && s'.holder == s.holder
            && (e.Up? ==> Pc(s', e.t) == Outside)
            && (if s.waiters == [] then s'.waiters == [] && forall u | e.Signal? || u != e.t :: Pc(s', u) == Pc(s, u)
                else
                  var w := s.waiters[e.pick];
                  && Pc(s, w) == Blocked && Pc(s', w) == Woken
                  && s'.waiters == s.waiters[..e.pick] + s.waiters[e.pick + 1..] && w !in s'.waiters
                  && forall u | u != w && (e.Signal? || u != e.t) :: Pc(s', u) == Pc(s, u))
  {
    if s.waiters != [] {
      assert s.waiters[e.pick] in s.waiters;
    }
  }

  // ---- locks ----

  /** The steps of lock_acquire, lock_try_acquire and lock_release. */
  predicate OfLock(e: Event) {
    !e.Return? && !e.Signal?
  }

  predicate OfLocks(es: seq<Event>) {
    forall i :: 0 <= i < |es| ==> OfLock(es[i])
  }

  /** Between its sema_down and its sema_up. */
  predicate Inside(s: State, t: Tid) {
    Pc(s, t) == Entered || Pc(s, t) == Holding || Pc(s, t) == Leaving
  }

  /** Nobody is inside and the semaphore is up, or exactly one thread is and it is down. */
  ghost predicate LockInv(s: State) {
    && SemaInv(s)
    && s.value <= 1
    && (s.value == 1 ==> forall t :: !Inside(s, t))
    && (s.value == 0 ==> exists t :: Inside(s, t) && forall u :: Inside(s, u) ==> u == t)
    && (forall t: Tid :: Pc(s, t) == Holding <==> s.holder == Some(t))
  }

  lemma StepLockInv(s: State, e: Event)
    requires LockInv(s) && Enabled(s, e) && OfLock(e)
    ensures LockInv(Step(s, e))
  {
    StepSemaInv(s, e);
    hide SemaInv;
    var s' := Step(s, e);
    match e
    case Down(t) =>
      DownLockInv(s, t);
    case TryDown(t) =>
      DownLockInv(s, t);
    case TakeHolder(t) =>
      assert Inside(s, t) && Inside(s', t) && forall u: Tid :: Inside(s, u) <==> Inside(s', u);
      assert forall u: Tid | u != t :: Pc(s, u) == Holding ==> Inside(s, u);
      assert forall u: Tid :: Pc(s', u) == Holding <==> u == t;
    case ClearHolder(t) =>
      assert Inside(s, t) && Inside(s', t) && forall u :: Inside(s, u) <==> Inside(s', u);
    case Up(t, pick) =>
      assert Inside(s, t);
      UpLockInv(s, t, pick);
  }

  lemma DownLockInv(s: State, t: Tid)
    requires LockInv(s) && (Pc(s, t) == Outside || Pc(s, t) == Woken) && SemaInv(SemaDown(s, t))
    ensures LockInv(SemaDown(s, t))
  {
    hide SemaInv;
    var s' := SemaDown(s, t);
    if s.value == 0 {
      assert forall u :: Inside(s, u) <==> Inside(s', u);
    } else {
      assert Inside(s', t) && forall u :: Inside(s', u) ==> u == t || Inside(s, u);
    }
    assert Pc(s, t) != Holding && Pc(s', t) != Holding;
    assert forall u | u != t :: Pc(s', u) == Pc(s, u);
  }

  lemma UpLockInv(s: State, t: Tid, pick: nat)
    requires LockInv(s) && Enabled(s, Up(t, pick)) && SemaInv(Step(s, Up(t, pick)))
    ensures LockInv(Step(s, Up(t, pick)))
  {
    var s' := Step(s, Up(t, pick));
    assert Inside(s, t) && s.value == 0;
    assert s.waiters != [] ==> s.waiters[pick] in s.waiters;
    assert forall u: Tid :: Pc(s', u) == if u == t then Outside else if s.waiters != [] &&
        u == s.waiters[pick] then Woken else Pc(s, u);
    forall u: Tid ensures !Inside(s', u) {
      assert Inside(s, u) ==> u == t;
    }
  }

  /** Over every run of lock operations. */
  lemma {:induction false} LockRuns(s: State, es: seq<Event>)
    requires LockInv(s) && Run(s, es).Some? && OfLocks(es)
    ensures LockInv(Run(s, es).value)
    decreases |es|
  {
    if es != [] {
      assert OfLock(es[0]);
      StepLockInv(s, es[0]);
      assert OfLocks(es[1..]) by {
        assert forall i :: 0 <= i < |es[1..]| ==> es[1..][i] == es[i + 1];
      }
      LockRuns(Step(s, es[0]), es[1..]);
    }
  }

  /** Mutual exclusion, from a fresh lock. */
  lemma MutualExclusion(es: seq<Event>, t: Tid, u: Tid)
    requires OfLocks(es) && Run(Init(1), es).Some?
    requires Inside(Run(Init(1), es).value, t) && Inside(Run(Init(1), es).value, u)
    ensures t == u
  {
    InitLock();
    LockRuns(Init(1), es);
  }

  lemma InitLock()
    ensures LockInv(Init(1))
  {
  }

  /** A recorded holder means a semaphore that is down, and it is the one thread inside. */
  lemma HolderMeansDown(es: seq<Event>)
    requires OfLocks(es) && Run(Init(1), es).Some? && Run(Init(1), es).value.holder.Some?
    ensures var s := Run(Init(1), es).value;
            s.value == 0 && Pc(s, s.holder.value) == Holding && forall u :: Inside(s, u) ==> u == s.holder.value
  {
    InitLock();
    LockRuns(Init(1), es);
    var s := Run(Init(1), es).value;
    assert Pc(s, s.holder.value) == Holding && Inside(s, s.holder.value);
  }

  /** The assertions of lock_acquire, lock_try_acquire and lock_release hold wherever they are
      reached, and a new holder never overwrites another. */
  lemma HolderAssertions(es: seq<Event>, e: Event)
    requires OfLocks(es) && Run(Init(1), es).Some? && Enabled(Run(Init(1), es).value, e)
    ensures var s := Run(Init(1), es).value;
            && ((e.Down? || e.TryDown?) ==> s.holder != Some(e.t))
            && (e.ClearHolder? ==> s.holder == Some(e.t))
            && (e.TakeHolder? ==> s.holder == None)
            && (e.Up? ==> s.holder == None)
  {
    InitLock();
    LockRuns(Init(1), es);
    var s := Run(Init(1), es).value;
    if e.TakeHolder? || e.Up? {
      assert Inside(s, e.t);
      if s.holder.Some? {
        assert Inside(s, s.holder.value);
      }
    }
  }

  /** No thread is left asleep: while one waits, another is inside or was woken and will test again. */
  lemma NobodyStranded(es: seq<Event>, w: Tid)
    requires OfLocks(es) && Run(Init(1), es).Some? && Pc(Run(Init(1), es).value, w) == Blocked
    ensures exists t :: Inside(Run(Init(1), es).value, t) || Pc(Run(Init(1), es).value, t) == Woken
  {
    InitLock();
    LockRuns(Init(1), es);
    var s := Run(Init(1), es).value;
    if s.value > 0 {
      assert w in s.waiters;
      assert At(s, Woken) != {};
      var t :| t in At(s, Woken);
      assert Pc(s, t) == Woken;
    } else {
      var t :| Inside(s, t);
    }
  }

  /** Wakeups carry no promise of entry: a woken thread can find the semaphore taken by a thread
      that came later, and sleep again. */
  lemma WokenCanLose()
    ensures var es := [Down(0), TakeHolder(0), Down(1), ClearHolder(0), Up(0, 0), Down(2), Down(1)];
            OfLocks(es) && Run(Init(1), es) == Some(State(0, [1], None, map[0 := Outside, 1 := Blocked, 2 := Entered]))
  {
    FirstBlocks();
    WokenAfterUp();
    WokenBlocksAgain();
    hide Run, Step;
    var es, fs, gs := [Down(0), TakeHolder(0), Down(1)], [ClearHolder(0), Up(0, 0)], [Down(2), Down(1)];
    RunConcat(Init(1), es, fs);
    RunConcat(Init(1), es + fs, gs);
    assert es + fs + gs == [Down(0), TakeHolder(0), Down(1), ClearHolder(0), Up(0, 0), Down(2), Down(1)];
  }

  const ONE_WOKEN := State(1, [], None, map[0 := Outside, 1 := Woken])

  const ONE_BLOCKED := State(0, [1], Some(0), map[0 := Holding, 1 := Blocked])

  lemma FirstBlocks()
    ensures Run(Init(1), [Down(0), TakeHolder(0), Down(1)]) == Some(ONE_BLOCKED)
  {
    hide Run;
    var s1 := State(0, [], None, map[0 := Entered]);
    var s2 := State(0, [], Some(0), map[0 := Holding]);
    assert [] + [1] == [1];
    RunEnd(ONE_BLOCKED);
    RunStep(s2, Down(1), [], ONE_BLOCKED);
    RunStep(s1, TakeHolder(0), [Down(1)], s2);
    RunStep(Init(1), Down(0), [TakeHolder(0), Down(1)], s1);
  }

  lemma WokenAfterUp()
    ensures Run(ONE_BLOCKED, [ClearHolder(0), Up(0, 0)]) == Some(ONE_WOKEN)
  {
    hide Run;
    var s4 := State(0, [1], None, map[0 := Leaving, 1 := Blocked]);
    assert [1][..0] + [1][1..] == [];
    RunEnd(ONE_WOKEN);
    RunStep(s4, Up(0, 0), [], ONE_WOKEN);
    RunStep(ONE_BLOCKED, ClearHolder(0), [Up(0, 0)], s4);
  }

  lemma WokenBlocksAgain()
    ensures Run(ONE_WOKEN, [Down(2), Down(1)]) ==
            Some(State(0, [1], None, map[0 := Outside, 1 := Blocked, 2 := Entered]))
  {
    hide Run;
    var s6 := State(0, [], None, map[0 := Outside, 1 := Woken, 2 := Entered]);
    var s7 := State(0, [1], None, map[0 := Outside, 1 := Blocked, 2 := Entered]);
    assert [] + [1] == [1];
    RunEnd(s7);
    RunStep(s6, Down(1), [], s7);
    RunStep(ONE_WOKEN, Down(2), [Down(1)], s6);
  }

  lemma RunEnd(s: State)
    ensures Run(s, []) == Some(s)
  {
  }

  lemma RunStep(s: State, e: Event, es: seq<Event>, s': State)
    requires Enabled(s, e) && Step(s, e) == s'
    ensures forall fs | fs == [e] + es :: Run(s, fs) == Run(s', es)
  {
    assert ([e] + es)[1..] == es;
  }

  lemma {:induction false} RunConcat(s: State, es: seq<Event>, fs: seq<Event>)
    requires Run(s, es).Some?
    ensures Run(s, es + fs) == Run(Run(s, es).value, fs)
    decreases |es|
  {
    if es == [] {
      assert es + fs == fs;
    } else {
      assert (es + fs)[1..] == es[1..] + fs;
      RunConcat(Step(s, es[0]), es[1..], fs);
    }
  }
}
