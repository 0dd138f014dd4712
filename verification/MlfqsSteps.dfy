/**
 What the formulas of the multi-level feedback scheduler of pintos/src/threads/thread.c mean: how
 far each is from the exact rational value, and which of them a tick applies to a thread.
 */
module MlfqsSteps {
  import opened Arithmetic
  import opened Mlfqs
  import opened Wrappers

  // ---- division ----

  /** What a truncating division leaves over. */
  lemma TruncRest(x: int, d: int) returns (r: int)
    requires d > 0
    ensures x == d * TruncDiv(x, d) + r && -d < r < d
    ensures (x > 0 ==> r >= 0) && (x < 0 ==> r <= 0) && (x == 0 ==> r == 0)
  {
    TruncDivIs(x, d);
    if x >= 0 {
      r := x % d;
    } else {
      r := -(-x % d);
      assert d * -(-x / d) == -(d * (-x / d));
    }
  }

  // ---- the priority ----

  /** For these the conversion to int does not wrap around. */
  predicate Convertible(recent: int) {
    -0x8000_0000 * 4 * F <= recent < 0x8000_0000 * 4 * F
  }

  /** p is PRI_MAX - recent_cpu / 4 - nice * 2, within one of the exact value and towards PRI_MAX -
      nice * 2; it is cut off at the ends. */
  ghost predicate PriorityFor(p: int, recent: int, nice: int) {
    && PRI_MIN <= p <= PRI_MAX
    && (PRI_MIN < p < PRI_MAX && recent >= 0 ==> 0 <= recent - 4 * F * (PRI_MAX - 2 * nice - p) < 4 * F)
    && (PRI_MIN < p < PRI_MAX && recent <= 0 ==> -4 * F < recent - 4 * F * (PRI_MAX - 2 * nice - p) <= 0)
    && (p == PRI_MAX <==> if nice <= 0 then recent < 4 * F * (1 - 2 * nice) else recent <= 4 * F * (-2 * nice))
    && (p == PRI_MIN <==> if PRI_MAX > 2 * nice then recent >= 4 * F * (PRI_MAX - 2 * nice)
                          else recent > 4 * F * (PRI_MAX - 2 * nice - 1))
  }

  lemma QuarterSteps(recent: int) returns (q: int, r: int)
    requires Convertible(recent)
    ensures q == ToInt(TruncDiv(recent, 4))
    ensures recent == 4 * F * q + r && -4 * F < r < 4 * F
    ensures (recent > 0 ==> r >= 0) && (recent < 0 ==> r <= 0)
  {
    var r4 := TruncRest(recent, 4);
    var rF := TruncRest(TruncDiv(recent, 4), F);
    q := TruncDiv(TruncDiv(recent, 4), F);
    r := 4 * rF + r4;
    FitsInt32(q);
  }

  lemma PriorityIs(recent: int, nice: int)
    requires Convertible(recent)
    ensures PriorityFor(NewPriority(recent, nice), recent, nice)
  {
    var q, r := QuarterSteps(recent);
    hide ToInt, TruncDiv;
    var v := PRI_MAX - q - nice * 2;
    assert recent == 4 * F * (PRI_MAX - 2 * nice - v) + r;
    assert NewPriority(recent, nice) == Clamp(v);
    hide NewPriority;
    HighEnd(v, recent, nice, r);
    LowEnd(v, recent, nice, r);
  }

  lemma HighEnd(v: int, recent: int, nice: int, r: int)
    requires recent == 4 * F * (PRI_MAX - 2 * nice - v) + r && -4 * F < r < 4 * F
    requires (recent > 0 ==> r >= 0) && (recent < 0 ==> r <= 0)
    ensures v >= PRI_MAX <==> if nice <= 0 then recent < 4 * F * (1 - 2 * nice) else recent <= 4 * F * (-2 * nice)
  {
  }

  lemma LowEnd(v: int, recent: int, nice: int, r: int)
    requires recent == 4 * F * (PRI_MAX - 2 * nice - v) + r && -4 * F < r < 4 * F
    requires (recent > 0 ==> r >= 0) && (recent < 0 ==> r <= 0)
    ensures v <= PRI_MIN <==> if PRI_MAX > 2 * nice then recent >= 4 * F * (PRI_MAX - 2 * nice)
                              else recent > 4 * F * (PRI_MAX - 2 * nice - 1)
  {
  }

  /** These conditions leave one priority. */
  lemma PriorityUnique(p: int, p': int, recent: int, nice: int)
    requires PriorityFor(p, recent, nice) && PriorityFor(p', recent, nice)
    ensures p == p'
  {
  }

  /** A thread that is nicer, or has used more of the processor, never has the greater priority. */
  lemma PriorityFalls(recent: int, nice: int, recent': int, nice': int)
    requires Convertible(recent) && Convertible(recent') && recent <= recent' && nice <= nice'
    ensures NewPriority(recent', nice') <= NewPriority(recent, nice)
  {
    var q, r := QuarterSteps(recent);
    var q', r' := QuarterSteps(recent');
    hide ToInt, TruncDiv;
    QuotientsGrow(recent, q, r, recent', q', r');
  }

  lemma QuotientsGrow(x: int, q: int, r: int, x': int, q': int, r': int)
    requires x == 4 * F * q + r && -4 * F < r < 4 * F && (x > 0 ==> r >= 0) && (x < 0 ==> r <= 0)
    requires x' == 4 * F * q' + r' && -4 * F < r' < 4 * F && (x' > 0 ==> r' >= 0) && (x' < 0 ==> r' <= 0)
    requires x <= x'
    ensures q <= q'
  {
  }

  // ---- the load average ----

  /** The new load average is 59/60 of the old one and 1/60 of the ready threads, less a rounding
      error below one unit, 14/15 of a unit per whole of the load, and 1/15 of a unit per thread. */
  ghost predicate LoadFor(load': int, load: int, ready: nat) {
    0 <= F * (59 * load + F * ready - 60 * load') < 60 * F + 56 * load + 4 * F * ready
  }

  lemma LoadIs(load: nat, ready: nat)
    ensures LoadFor(NewLoad(load, ready), load, ready)
  {
    Weights();
    var r := TruncRest(16110 * load, F);
  }

  // ---- recent_cpu ----

  /** The new recent_cpu is 2 * load / (2 * load + 1) of the old one, and nice.  The two divisions
      lose less than recent_cpu / 2^14 + 1 units, towards zero. */
  ghost predicate RecentFor(recent': int, recent: int, load: int, nice: int) {
    var gap := 2 * load * recent - (2 * load + F) * (recent' - nice * F);
    if recent >= 0 then 0 <= F * gap < (2 * load + F) * (recent + F)
    else 0 <= F * -gap < (2 * load + F) * (-recent + F)
  }

  lemma RecentIs(load: nat, recent: int, nice: int)
    ensures RecentFor(NewRecent(load, recent, nice), recent, load, nice)
  {
    var d := 2 * load + F;
    var r1 := TruncRest(load * 2 * F, d);
    var c := Decay(load);
    var r2 := TruncRest(c * recent, F);
    hide TruncDiv;
    var t := FixMul(c, recent);
    assert NewRecent(load, recent, nice) == t + nice * F;
    TwoRests(load, d, c, r1, recent, t, r2);
  }

  lemma TwoRests(load: nat, d: nat, c: int, r1: int, x: int, t: int, r2: int)
    requires d == 2 * load + F && load * 2 * F == d * c + r1 && 0 <= r1 < d
    requires c * x == F * t + r2 && -F < r2 < F && (x >= 0 ==> r2 >= 0) && (x <= 0 ==> r2 <= 0)
    ensures var gap := 2 * load * x - d * t;
            if x >= 0 then 0 <= F * gap < d * (x + F) else 0 <= F * -gap < d * (-x + F)
  {
    Gap(load, d, c, r1, x, c * x, t, r2);
    var gap := 2 * load * x - d * t;
    if x >= 0 {
      Within(r1, x, d, r2);
    } else {
      Within(r1, -x, d, -r2);
      Negated(r1, x);
      Negated(d, r2);
    }
  }

  lemma Negated(a: int, b: int)
    ensures a * -b == -(a * b)
  {
  }

  lemma Assoc(a: int, b: int, c: int)
    ensures a * b * c == a * (b * c)
  {
  }

  lemma Gap(load: nat, d: nat, c: int, r1: int, x: int, cx: int, t: int, r2: int)
    requires load * 2 * F == d * c + r1 && cx == c * x && cx == F * t + r2
    ensures F * (2 * load * x - d * t) == r1 * x + d * r2
  {
    Assoc(F, 2 * load, x);
    assert load * 2 * F * x == (d * c + r1) * x;
    Distribute(d * c, r1, x);
    Assoc(d, c, x);
    Distribute(F * t, r2, d);
    Assoc(F, t, d);
  }

  lemma Within(r1: nat, x: nat, d: nat, r2: nat)
    requires r1 < d && r2 < F
    ensures 0 <= r1 * x + d * r2 < d * (x + F)
  {
    LeMul(r1, d, x);
    LeMul(r2, F - 1, d);
    NonNegative(r1, x);
    NonNegative(d, r2);
    assert d * (x + F) == d * x + d * (F - 1) + d;
  }

  // ---- a tick ----

  /** What the processor time of thread t is once the tick has been charged. */
  function Charged(s: State, running: Option<Tid>, t: Tid): int
    requires t in s.threads
  {
    s.threads[t].recent + if running == Some(t) then F else 0
  }

  /** A tick charges the running thread.  Each second the load average is renewed from the ready
      threads and the running one, and then every recent_cpu from it; every fourth tick the
      priorities follow the recent_cpu from before that. */
  lemma TickOutcome(s: State, running: Option<Tid>, ready: seq<Tid>, n: nat)
    requires Inv(s, n) && Enabled(s, Event.Tick(running, ready), n)
    ensures TickLoad(s, running, ready) >= 0
    ensures var s' := Step(s, Event.Tick(running, ready));
            && s'.time == s.time + 1 && s'.threads.Keys == s.threads.Keys
            && (if s'.time % TIMER_FREQ != 0 then s'.load == s.load
                else LoadFor(s'.load, s.load, |ready| + if running == None then 0 else 1))
  {
    TickLoadBound(s, running, ready, n);
    LoadIs(s.load, ReadyCount(running, ready));
    hide Inv, NewLoad, LoadFor, TickOne;
  }

  lemma TickThreadOutcome(s: State, running: Option<Tid>, ready: seq<Tid>, n: nat, t: Tid)
    requires Inv(s, n) && Enabled(s, Event.Tick(running, ready), n) && t in s.threads
    requires Convertible(Charged(s, running, t))
    ensures TickLoad(s, running, ready) >= 0
    ensures var s' := Step(s, Event.Tick(running, ready));
            && t in s'.threads && s'.threads[t].nice == s.threads[t].nice
            && (if s'.time % 4 != 0 then s'.threads[t].priority == s.threads[t].priority
                else PriorityFor(s'.threads[t].priority, Charged(s, running, t), s.threads[t].nice))
            && (if s'.time % TIMER_FREQ != 0 then s'.threads[t].recent == Charged(s, running, t)
                else RecentFor(s'.threads[t].recent, Charged(s, running, t), s'.load, s.threads[t].nice))
  {
    TickLoadBound(s, running, ready, n);
    var x := Charged(s, running, t);
    PriorityIs(x, s.threads[t].nice);
    RecentIs(TickLoad(s, running, ready), x, s.threads[t].nice);
    assert Charge(s.threads, running)[t] == s.threads[t].(recent := x);
    hide Inv, NewRecent, NewPriority, PriorityFor, RecentFor, TickLoad, Charge;
  }

  /** With up to 2^20 threads the conversion never wraps around. */
  lemma Converts(s: State, running: Option<Tid>, n: nat, t: Tid)
    requires Inv(s, n) && n <= 0x10_0000 && t in s.threads
    ensures Convertible(Charged(s, running, t))
  {
    assert CpuOk(s.threads[t], n, s.time % TIMER_FREQ);
  }
}
