/**
 pintos/src/lib/arithmetic.c: 64-bit division built from the x86 instruction that divides
 a 64-bit number by a 32-bit one.

 Machine integers are integers with a range; every operation of the source that can wrap
 around or truncate is written with its wrap-around.
 */
module Arithmetic {

  type uint32 = x: int | 0 <= x < 0x1_0000_0000
  type uint64 = x: int | 0 <= x < 0x1_0000_0000_0000_0000
  type int32 = x: int | -0x8000_0000 <= x < 0x8000_0000
  type int64 = x: int | -0x8000_0000_0000_0000 <= x < 0x8000_0000_0000_0000

  /** Conversion to an unsigned type is reduction modulo its range. */
  function U32(x: int): uint32 { x % 0x1_0000_0000 }

  function U64(x: int): uint64 { x % 0x1_0000_0000_0000_0000 }

  /** Unsigned negation. */
  function Neg64(x: uint64): uint64 { U64(-1 * x) }

  /** Conversion to a signed type keeps the bits (two's complement). */
  function I64(x: int): int64 {
    if U64(x) < 0x8000_0000_0000_0000 then U64(x) else U64(x) - 0x1_0000_0000_0000_0000
  }

  function I32(x: int): int32 {
    if U32(x) < 0x8000_0000 then U32(x) else U32(x) - 0x1_0000_0000
  }

  // Products and quotients have names so that a proof can treat them as unknowns (hide) and
  // call for exactly the facts about them that it needs.

  function Mul(a: int, b: int): int { a * b }

  function Quot(n: nat, d: nat): nat
    requires d > 0
  {
    n / d
  }

  function Rem(n: nat, d: nat): nat
    requires d > 0
  {
    n % d
  }

  function Pow2(k: nat): (r: nat)
    ensures r > 0
  {
    if k == 0 then 1 else 2 * Pow2(k - 1)
  }

  /** Shifts, of unsigned operands as in the source. */
  function Shl32(x: uint32, k: nat): uint32 { U32(Mul(x, Pow2(k))) }

  function Shl64(x: uint64, k: nat): uint64 { U64(Mul(x, Pow2(k))) }

  function Shr(x: nat, k: nat): nat { Quot(x, Pow2(k)) }

  /** The DIVL instruction.  It traps unless the quotient fits in 32 bits: the precondition
      makes every use prove that it does not. */
  function Divl(n: uint64, d: uint32): (q: uint32)
    requires d > 0 && Quot(n, d) < 0x1_0000_0000
    ensures q == Quot(n, d)
  {
    Quot(n, d)
  }

  // ---- facts about products and quotients ----

  lemma NoWrap(x: int)
    ensures 0 <= x < 0x1_0000_0000 ==> U32(x) == x
    ensures 0 <= x < 0x1_0000_0000_0000_0000 ==> U64(x) == x
  {
  }

  lemma MulComm(a: int, b: int)
    ensures Mul(a, b) == Mul(b, a)
  {
  }

  lemma MulAssoc(a: int, b: int, c: int)
    ensures Mul(a, Mul(b, c)) == Mul(Mul(a, b), c)
  {
  }

  lemma MulAdd(a: int, b: int, c: int)
    ensures Mul(a, b + c) == Mul(a, b) + Mul(a, c)
    ensures Mul(b + c, a) == Mul(b, a) + Mul(c, a)
  {
  }

  lemma MulMono(a: nat, b: nat, c: nat)
    requires a <= b
    ensures Mul(a, c) <= Mul(b, c)
    ensures Mul(c, a) <= Mul(c, b)
    ensures a < b && c > 0 ==> Mul(a, c) < Mul(b, c)
  {
  }

  lemma MulByConstants(x: int)
    ensures Mul(x, 0) == 0 && Mul(x, 1) == x && Mul(x, 2) == 2 * x && Mul(x, 4) == 4 * x
    ensures Mul(x, 0x10) == 0x10 * x && Mul(x, 0x100) == 0x100 * x && Mul(x, 0x10000) == 0x10000 * x
    ensures Mul(x, 0x8000_0000) == 0x8000_0000 * x && Mul(x, 0x1_0000_0000) == 0x1_0000_0000 * x
    ensures Mul(x, -1) == -1 * x && Mul(x, 3) == 3 * x
  {
  }

  lemma QuotRem(n: nat, d: nat)
    requires d > 0
    ensures n == Mul(d, Quot(n, d)) + Rem(n, d) && Rem(n, d) < d
  {
  }

  /** t * a <= n < t * b bounds a below b. */
  lemma NotAbove(t: nat, a: int, b: int, n: int)
    requires t > 0 && Mul(t, a) <= n < Mul(t, b)
    ensures a < b
  {
    assert t * (b - a) > 0;
  }

  lemma QuotientUnique(n: nat, d: nat, q: int, r: int)
    requires d > 0 && n == Mul(d, q) + r && 0 <= r < d
    ensures Quot(n, d) == q && Rem(n, d) == r
  {
    QuotRem(n, d);
    MulAdd(d, q, 1);
    MulAdd(d, Quot(n, d), 1);
    MulByConstants(d);
    hide *;
    NotAbove(d, q, Quot(n, d) + 1, n);
    NotAbove(d, Quot(n, d), q + 1, n);
  }

  /** floor(floor(n / a) / b) == floor(n / (a * b)). */
  lemma QuotQuot(n: nat, a: nat, b: nat, ab: nat)
    requires a > 0 && b > 0 && ab == Mul(a, b)
    ensures ab > 0 && Quot(Quot(n, a), b) == Quot(n, ab)
  {
    MulMono(1, b, a);
    MulByConstants(a);
    var m, r := Quot(n, a), Rem(n, a);
    QuotRem(n, a);
    QuotRem(m, b);
    MulAdd(a, Mul(b, Quot(m, b)), Rem(m, b));
    MulAssoc(a, b, Quot(m, b));
    MulMono(Rem(m, b) + 1, b, a);
    MulAdd(a, Rem(m, b), 1);
    hide *;
    QuotientUnique(n, ab, Quot(m, b), Mul(a, Rem(m, b)) + r);
  }

  lemma {:induction false} Pow2Add(a: nat, b: nat)
    ensures Pow2(a + b) == Mul(Pow2(a), Pow2(b))
  {
    if b == 0 {
      MulByConstants(Pow2(a));
    } else {
      Pow2Add(a, b - 1);
      assert a + b - 1 == a + (b - 1);
      assert Pow2(a + b) == 2 * Pow2(a + b - 1) && Pow2(b) == Pow2(b - 1) + Pow2(b - 1);
      MulAdd(Pow2(a), Pow2(b - 1), Pow2(b - 1));
      hide *;
    }
  }

  lemma Pow2Values()
    ensures Pow2(16) == 0x10000 && Pow2(8) == 0x100 && Pow2(4) == 0x10 && Pow2(2) == 4 && Pow2(1) == 2
  {
  }

  lemma Pow2Of32()
    ensures Pow2(32) == 0x1_0000_0000
  {
    Pow2Values();
    hide Pow2;
    Pow2Add(16, 16);
  }

  lemma Pow2Cases(k: nat)
    requires k >= 1
    ensures Pow2(k) == 2 * Pow2(k - 1)
    ensures Pow2(k) == 2 || Pow2(k) == 4 || Pow2(k) >= 8
  {
    if k >= 3 {
      assert Pow2(k) == 8 * Pow2(k - 3);
    }
  }

  lemma QuotIs(n: nat, d: nat)
    requires d > 0
    ensures Quot(n, d) == n / d
  {
  }

  lemma ShiftedHalves(x: uint64)
    ensures Shr(x, 32) == Quot(x, 0x1_0000_0000) == U32(Shr(x, 32))
    ensures Shr(x, 1) == x / 2 < 0x8000_0000_0000_0000
    ensures x == 0x1_0000_0000 * Shr(x, 32) + U32(x)
  {
    Pow2Of32();
    Pow2Values();
    hide Pow2;
  }

  // ---- the number of leading zeros ----

  /** Shifting by `k` more when no bit is lost. */
  lemma ShiftMore(x0: uint32, n: nat, x: uint32, k: nat)
    requires x == Mul(x0, Pow2(n)) && Mul(x, Pow2(k)) < 0x1_0000_0000
    ensures Shl32(x, k) == Mul(x, Pow2(k)) == Mul(x0, Pow2(n + k))
  {
    Pow2Add(n, k);
    MulAssoc(x0, Pow2(n), Pow2(k));
    MulMono(0, x, Pow2(k));
    MulMono(0, 0, Pow2(k));
    MulComm(0, Pow2(k));
    MulByConstants(Pow2(k));
    NoWrap(Mul(x, Pow2(k)));
    hide Pow2, Mul, U32;
  }

  lemma NlzStep(x0: uint32, n: nat, x: uint32, k: nat)
    requires x == Mul(x0, Pow2(n))
    requires (k == 16 && x <= 0x0000FFFF) || (k == 8 && x <= 0x00FFFFFF) || (k == 4 && x <= 0x0FFFFFFF)
             || (k == 2 && x <= 0x3FFFFFFF) || (k == 1 && x <= 0x7FFFFFFF)
    ensures Mul(x0, Pow2(n + k)) ==
            if k == 16 then 0x10000 * x else if k == 8 then 0x100 * x else if k == 4 then 0x10 * x
            else if k == 2 then 4 * x else 2 * x
    ensures Shl32(x, k) == Mul(x0, Pow2(n + k))
  {
    Pow2Values();
    MulByConstants(x);
    hide *;
    ShiftMore(x0, n, x, k);
  }

  lemma NlzStart(x0: uint32)
    ensures Mul(x0, Pow2(0)) == x0
  {
    Pow2Values();
    MulByConstants(x0);
  }

  method Nlz(x0: uint32) returns (n: nat)
    requires x0 != 0
    ensures n <= 31 && 0x8000_0000 <= Mul(x0, Pow2(n)) < 0x1_0000_0000
  {
    hide *;
    var x := x0;
    n := 0;
    NlzStart(x0);
    if x <= 0x0000FFFF {
      NlzStep(x0, n, x, 16);
      n := n + 16;
      x := Shl32(x, 16);
    }
    assert x == Mul(x0, Pow2(n)) && 0x0000FFFF < x && n <= 16;
    if x <= 0x00FFFFFF {
      NlzStep(x0, n, x, 8);
      n := n + 8;
      x := Shl32(x, 8);
    }
    assert x == Mul(x0, Pow2(n)) && 0x00FFFFFF < x && n <= 24;
    if x <= 0x0FFFFFFF {
      NlzStep(x0, n, x, 4);
      n := n + 4;
      x := Shl32(x, 4);
    }
    assert x == Mul(x0, Pow2(n)) && 0x0FFFFFFF < x && n <= 28;
    if x <= 0x3FFFFFFF {
      NlzStep(x0, n, x, 2);
      n := n + 2;
      x := Shl32(x, 2);
    }
    assert x == Mul(x0, Pow2(n)) && 0x3FFFFFFF < x && n <= 30;
    if x <= 0x7FFFFFFF {
      NlzStep(x0, n, x, 1);
      n := n + 1;
    }
  }

  // ---- unsigned division ----

  /** The proof of correctness in the comment of udiv64, first case: divide the high digit
      and carry its remainder into the low digit. */
  lemma SmallDivisor(n: uint64, d: uint32, n1: uint32, n0: uint32)
    requires 0 < d && n == 0x1_0000_0000 * n1 + n0
    ensures var m := U64(0x1_0000_0000 * Rem(n1, d) + n0);
            && Quot(m, d) < 0x1_0000_0000
            && U64(Quot(m, d) + 0x1_0000_0000 * Quot(n1, d)) == Quot(n, d)
  {
    var h, c := Quot(n1, d), Rem(n1, d);
    var m := 0x1_0000_0000 * c + n0;
    var q, r := Quot(m, d), Rem(m, d);
    QuotRem(n1, d);
    QuotRem(m, d);
    MulByConstants(d);
    MulAdd(d, q, 0x1_0000_0000 * h);
    MulConst(d, h);
    NoWrap(m);
    NoWrap(q + 0x1_0000_0000 * h);
    hide *;
    assert 0 <= m < 0x1_0000_0000 * d;
    NotAbove(d, q, 0x1_0000_0000, m);
    QuotientUnique(n, d, q + 0x1_0000_0000 * h, r);
    QuotientFits(n, d);
  }

  lemma MulConst(d: int, h: int)
    ensures Mul(d, 0x1_0000_0000 * h) == 0x1_0000_0000 * Mul(d, h)
    ensures Mul(0x1_0000_0000 * d, h) == 0x1_0000_0000 * Mul(d, h)
  {
  }

  lemma QuotientFits(n: nat, d: nat)
    requires d > 0
    ensures Quot(n, d) <= n
  {
    QuotRem(n, d);
    MulMono(1, d, Quot(n, d));
    MulComm(1, Quot(n, d));
    MulByConstants(Quot(n, d));
    hide *;
  }

  /** Shifting the divisor so that its top bit is set, then keeping its upper half, drops
      exactly the low 32 - s bits of the divisor. */
  lemma NormalizedDivisor(d: uint64, d1: uint32, s: nat)
    requires s <= 31 && d1 == Shr(d, 32)
    requires 0x8000_0000 <= Mul(d1, Pow2(s)) < 0x1_0000_0000
    ensures Shr(Shl64(d, s), 32) == Quot(d, Pow2(32 - s))
    ensures 0x8000_0000 <= Quot(d, Pow2(32 - s)) < 0x1_0000_0000
  {
    var p, e := Pow2(32 - s), Pow2(s);
    Pow2Add(32 - s, s);
    Pow2Of32();
    ShiftedHalves(d);
    ShiftedHalves(Shl64(d, s));
    QuotRem(d, p);
    var v, r := Quot(d, p), Rem(d, p);
    // d * e == 2^32 * v + r * e, with the last summand below 2^32
    MulAdd(e, Mul(p, v), r);
    MulAssoc(e, p, v);
    MulComm(e, p);
    MulComm(0x1_0000_0000, v);
    MulByConstants(v);
    RemainderScaled(p, e, r);
    MulComm(d, e);
    MulComm(r, e);
    ScaledFits(d, p, e, d1, U32(d));
    assert Shl64(d, s) == Mul(d, e) by { NoWrap(Mul(d, e)); }
    assert Mul(d, e) == 0x1_0000_0000 * v + Mul(r, e);
    MulComm(v, 0x1_0000_0000);
    hide *;
    QuotientUnique(Mul(d, e), 0x1_0000_0000, v, Mul(r, e));
  }

  lemma RemainderScaled(p: nat, e: nat, r: nat)
    requires Mul(p, e) == 0x1_0000_0000 && r < p
    ensures e > 0 && p > 0 && 0 <= Mul(r, e) < 0x1_0000_0000
  {
    MulByConstants(p);
    MulMono(0, r, e);
    MulMono(r, p, e);
  }

  /** A shift that leaves the top half of d in 32 bits leaves d in 64 bits, and sets its top bit. */
  lemma ScaledFits(d: uint64, p: nat, e: nat, d1: nat, d0: nat)
    requires Mul(p, e) == 0x1_0000_0000 && e > 0
    requires d == 0x1_0000_0000 * d1 + d0 && d0 < 0x1_0000_0000
    requires 0x8000_0000 <= Mul(d1, e) < 0x1_0000_0000
    ensures 0x8000_0000_0000_0000 <= Mul(d, e) < 0x1_0000_0000_0000_0000
  {
    MulComm(e, d1);
    MulComm(e, p);
    MulAdd(e, d1, 1);
    MulMono(0, d0, e);
    MulMono(d0, 0x1_0000_0000, e);
    MulAdd(e, 0x1_0000_0000 * d1, d0);
    MulConst(d1, e);
    MulByConstants(e);
    MulComm(0x1_0000_0000, e);
    MulComm(1, e);
    MulComm(0, e);
    hide *;
    NotAbove(e, d1, p, Mul(d1, e));
    MulMono(d1 + 1, p, e);
    assert Mul(d1, e) + e <= 0x1_0000_0000;
  }

  /** The estimate from the top bits of the divisor: with d == t + r and t == v * p the
      quotient by t is the right one or one too large. */
  lemma EstimateWithinOne(n: uint64, d: uint64, v: nat, p: nat, r: nat, t: nat)
    requires p == 2 || p == 4 || p >= 8
    requires p <= 0x1_0000_0000 && t == Mul(v, p) && d == t + r && r < p && 0x8000_0000 <= v
    ensures t > 0 && Quot(n, d) <= Quot(n, t) <= Quot(n, d) + 1
  {
    MulMono(0x8000_0000, v, p);
    MulByConstants(p);
    MulComm(p, 0x8000_0000);
    hide *;
    var k, q := Quot(n, d), Quot(n, t);
    QuotRem(n, d);
    QuotRem(n, t);
    MulMono(t, d, k);
    QuotientSmall(n, t, v, p, k);
    EstimateSlack(d, k, p, r);
    // d * (k + 2) == t * (k + 2) + r * (k + 2) and d * (k + 2) == d * k + 2 * d
    MulAdd(k + 2, t, r);
    MulAdd(d, k, 2);
    MulByConstants(d);
    MulAdd(t, q, 1);
    MulByConstants(t);
    NotAbove(t, q, k + 2, n);
    NotAbove(t, k, q + 1, n);
  }

  lemma QuotientSmall(n: uint64, t: nat, v: nat, p: nat, k: nat)
    requires t == Mul(v, p) && Mul(t, k) <= n && 0x8000_0000 <= v
    ensures Mul(p, k) < 0x2_0000_0000
  {
    MulAssoc(v, p, k);
    MulMono(0, p, k);
    MulByConstants(k);
    MulComm(0, k);
    MulMono(0x8000_0000, v, Mul(p, k));
    MulByConstants(Mul(p, k));
    MulComm(0x8000_0000, Mul(p, k));
    hide *;
  }

  lemma EstimateSlack(d: nat, k: nat, p: nat, r: nat)
    requires p == 2 || p == 4 || p >= 8
    requires p <= 0x1_0000_0000 && r < p && Mul(p, k) < 0x2_0000_0000 && d >= 0x8000_0000 * p + r
    ensures Mul(r, k + 2) <= d
  {
    MulByConstants(k);
    MulByConstants(k + 2);
    MulComm(0, k + 2);
    MulComm(1, k + 2);
    MulComm(2, k);
    MulComm(3, k + 2);
    MulComm(4, k);
    if p == 2 {
      assert r == 0 || r == 1;
    } else if p == 4 {
      MulMono(r, 3, k + 2);
      hide *;
    } else {
      MulMono(r, p, k + 2);
      MulAdd(p, k, 2);
      MulByConstants(p);
      hide *;
    }
  }

  /** The second case: the estimate by the normalized divisor is right or one too large. */
  lemma BigDivisor(n: uint64, d: uint64, d1: uint32, s: nat)
    requires s <= 31 && d1 == Shr(d, 32)
    requires 0x8000_0000 <= Mul(d1, Pow2(s)) < 0x1_0000_0000
    ensures var v := U32(Shr(Shl64(d, s), 32));
            && 0 < v && d > 0
            && Shr(n, 1) < 0x8000_0000_0000_0000
            && Quot(Shr(n, 1), v) < 0x1_0000_0000
            && Quot(n, d) <= Shr(Quot(Shr(n, 1), v), 31 - s) <= Quot(n, d) + 1
  {
    NormalizedDivisor(d, d1, s);
    Pow2Cases(32 - s);
    Pow2Add(32 - s, s);
    Pow2Of32();
    ShiftedHalves(n);
    Pow2Values();
    NoWrap(Quot(d, Pow2(32 - s)));
    assert Shr(n, 1) == Quot(n, 2);
    var v := U32(Shr(Shl64(d, s), 32));
    assert v == Quot(d, Pow2(32 - s));
    assert Shr(Quot(Shr(n, 1), v), 31 - s) == Quot(Quot(Shr(n, 1), v), Pow2(31 - s));
    hide *;
    EstimateByShifts(n, d, Pow2(32 - s), Pow2(31 - s), Pow2(s), v);
  }

  lemma EstimateByShifts(n: uint64, d: uint64, p: nat, h: nat, e: nat, v: nat)
    requires p == 2 * h && (p == 2 || p == 4 || p >= 8) && Mul(p, e) == 0x1_0000_0000
    requires v == Quot(d, p) && 0x8000_0000 <= v < 0x1_0000_0000
    requires Quot(n, 2) < 0x8000_0000_0000_0000
    ensures d > 0
    ensures Quot(Quot(n, 2), v) < 0x1_0000_0000
    ensures Quot(n, d) <= Quot(Quot(Quot(n, 2), v), h) <= Quot(n, d) + 1
  {
    QuotientFits(d, p);
    QuotRem(d, p);
    MulComm(p, v);
    hide *;
    EstimateDivisors(n, v, p, h, Mul(v, p));
    DivisorNotTooWide(p, e);
    EstimateWithinOne(n, d, v, p, Rem(d, p), Mul(v, p));
    HalfQuotientFits(Quot(n, 2), v);
  }

  lemma EstimateDivisors(n: nat, v: nat, p: nat, h: nat, t: nat)
    requires v > 0 && h > 0 && p == 2 * h && t == Mul(v, p)
    ensures t > 0 && Quot(Quot(Quot(n, 2), v), h) == Quot(n, t)
  {
    MulByConstants(v);
    MulComm(2, v);
    MulByConstants(h);
    MulComm(2, h);
    MulAssoc(v, 2, h);
    hide *;
    QuotQuot(n, 2, v, 2 * v);
    QuotQuot(n, 2 * v, h, t);
  }

  lemma DivisorNotTooWide(p: nat, e: nat)
    requires Mul(p, e) == 0x1_0000_0000
    ensures p <= 0x1_0000_0000
  {
    MulByConstants(p);
    assert e != 0;
    MulMono(1, e, p);
  }

  lemma HalfQuotientFits(m: nat, v: nat)
    requires m < 0x8000_0000_0000_0000 && 0x8000_0000 <= v
    ensures Quot(m, v) < 0x1_0000_0000
  {
    QuotRem(m, v);
    MulMono(0x8000_0000, v, 0x1_0000_0000);
    MulByConstants(0x8000_0000);
    hide *;
    NotAbove(v, Quot(m, v), 0x1_0000_0000, m);
  }

  /** With an estimate that is right or one too large, the comparison tells which. */
  lemma QuotientCorrection(n: uint64, d: uint64, q: nat)
    requires 0 < d <= n && Quot(n, d) <= q <= Quot(n, d) + 1
    ensures 1 <= q
    ensures Quot(n, d) == if U64(n - U64(Mul(q - 1, d))) < d then q - 1 else q
  {
    var k := Quot(n, d);
    QuotRem(n, d);
    MulAdd(d, k - 1, 1);
    MulAdd(d, k, 1);
    MulByConstants(d);
    MulComm(k, d);
    MulComm(k - 1, d);
    NoWrap(Mul(q - 1, d));
    NoWrap(n - Mul(q - 1, d));
    hide *;
    NotAbove(d, 0, k + 1, n);
    MulMono(0, k - 1, d);
    MulComm(0, d);
  }

  /** Divides unsigned 64-bit N by unsigned 64-bit D. */
  method Udiv64(n: uint64, d: uint64) returns (q: uint64)
    requires d != 0
    ensures q == n / d
  {
    hide *;
    ShiftedHalves(n);
    ShiftedHalves(d);
    QuotIs(n, d);
    if Shr(d, 32) == 0 {
      var b := 0x1_0000_0000;
      var n1: uint32 := U32(Shr(n, 32));
      var n0: uint32 := U32(n);
      var d0: uint32 := U32(d);
      SmallDivisor(n, d0, n1, n0);
      q := U64(Divl(U64(b * Rem(n1, d0) + n0), d0) + b * Quot(n1, d0));
    } else if n < d {
      MulByConstants(d);
      QuotientUnique(n, d, 0, n);
      q := 0;
    } else {
      var d1: uint32 := U32(Shr(d, 32));
      var s := Nlz(d1);
      BigDivisor(n, d, d1, s);
      q := Shr(Divl(Shr(n, 1), U32(Shr(Shl64(d, s), 32))), 31 - s);
      QuotientCorrection(n, d, q);
      q := if U64(n - U64(Mul(q - 1, d))) < d then q - 1 else q;
    }
  }

  /** Divides unsigned 64-bit N by unsigned 64-bit D and returns the low 32 bits of the
      remainder: the exact remainder exactly when it fits, in particular for D up to 2^32. */
  method Umod64(n: uint64, d: uint64) returns (r: uint32)
    requires d != 0
    ensures r == (n % d) % 0x1_0000_0000
    ensures r == n % d <==> n % d < 0x1_0000_0000
    ensures d <= 0x1_0000_0000 ==> r == n % d
  {
    var q := Udiv64(n, d);
    QuotRem(n, d);
    assert Rem(n, d) == n % d && Quot(n, d) == n / d;
    RemainderWraps(n, Mul(d, q), Rem(n, d));
    r := U32(U64(n - U64(Mul(d, q))));
    hide Mul, Quot, U64, U32;
  }

  lemma RemainderWraps(n: uint64, p: int, r: nat)
    requires n == p + r && r <= n
    ensures U32(U64(n - U64(p))) == r % 0x1_0000_0000
  {
  }

  // ---- signed division ----

  function Abs(x: int): nat { if x < 0 then -x else x }

  /** Division as section 6.5.5 of ISO C99 defines it: truncation toward zero. */
  function TruncDiv(n: int, d: int): int
    requires d != 0
  {
    if (n < 0) == (d < 0) then Quot(Abs(n), Abs(d)) else -1 * Quot(Abs(n), Abs(d))
  }

  /** The remainder that goes with TruncDiv. */
  function TruncMod(n: int, d: int): int
    requires d != 0
  {
    n - Mul(d, TruncDiv(n, d))
  }

  /** ... has the sign of the dividend and is smaller than the divisor. */
  lemma TruncModSign(n: int, d: int)
    requires d != 0
    ensures Abs(TruncMod(n, d)) < Abs(d)
    ensures TruncMod(n, d) == if n >= 0 then Rem(Abs(n), Abs(d)) else -1 * Rem(Abs(n), Abs(d))
  {
    QuotRem(Abs(n), Abs(d));
    SignedProduct(d, Quot(Abs(n), Abs(d)));
    hide Mul, Quot, Rem;
  }

  lemma SignedProduct(d: int, q: nat)
    ensures Mul(d, q) == if d >= 0 then Mul(Abs(d), q) else -1 * Mul(Abs(d), q)
    ensures Mul(d, -1 * q) == if d >= 0 then -1 * Mul(Abs(d), q) else Mul(Abs(d), q)
  {
    if d < 0 {
      MulMinus(-1 * d, q);
    } else {
      MulMinus(d, q);
    }
  }

  lemma MulMinus(d: int, q: int)
    ensures Mul(-1 * d, q) == -1 * Mul(d, q) == Mul(d, -1 * q)
    ensures Mul(-1 * d, -1 * q) == Mul(d, q)
  {
  }

  lemma SignedAbs(x: int64)
    ensures (if x >= 0 then U64(x) else Neg64(U64(x))) == Abs(x)
  {
  }

  lemma QuotientRange(n: int64, d: int64, q: nat)
    requires d != 0 && q == Quot(Abs(n), Abs(d))
    ensures q <= 0x8000_0000_0000_0000
    ensures q == 0x8000_0000_0000_0000 <==> n == -0x8000_0000_0000_0000 && Abs(d) == 1
  {
    QuotRem(Abs(n), Abs(d));
    QuotientFits(Abs(n), Abs(d));
    MulByConstants(q);
    MulComm(q, 2);
    MulComm(q, 1);
    if Abs(d) >= 2 {
      MulMono(2, Abs(d), q);
    }
    hide Mul, Quot, Rem;
  }

  /** Converting the quotient's magnitude and giving it its sign. */
  lemma SignedResult(q: nat)
    requires q <= 0x8000_0000_0000_0000
    ensures I64(q) == if q < 0x8000_0000_0000_0000 then q else -1 * q
    ensures I64(-1 * I64(q)) == -1 * q
  {
  }

  /** Divides signed 64-bit N by signed 64-bit D.  The one pair of operands whose quotient
      does not fit, and is not computed, is the least integer and -1. */
  method Sdiv64(n: int64, d: int64) returns (q: int64)
    requires d != 0
    ensures q == TruncDiv(n, d) <==> !(n == -0x8000_0000_0000_0000 && d == -1)
    ensures n == -0x8000_0000_0000_0000 && d == -1 ==> q == n
  {
    var nAbs: uint64 := if n >= 0 then U64(n) else Neg64(U64(n));
    var dAbs: uint64 := if d >= 0 then U64(d) else Neg64(U64(d));
    SignedAbs(n);
    SignedAbs(d);
    var qAbs := Udiv64(nAbs, dAbs);
    assert qAbs == Quot(Abs(n), Abs(d));
    QuotientRange(n, d, qAbs);
    SignedResult(qAbs);
    hide U64, I64, Neg64, Quot;
    q := if (n < 0) == (d < 0) then I64(qAbs) else I64(-1 * I64(qAbs));
  }

  /** Divides signed 64-bit N by signed 64-bit D and returns the low 32 bits of the
      remainder, which is the remainder itself exactly when it fits. */
  method Smod64(n: int64, d: int64) returns (r: int32)
    requires d != 0
    ensures r == I32(TruncMod(n, d))
    ensures r == TruncMod(n, d) <==> -0x8000_0000 <= TruncMod(n, d) < 0x8000_0000
  {
    var q := Sdiv64(n, d);
    SignedRemainder(n, d, q);
    FitsInt32(TruncMod(n, d));
    hide *;
    r := I32(I64(n - Mul(d, q)));
  }

  lemma FitsInt32(x: int)
    ensures I32(x) == x <==> -0x8000_0000 <= x < 0x8000_0000
  {
  }

  lemma WrapTwice(x: int)
    ensures I32(I64(x)) == I32(x)
  {
    var j := x / 0x1_0000_0000_0000_0000;
    assert U64(x) == x - 0x1_0000_0000_0000_0000 * j;
    if I64(x) == U64(x) {
      SameLowBits(x, 0x1_0000_0000 * j);
    } else {
      SameLowBits(x, 0x1_0000_0000 * j + 0x1_0000_0000);
    }
    hide U32, U64;
  }

  lemma SameLowBits(x: int, m: int)
    ensures U32(x - 0x1_0000_0000 * m) == U32(x)
  {
    var q := x / 0x1_0000_0000;
    assert x - 0x1_0000_0000 * m == 0x1_0000_0000 * (q - m) + x % 0x1_0000_0000;
  }

  lemma SignedRemainder(n: int64, d: int64, q: int64)
    requires d != 0
    requires q == TruncDiv(n, d) || (n == -0x8000_0000_0000_0000 && d == -1 && q == n)
    ensures I32(I64(n - Mul(d, q))) == I32(TruncMod(n, d))
  {
    if q == TruncDiv(n, d) {
      WrapTwice(TruncMod(n, d));
    } else {
      MulByConstants(n);
      MulComm(n, -1);
      assert TruncDiv(n, d) == 0x8000_0000_0000_0000;
      MulByConstants(TruncDiv(n, d));
      MulComm(TruncDiv(n, d), -1);
      assert TruncMod(n, d) == 0;
      WrapTwice(2 * n);
    }
  }
}
