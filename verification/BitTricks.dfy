/** Bitwise `and` on unsigned integers, as pintos/src/lib/kernel/hash.c uses it. */
module BitTricks {
  import opened Arithmetic

  /** x & y */
  function And(x: nat, y: nat): (r: nat)
    ensures r <= x && r <= y
  {
    if x == 0 || y == 0 then 0 else 2 * And(x / 2, y / 2) + (if x % 2 == 1 && y % 2 == 1 then 1 else 0)
  }

  /** turn_off_least_1bit */
  function TurnOffLeast1Bit(x: nat): nat
    requires x > 0
  {
    And(x, x - 1)
  }

  /** is_power_of_2 */
  predicate IsPowerOf2(x: nat) {
    x != 0 && TurnOffLeast1Bit(x) == 0
  }

  lemma {:induction false} AndSelf(x: nat)
    ensures And(x, x) == x
  {
    if x > 0 {
      AndSelf(x / 2);
    }
  }

  lemma AndPred(x: nat)
    requires x > 0
    ensures TurnOffLeast1Bit(x) == if x % 2 == 1 then x - 1 else 2 * TurnOffLeast1Bit(x / 2)
  {
    if x % 2 == 1 {
      assert (x - 1) / 2 == x / 2;
      AndSelf(x / 2);
    } else {
      assert (x - 1) / 2 == x / 2 - 1;
    }
  }

  lemma {:induction false} PowerPasses(k: nat)
    ensures IsPowerOf2(Pow2(k))
  {
    if k == 0 {
      AndPred(1);
    } else {
      PowerPasses(k - 1);
      hide And;
      var p := Pow2(k - 1);
      AndPred(2 * p);
      assert Pow2(k) == 2 * p && 2 * p / 2 == p;
    }
  }

  lemma {:induction false} PassesIsPower(x: nat) returns (k: nat)
    requires IsPowerOf2(x)
    ensures x == Pow2(k)
  {
    AndPred(x);
    if x == 1 {
      k := 0;
    } else {
      assert x % 2 == 0;
      k := PassesIsPower(x / 2);
      k := k + 1;
    }
  }

  /** The test holds exactly for the powers of two. */
  lemma PowerTest(x: nat)
    ensures IsPowerOf2(x) <==> exists k :: x == Pow2(k)
  {
    if IsPowerOf2(x) {
      var k := PassesIsPower(x);
    }
    if k: nat :| x == Pow2(k) {
      PowerPasses(k);
    }
  }

  /** The greatest power of two up to x. */
  function Top(x: nat): (p: nat)
    requires x > 0
    ensures p <= x < 2 * p
  {
    if x == 1 then 1 else 2 * Top(x / 2)
  }

  lemma {:induction false} TopIsPower(x: nat)
    requires x > 0
    ensures IsPowerOf2(Top(x))
  {
    AndPred(Top(x));
    if x > 1 {
      TopIsPower(x / 2);
    }
  }

  /** Turning off low bits one by one ends at the greatest power of two. */
  lemma {:induction false} TurnOffKeepsTop(x: nat)
    requires x > 0
    ensures IsPowerOf2(x) ==> Top(x) == x
    ensures !IsPowerOf2(x) ==> 0 < TurnOffLeast1Bit(x) < x && Top(TurnOffLeast1Bit(x)) == Top(x)
  {
    AndPred(x);
    if x % 2 == 1 {
      if x > 1 {
        assert (x - 1) / 2 == x / 2;
      }
    } else {
      TurnOffKeepsTop(x / 2);
    }
  }

  lemma ModDouble(h: nat, m: nat)
    requires m > 0
    ensures h % (2 * m) == 2 * (h / 2 % m) + h % 2
  {
    var q, r := h / 2 / m, h / 2 % m;
    assert h / 2 == m * q + r;
    assert h == 2 * (m * q) + (2 * r + h % 2);
    assert 2 * (m * q) == (2 * m) * q;
    ModUnique(h, 2 * m, q, 2 * r + h % 2);
  }

  lemma ModUnique(h: nat, n: nat, q: nat, r: nat)
    requires n > 0 && r < n && h == n * q + r
    ensures h % n == r
  {
    if q < h / n {
      MulStep(n, q, h / n);
    } else if h / n < q {
      MulStep(n, h / n, q);
    }
  }

  lemma {:induction false} MulStep(n: nat, a: nat, b: nat)
    requires a < b
    ensures n * b >= n * a + n
    decreases b
  {
    assert n * b == n * (b - 1) + n;
    if a < b - 1 {
      MulStep(n, a, b - 1);
    }
  }

  /** Masking with a power of two less one is the remainder. */
  lemma {:induction false} MaskIsMod(h: nat, n: nat)
    requires IsPowerOf2(n)
    ensures And(h, n - 1) == h % n
  {
    AndPred(n);
    if n == 1 {
    } else if n % 2 == 0 {
      MaskIsMod(h / 2, n / 2);
      ModDouble(h, n / 2);
      assert (n - 1) / 2 == n / 2 - 1;
      if h == 0 || n - 1 == 0 {
        assert h % n == 0;
      }
    }
  }
}
