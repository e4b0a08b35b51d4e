/** Linear congruential generators modulo a power of two: closed form and full period. */
module Lcg {
  import opened Powers
  import opened Bits

  ghost function Power(a: nat, n: nat): nat
  {
    if n == 0 then 1 else a * Power(a, n - 1)
  }

  /** 1 + a + ... + a^(n-1). */
  ghost function Geometric(a: nat, n: nat): nat
  {
    if n == 0 then 0 else a * Geometric(a, n - 1) + 1
  }

  ghost function Next(a: nat, b: nat, k: nat, x: nat): nat
  {
    Rem(a * x + b, Pow2(k))
  }

  /** The state after n steps from x, modulo 2^k. */
  ghost function State(a: nat, b: nat, k: nat, x: nat, n: nat): nat
  {
    if n == 0 then x else Next(a, b, k, State(a, b, k, x, n - 1))
  }

  // ---------- truncation is a congruence ----------

  lemma SameModAffine(a: nat, b: nat, x: nat, y: nat, p: nat)
    requires 0 < p && x % p == y % p
    ensures (a * x + b) % p == (a * y + b) % p
  {
    ModMulRight(a, x, p);
    ModMulRight(a, y, p);
    ModAddLeft(a * x, b, p);
    ModAddLeft(a * y, b, p);
  }

  lemma SameRemAffine(a: nat, b: nat, x: nat, y: nat, p: nat)
    requires 0 < p && Rem(x, p) == Rem(y, p)
    ensures Rem(a * x + b, p) == Rem(a * y + b, p)
  {
    RemIsMod(x, p);
    RemIsMod(y, p);
    SameModAffine(a, b, x, y, p);
    RemIsMod(a * x + b, p);
    RemIsMod(a * y + b, p);
  }

  /** A step depends on the state modulo 2^k only. */
  lemma SameStep(a: nat, b: nat, k: nat, s: nat, t: nat)
    requires Rem(s, Pow2(k)) == Rem(t, Pow2(k))
    ensures Next(a, b, k, s) == Next(a, b, k, t)
  {
    SameRemAffine(a, b, s, t, Pow2(k));
  }

  lemma NextInRange(a: nat, b: nat, k: nat, s: nat)
    ensures Next(a, b, k, s) == Rem(Next(a, b, k, s), Pow2(k)) < Pow2(k)
  {
    RemIsMod(a * s + b, Pow2(k));
    RemTwice(a * s + b, Pow2(k));
  }

  lemma RemIsLow(x: nat, k: nat)
    ensures Rem(x, Pow2(k)) == Low(x, k)
  {
    RemIsMod(x, Pow2(k));
    LowIsMod(x, k);
  }

  lemma {:induction false} LowAbsorbs(y: nat, z: nat, k: nat)
    ensures Low(y + z, k) == Low(y, k) <==> Low(z, k) == 0
    decreases k
  {
    if k == 0 {
    } else {
      if z % 2 == 0 {
        assert (y + z) / 2 == y / 2 + z / 2;
        LowAbsorbs(y / 2, z / 2, k - 1);
      }
    }
  }

  // ---------- closed form ----------

  /** a^n x + b (1 + a + ... + a^(n-1)). */
  ghost function Affine(a: nat, b: nat, x: nat, n: nat): nat
  {
    Power(a, n) * x + b * Geometric(a, n)
  }

  lemma AffineStep(a: nat, b: nat, x: nat, n: nat)
    requires 0 < n
    ensures Affine(a, b, x, n) == a * Affine(a, b, x, n - 1) + b
  {
    var p, g := Power(a, n - 1), Geometric(a, n - 1);
    calc {
      a * (p * x + b * g) + b;
      a * (p * x) + a * (b * g) + b;
      (a * p) * x + b * (a * g) + b;
      (a * p) * x + b * (a * g + 1);
    }
  }

  /** The state after n steps is the affine function of the seed, modulo 2^k. */
  lemma {:induction false} ClosedForm(a: nat, b: nat, k: nat, x: nat, n: nat)
    ensures Rem(State(a, b, k, x, n), Pow2(k)) == Rem(Affine(a, b, x, n), Pow2(k))
  {
    if n == 0 {
      AffineZero(a, b, x);
    } else {
      ClosedForm(a, b, k, x, n - 1);
      var s, t := State(a, b, k, x, n - 1), Affine(a, b, x, n - 1);
      SameStep(a, b, k, s, t);
      NextInRange(a, b, k, t);
      AffineStep(a, b, x, n);
    }
  }

  lemma StateInRange(a: nat, b: nat, k: nat, x: nat, n: nat)
    requires x < Pow2(k) || 0 < n
    ensures State(a, b, k, x, n) < Pow2(k)
  {
    if n > 0 {
      NextInRange(a, b, k, State(a, b, k, x, n - 1));
    }
  }

  lemma AffineZero(a: nat, b: nat, x: nat)
    ensures Affine(a, b, x, 0) == x
  {
  }

  /** Running m steps and then d more is running m + d steps. */
  lemma {:induction false} StateAdd(a: nat, b: nat, k: nat, x: nat, m: nat, d: nat)
    ensures State(a, b, k, x, m + d) == State(a, b, k, State(a, b, k, x, m), d)
    decreases d
  {
    if d == 0 {
    } else {
      StateAdd(a, b, k, x, m, d - 1);
    }
  }

  lemma NextOfRem(a: nat, b: nat, k: nat, s: nat)
    ensures Next(a, b, k, Rem(s, Pow2(k))) == Next(a, b, k, s)
  {
    RemTwice(s, Pow2(k));
    SameStep(a, b, k, Rem(s, Pow2(k)), s);
  }

  lemma RemOfRem(x: nat, j: nat, k: nat)
    requires j <= k
    ensures Rem(Rem(x, Pow2(k)), Pow2(j)) == Rem(x, Pow2(j))
  {
    Pow2Add(j, k - j);
    RemOfProduct(x, Pow2(j), Pow2(k - j), Pow2(k));
  }

  lemma RemOfNext(a: nat, b: nat, j: nat, k: nat, s: nat)
    requires j <= k
    ensures Rem(Next(a, b, k, s), Pow2(j)) == Next(a, b, j, s)
  {
    RemOfRem(a * s + b, j, k);
  }

  /** The low j bits are themselves a sequence modulo 2^j, started from the low bits of the seed. */
  lemma {:induction false} LowBitsRestart(a: nat, b: nat, j: nat, k: nat, x: nat, n: nat)
    requires j <= k
    ensures Rem(State(a, b, k, x, n), Pow2(j)) == State(a, b, j, Rem(x, Pow2(j)), n)
  {
    if n == 0 {
    } else {
      var s := State(a, b, k, x, n - 1);
      LowBitsRestart(a, b, j, k, x, n - 1);
      RemOfNext(a, b, j, k, s);
      NextOfRem(a, b, j, s);
    }
  }

  // ---------- how often 2 divides a geometric sum ----------

  lemma GeometricStep(a: nat, g: nat)
    requires 0 < a
    ensures a * (1 + (a - 1) * g) == 1 + (a - 1) * (a * g + 1)
  {
    var h := a - 1;
    MulDistrib(1, h * g, a);
    MulDistrib(a * g, 1, h);
    MulAssoc(h, g, a);
    assert a * (1 + h * g) == (1 + h * g) * a;
    assert h * (a * g + 1) == (a * g + 1) * h;
    assert (a * g) * h == h * (g * a);
  }

  lemma {:induction false} PowerIsGeometric(a: nat, n: nat)
    requires 0 < a
    ensures Power(a, n) == 1 + (a - 1) * Geometric(a, n)
  {
    if n == 0 {
    } else {
      PowerIsGeometric(a, n - 1);
      GeometricStep(a, Geometric(a, n - 1));
    }
  }

  lemma SumStep(a: nat, g: nat, p: nat, h: nat)
    ensures a * (g * p + h) + 1 == g * (a * p) + (a * h + 1)
  {
    MulDistrib(g * p, h, a);
    assert a * (g * p + h) == (g * p + h) * a;
    assert (g * p) * a == g * (a * p);
    assert h * a == a * h;
  }

  lemma {:induction false} GeometricAdd(a: nat, m: nat, n: nat)
    ensures Geometric(a, m + n) == Geometric(a, m) * Power(a, n) + Geometric(a, n)
    decreases n
  {
    if n == 0 {
    } else {
      GeometricAdd(a, m, n - 1);
      SumStep(a, Geometric(a, m), Power(a, n - 1), Geometric(a, n - 1));
    }
  }

  lemma {:induction false} PowerMod4(a: nat, n: nat)
    requires a % 4 == 1
    ensures Power(a, n) % 4 == 1
  {
    if n == 0 {
    } else {
      PowerMod4(a, n - 1);
      OneMod4Times(a, Power(a, n - 1));
    }
  }

  lemma {:induction false} GeometricParity(a: nat, n: nat)
    requires a % 2 == 1
    ensures Geometric(a, n) % 2 == n % 2
  {
    if n == 0 {
    } else {
      GeometricParity(a, n - 1);
      OddTimes(a, Geometric(a, n - 1));
      ParityStep(a * Geometric(a, n - 1), n);
    }
  }

  lemma ParityStep(x: nat, n: nat)
    requires 0 < n && x % 2 == (n - 1) % 2
    ensures (x + 1) % 2 == n % 2
  {
  }

  /** An odd factor does not change divisibility by a power of two. */
  lemma {:induction false} OddFactor(x: nat, c: nat, k: nat)
    requires c % 2 == 1
    ensures Low(c * x, k) == 0 <==> Low(x, k) == 0
    decreases k
  {
    if k == 0 {
    } else {
      OddTimes(c, x);
      if x % 2 == 0 {
        OddFactor(x / 2, c, k - 1);
        TimesDouble(c, x / 2);
      }
    }
  }

  lemma TimesDouble(c: nat, y: nat)
    ensures c * (2 * y) == 2 * (c * y)
  {
  }

  /** Doubling the number of terms doubles the sum, up to an odd factor. */
  lemma GeometricDouble(a: nat, e: nat) returns (c: nat)
    requires a % 4 == 1
    ensures c % 2 == 1 && Geometric(a, 2 * e) == 2 * (c * Geometric(a, e))
  {
    var p := Power(a, e);
    c := HalfOfSuccessor(p) by {
      PowerMod4(a, e);
    }
    assert Geometric(a, 2 * e) == Geometric(a, e) * p + Geometric(a, e) by {
      GeometricAdd(a, e, e);
    }
    DoubleByFactor(Geometric(a, e), p, c);
  }

  lemma HalfOfSuccessor(p: nat) returns (c: nat)
    requires p % 4 == 1
    ensures 1 + p == 2 * c && c % 2 == 1
  {
    c := (1 + p) / 2;
  }

  lemma DoubleByFactor(g: nat, p: nat, c: nat)
    requires 1 + p == 2 * c
    ensures g * p + g == 2 * (c * g)
  {
    MulDistrib(1, p, g);
    MulAssoc(2, c, g);
  }

  /** For a multiplier that is 1 modulo 4, the geometric sum over n terms is divisible by exactly the
      powers of two that divide n. */
  lemma {:induction false} GeometricValuation(a: nat, n: nat, k: nat)
    requires a % 4 == 1
    ensures Low(Geometric(a, n), k) == 0 <==> Low(n, k) == 0
    decreases k
  {
    if k == 0 {
    } else {
      GeometricParity(a, n);
      if n % 2 == 0 {
        var e := n / 2;
        var c := GeometricDouble(a, e);
        LowDigit(Geometric(a, n), c * Geometric(a, e), 0, k - 1);
        OddFactor(Geometric(a, e), c, k - 1);
        GeometricValuation(a, e, k - 1);
      }
    }
  }

  // ---------- full period ----------

  lemma ExpandIncrement(h: nat, g: nat, y: nat, b: nat)
    ensures (1 + h * g) * y + b * g == y + (h * y + b) * g
  {
    MulDistrib(1, h * g, y);
    MulDistrib(h * y, b, g);
    MulAssoc(h, g, y);
    MulAssoc(h, y, g);
    assert g * y == y * g;
  }

  lemma AffineIncrement(a: nat, b: nat, y: nat, d: nat)
    requires 0 < a
    ensures Affine(a, b, y, d) == y + ((a - 1) * y + b) * Geometric(a, d)
  {
    PowerIsGeometric(a, d);
    ExpandIncrement(a - 1, Geometric(a, d), y, b);
  }

  lemma ReturnsByIncrement(k: nat, s: nat, y: nat, g: nat, c: nat)
    requires s < Pow2(k) && y < Pow2(k) && c % 2 == 1
    requires Rem(s, Pow2(k)) == Rem(y + c * g, Pow2(k))
    ensures s == y <==> Low(g, k) == 0
  {
    OddFactor(g, c, k);
    ReturnsWhenZero(k, s, y, c * g);
  }

  lemma ReturnsWhenZero(k: nat, s: nat, y: nat, z: nat)
    requires s < Pow2(k) && y < Pow2(k) && Rem(s, Pow2(k)) == Rem(y + z, Pow2(k))
    ensures s == y <==> Low(z, k) == 0
  {
    LowAbsorbs(y, z, k);
    RemIsLow(s, k);
    RemIsLow(y + z, k);
    LowSmall(s, k);
    LowSmall(y, k);
  }

  /** The d-step increment of a state is the geometric sum times an odd number. */
  lemma OddIncrement(a: nat, b: nat, y: nat, d: nat) returns (c: nat)
    requires a % 2 == 1 && b % 2 == 1
    ensures c % 2 == 1 && Affine(a, b, y, d) == y + c * Geometric(a, d)
  {
    MulNat(a - 1, y);
    c := (a - 1) * y + b;
    OddMultiplier(a, b, y);
    AffineIncrement(a, b, y, d);
  }

  lemma StateIncrement(a: nat, b: nat, k: nat, y: nat, d: nat) returns (c: nat)
    requires a % 2 == 1 && b % 2 == 1
    ensures c % 2 == 1 && Rem(State(a, b, k, y, d), Pow2(k)) == Rem(y + c * Geometric(a, d), Pow2(k))
  {
    ClosedForm(a, b, k, y, d);
    c := OddIncrement(a, b, y, d);
  }

  /** A state comes back after d steps exactly when 2^k divides d. */
  lemma ReturnTime(a: nat, b: nat, k: nat, y: nat, d: nat)
    requires a % 4 == 1 && b % 2 == 1 && y < Pow2(k)
    ensures State(a, b, k, y, d) == y <==> Low(d, k) == 0
  {
    OneMod4IsOdd(a);
    var c := StateIncrement(a, b, k, y, d);
    var s := State(a, b, k, y, d);
    StateInRange(a, b, k, y, d);
    ReturnsByIncrement(k, s, y, Geometric(a, d), c);
    GeometricValuation(a, d, k);
  }

  lemma OneMod4IsOdd(a: nat)
    requires a % 4 == 1
    ensures a % 2 == 1
  {
  }

  lemma OddMultiplier(a: nat, b: nat, y: nat)
    requires a % 2 == 1 && b % 2 == 1
    ensures ((a - 1) * y + b) % 2 == 1
  {
    var h := (a - 1) / 2;
    MulAssoc(2, h, y);
    var e := h * y;
    assert (a - 1) * y + b == 2 * e + b;
  }

  lemma ReturnsLater(a: nat, b: nat, k: nat, x: nat, m: nat, d: nat)
    requires a % 4 == 1 && b % 2 == 1
    requires x < Pow2(k) || 0 < m
    ensures State(a, b, k, x, m + d) == State(a, b, k, x, m) <==> Rem(m, Pow2(k)) == Rem(m + d, Pow2(k))
  {
    var y := State(a, b, k, x, m);
    StateInRange(a, b, k, x, m);
    ReturnTime(a, b, k, y, d);
    StateAdd(a, b, k, x, m, d);
    RemIsLow(d, k);
    SameRem(m, m + d, Pow2(k));
  }

  /** Two states of one sequence are equal exactly when their indices agree modulo 2^k. */
  lemma FullPeriod(a: nat, b: nat, k: nat, x: nat, m: nat, n: nat)
    requires a % 4 == 1 && b % 2 == 1
    requires x < Pow2(k) || (0 < m && 0 < n)
    ensures State(a, b, k, x, m) == State(a, b, k, x, n) <==> Rem(m, Pow2(k)) == Rem(n, Pow2(k))
  {
    if m <= n {
      ReturnsLater(a, b, k, x, m, n - m);
    } else {
      ReturnsLater(a, b, k, x, n, m - n);
    }
  }

  /** The low j bits of a sequence modulo 2^k have period exactly 2^j. */
  lemma LowBitsPeriod(a: nat, b: nat, j: nat, k: nat, x: nat, m: nat, n: nat)
    requires a % 4 == 1 && b % 2 == 1 && j <= k
    ensures Rem(State(a, b, k, x, m), Pow2(j)) == Rem(State(a, b, k, x, n), Pow2(j))
       <==> Rem(m, Pow2(j)) == Rem(n, Pow2(j))
  {
    LowBitsRestart(a, b, j, k, x, m);
    LowBitsRestart(a, b, j, k, x, n);
    RemIsMod(x, Pow2(j));
    FullPeriod(a, b, j, Rem(x, Pow2(j)), m, n);
  }

  /** Every value is reached at exactly one of any 2^k consecutive positions. */
  lemma VisitsEveryValue(a: nat, b: nat, k: nat, x: nat, start: nat, y: nat) returns (n: nat)
    requires a % 4 == 1 && b % 2 == 1 && y < Pow2(k)
    ensures start < n <= start + Pow2(k) && State(a, b, k, x, n) == y
    ensures forall m: nat :: start < m <= start + Pow2(k) && State(a, b, k, x, m) == y ==> m == n
  {
    var i := FindIndex(a, b, k, State(a, b, k, x, start), y);
    n := start + i;
    StateAdd(a, b, k, x, start, i);
    forall m: nat | start < m <= start + Pow2(k) && State(a, b, k, x, m) == y
      ensures m == n
    {
      FullPeriod(a, b, k, x, m, n);
      SameIndex(start, m, n, Pow2(k));
    }
  }

  lemma DifferentIndex(m: nat, n: nat, p: nat)
    requires m < n < m + p
    ensures Rem(m, p) != Rem(n, p)
  {
    SameRem(m, n, p);
    RemSmall(n - m, p);
  }

  lemma SameIndex(start: nat, m: nat, n: nat, p: nat)
    requires start < m <= start + p && start < n <= start + p && Rem(m, p) == Rem(n, p)
    ensures m == n
  {
    if m < n {
      DifferentIndex(m, n, p);
    } else if n < m {
      DifferentIndex(n, m, p);
    }
  }

  /** The index is found one bit at a time: an index for the low k-1 bits serves for all k bits, or
      the one half a period later does. */
  lemma {:induction false} FindIndex(a: nat, b: nat, k: nat, x: nat, y: nat) returns (n: nat)
    requires a % 4 == 1 && b % 2 == 1 && y < Pow2(k)
    ensures 1 <= n <= Pow2(k) && State(a, b, k, x, n) == y
  {
    if k == 0 {
      n := 1;
      StateInRange(a, b, 0, x, 1);
    } else {
      LowBound(y, k - 1);
      assert Pow2(k) == 2 * Pow2(k - 1);
      n := FindIndex(a, b, k - 1, x, Low(y, k - 1));
      if State(a, b, k, x, n) != y {
        HalfPeriodLater(a, b, k, x, y, n);
        n := n + Pow2(k - 1);
      }
    }
  }

  lemma HalfPeriodLater(a: nat, b: nat, k: nat, x: nat, y: nat, n: nat)
    requires a % 4 == 1 && b % 2 == 1 && y < Pow2(k) && 0 < k && 0 < n
    requires State(a, b, k - 1, x, n) == Low(y, k - 1) && State(a, b, k, x, n) != y
    ensures State(a, b, k, x, n + Pow2(k - 1)) == y
  {
    var later := n + Pow2(k - 1);
    assert State(a, b, k - 1, x, later) == State(a, b, k - 1, x, n) by {
      FullPeriod(a, b, k - 1, x, n, later);
      RemShift(n, Pow2(k - 1));
    }
    assert State(a, b, k, x, later) != State(a, b, k, x, n) by {
      FullPeriod(a, b, k, x, n, later);
      HalfPeriodApart(n, k);
    }
    LowAgrees(a, b, k, x, n, y);
    LowAgrees(a, b, k, x, later, y);
    TwoChoices(State(a, b, k, x, n), State(a, b, k, x, later), y, k);
  }

  lemma LowAgrees(a: nat, b: nat, k: nat, x: nat, n: nat, y: nat)
    requires 0 < k && 0 < n && State(a, b, k - 1, x, n) == Low(y, k - 1)
    ensures State(a, b, k, x, n) < Pow2(k)
    ensures Low(State(a, b, k, x, n), k - 1) == Low(y, k - 1)
  {
    StateInRange(a, b, k, x, n);
    LowBitsRestart(a, b, k - 1, k, x, n);
    SeedReduced(a, b, k - 1, x, n);
    RemIsLow(State(a, b, k, x, n), k - 1);
  }

  /** Reducing the seed changes no later state. */
  lemma {:induction false} SeedReduced(a: nat, b: nat, k: nat, x: nat, n: nat)
    requires 0 < n
    ensures State(a, b, k, Rem(x, Pow2(k)), n) == State(a, b, k, x, n)
  {
    if n == 1 {
      NextOfRem(a, b, k, x);
      assert State(a, b, k, x, 1) == Next(a, b, k, State(a, b, k, x, 0));
      assert State(a, b, k, Rem(x, Pow2(k)), 1) == Next(a, b, k, State(a, b, k, Rem(x, Pow2(k)), 0));
    } else {
      SeedReduced(a, b, k, x, n - 1);
    }
  }

  lemma HalfPeriodApart(n: nat, k: nat)
    requires 0 < k
    ensures Rem(n, Pow2(k)) != Rem(n + Pow2(k - 1), Pow2(k))
  {
    SameRem(n, n + Pow2(k - 1), Pow2(k));
    RemSmall(Pow2(k - 1), Pow2(k));
  }

  /** Of two different k-bit values with the same low k-1 bits, one is y if y shares those bits. */
  lemma TwoChoices(s: nat, t: nat, y: nat, k: nat)
    requires 0 < k && s < Pow2(k) && t < Pow2(k) && y < Pow2(k)
    requires Low(s, k - 1) == Low(t, k - 1) == Low(y, k - 1)
    requires s != t && s != y
    ensures t == y
  {
    TopBit(s, k);
    TopBit(t, k);
    TopBit(y, k);
  }

  lemma TopBit(s: nat, k: nat)
    requires 0 < k && s < Pow2(k)
    ensures s == Low(s, k - 1) || s == Low(s, k - 1) + Pow2(k - 1)
  {
    Split(s, k - 1);
    var hi := Shr(s, k - 1);
    LowBound(s, k - 1);
    ScaleOne(k - 1);
    if hi == 0 {
      ScaleAdd(0, 0, k - 1);
    } else if hi > 1 {
      ScaleMono(1, hi, k - 1);
    }
  }
}
