/** The library's pseudo-random numbers: a generator modulo 2^31 computed in 32-bit arithmetic. */
module MathRand {
  import opened Powers
  import opened Bits
  import Lcg

  const SEED_INIT_VAL: U32 := 1
  const LCG_PARAM_M: U32 := 0x7FFF_FFFF
  const LCG_PARAM_A: U32 := 1103515245
  const LCG_PARAM_B: U32 := 12345

  /** Math_RandSeed(): product and sum wrap at 32 bits before the reduction. */
  function RandSeed(seed: U32): U32
  {
    var product := Rem(LCG_PARAM_A * seed, 0x1_0000_0000);
    var sum := Rem(product + LCG_PARAM_B, 0x1_0000_0000);
    var randNbr := Rem(sum, LCG_PARAM_M + 1);
    RemIsMod(sum, LCG_PARAM_M + 1);
    randNbr
  }

  /** The generator of BSD and ANSI C. The two wraps are harmless: the modulus divides 2^32. */
  lemma RandSeedIsLcg(seed: U32)
    ensures RandSeed(seed) == (1103515245 * seed + 12345) % 0x8000_0000
  {
    WrapIsHarmless(1103515245 * seed, 12345);
  }

  lemma WrapIsHarmless(x: nat, b: nat)
    ensures Rem(Rem(Rem(x, 0x1_0000_0000) + b, 0x1_0000_0000), 0x8000_0000) == (x + b) % 0x8000_0000
  {
    RemOfSum(x, b, 0x1_0000_0000);
    RemIsMod(x + b, 0x1_0000_0000);
    RemIsMod(Rem(x + b, 0x1_0000_0000), 0x8000_0000);
    ModOfMultiple(x + b, 0x8000_0000, 2);
  }

  /** The seed after n calls. */
  ghost function Nth(seed: U32, n: nat): U32
  {
    if n == 0 then seed else RandSeed(Nth(seed, n - 1))
  }

  lemma {:induction false} NthIsLcgState(seed: U32, n: nat)
    ensures Nth(seed, n) == Lcg.State(LCG_PARAM_A, LCG_PARAM_B, 31, seed, n)
  {
    if n == 0 {
    } else {
      NthIsLcgState(seed, n - 1);
      StepIsLcgNext(Nth(seed, n - 1), 31);
    }
  }

  lemma StepIsLcgNext(x: U32, k: nat)
    requires k == 31
    ensures RandSeed(x) == Lcg.Next(LCG_PARAM_A, LCG_PARAM_B, k, x)
  {
    Pow2Values();
    WrapIsHarmless(LCG_PARAM_A * x, LCG_PARAM_B);
    RemIsMod(LCG_PARAM_A * x + LCG_PARAM_B, 0x8000_0000);
  }

  /** The n-th number is (A^n seed + B (1 + A + ... + A^(n-1))) mod 2^31, for every 32-bit seed. */
  lemma NthClosedForm(seed: U32, n: nat)
    requires 0 < n
    ensures Nth(seed, n)
         == Rem(Lcg.Power(1103515245, n) * seed + 12345 * Lcg.Geometric(1103515245, n), 0x8000_0000)
  {
    NthIsLcgState(seed, n);
    Lcg.ClosedForm(LCG_PARAM_A, LCG_PARAM_B, 31, seed, n);
    Lcg.StateInRange(LCG_PARAM_A, LCG_PARAM_B, 31, seed, n);
    Reduced(Nth(seed, n), Lcg.Affine(LCG_PARAM_A, LCG_PARAM_B, seed, n), 31);
  }

  lemma Reduced(s: nat, t: nat, k: nat)
    requires k == 31 && s < Pow2(k) && Rem(s, Pow2(k)) == Rem(t, Pow2(k))
    ensures s == Rem(t, 0x8000_0000)
  {
    Pow2Values();
    RemSmall(s, Pow2(k));
  }

  /** Two numbers drawn after the same seed are equal exactly when their indices agree modulo 2^31. */
  lemma NthPeriod(seed: U32, m: nat, n: nat)
    requires 0 < m && 0 < n
    ensures Nth(seed, m) == Nth(seed, n) <==> Rem(m, 0x8000_0000) == Rem(n, 0x8000_0000)
  {
    Pow2Values();
    Lcg.FullPeriod(LCG_PARAM_A, LCG_PARAM_B, 31, seed, m, n);
    NthIsLcgState(seed, m);
    NthIsLcgState(seed, n);
  }

  /** Each value of [0, RAND_LCG_PARAM_M] is drawn exactly once in any 2^31 consecutive calls after
      seeding: here those after the first `start` calls. */
  lemma NthVisitsEveryValue(seed: U32, start: nat, y: nat) returns (n: nat)
    requires y <= LCG_PARAM_M
    ensures start < n <= start + 0x8000_0000 && Nth(seed, n) == y
    ensures forall m: nat :: start < m <= start + 0x8000_0000 && Nth(seed, m) == y ==> m == n
  {
    Pow2Values();
    n := Lcg.VisitsEveryValue(LCG_PARAM_A, LCG_PARAM_B, 31, seed, start, y);
    forall m: nat
      ensures Nth(seed, m) == Lcg.State(LCG_PARAM_A, LCG_PARAM_B, 31, seed, m)
    {
      NthIsLcgState(seed, m);
    }
  }

  /** The low k bits of the numbers repeat with period exactly 2^k. */
  lemma LowBitsPeriod(seed: U32, k: nat, m: nat, n: nat)
    requires k <= 31
    ensures Rem(Nth(seed, m), Pow2(k)) == Rem(Nth(seed, n), Pow2(k)) <==> Rem(m, Pow2(k)) == Rem(n, Pow2(k))
  {
    Lcg.LowBitsPeriod(LCG_PARAM_A, LCG_PARAM_B, k, 31, seed, m, n);
    NthIsLcgState(seed, m);
    NthIsLcgState(seed, n);
  }

  /** Only the low 31 bits of a seed matter. */
  lemma SeedTopBitIgnored(seed: U32, n: nat)
    requires 0 < n
    ensures Rem(seed, 0x8000_0000) < 0x8000_0000 && Nth(seed, n) == Nth(Rem(seed, 0x8000_0000), n)
  {
    Pow2Values();
    RemIsMod(seed, 0x8000_0000);
    var low: U32 := Rem(seed, 0x8000_0000);
    NthIsLcgState(seed, n);
    NthIsLcgState(low, n);
    Lcg.SeedReduced(LCG_PARAM_A, LCG_PARAM_B, 31, seed, n);
  }

  /** The generator's global state. `seed0` and `calls` record the last seeding and the draws since. */
  class Generator {
    var seedCur: U32
    ghost var seed0: U32
    ghost var calls: nat

    ghost predicate Valid()
      reads this
    {
      seedCur == Nth(seed0, calls)
    }

    /** Math_Init(). */
    constructor ()
      ensures Valid() && seedCur == 1 && seed0 == 1 && calls == 0
    {
      seedCur := SEED_INIT_VAL;
      seed0 := SEED_INIT_VAL;
      calls := 0;
    }

    /** Math_RandSetSeed(). */
    method SetSeed(seed: U32)
      modifies this
      ensures Valid() && seedCur == seed && seed0 == seed && calls == 0
    {
      seedCur := seed;
      seed0 := seed;
      calls := 0;
    }

    /** Math_Rand(). */
    method Rand() returns (randNbr: U32)
      requires Valid()
      modifies this
      ensures Valid() && seed0 == old(seed0) && calls == old(calls) + 1
      ensures randNbr == seedCur == Nth(seed0, calls)
      ensures randNbr == (1103515245 * old(seedCur) + 12345) % 0x8000_0000
    {
      RandSeedIsLcg(seedCur);
      var seed := seedCur;
      randNbr := RandSeed(seed);
      seedCur := randNbr;
      calls := calls + 1;
    }
  }

  /** Numbers drawn without seeding are those drawn after seeding with 1, whatever was drawn before. */
  method UnseededDraws(other: U32, n: nat) returns (unseeded: seq<U32>, seeded: seq<U32>)
    ensures unseeded == seeded && |unseeded| == n
    ensures forall i :: 0 <= i < n ==> unseeded[i] == Nth(1, i + 1)
  {
    var unset := new Generator();
    var used := new Generator();
    used.SetSeed(other);
    var _ := used.Rand();
    used.SetSeed(1);
    unseeded, seeded := [], [];
    for i := 0 to n
      invariant unset != used && unset.Valid() && used.Valid()
      invariant unset.seed0 == used.seed0 == 1 && unset.calls == used.calls == i
      invariant |unseeded| == i && unseeded == seeded
      invariant forall j :: 0 <= j < i ==> unseeded[j] == Nth(1, j + 1)
    {
      var x := unset.Rand();
      var y := used.Rand();
      unseeded, seeded := unseeded + [x], seeded + [y];
    }
  }
}
