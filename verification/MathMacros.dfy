/** The power-of-two test and the two round-up macros, on 32-bit unsigned values. */
module MathMacros {
  import opened Powers
  import opened Bits

  function Wrap32(x: nat): U32
  {
    RemIsMod(x, 0x1_0000_0000);
    Rem(x, 0x1_0000_0000)
  }

  /** MATH_IS_PWR2(). */
  predicate IsPwr2(nbr: U32)
  {
    nbr != 0 && And(nbr, nbr - 1) == 0
  }

  lemma AndIn32(x: U32, y: nat)
    ensures And(x, y) < 0x1_0000_0000
  {
    AndBound(x, y);
  }

  /** MATH_ROUND_INC_UP_PWR2(). */
  function RoundIncUpPwr2(nbr: U32, inc: U32): U32
    requires 0 < inc
  {
    Pow2Values();
    AndIn32(nbr, Not(32, inc - 1));
    Wrap32(And(nbr, Not(32, inc - 1)) + if And(nbr, inc - 1) == 0 then 0 else inc)
  }

  /** MATH_ROUND_INC_UP(). */
  function RoundIncUp(nbr: U32, inc: U32): U32
    requires 0 < inc
  {
    Wrap32(Divided(Wrap32(nbr + (inc - 1)), inc))
  }

  /** (x / inc) * inc. */
  function Divided(x: nat, inc: nat): nat
    requires 0 < inc
  {
    MulNat(Quotient(x, inc), inc);
    Quotient(x, inc) * inc
  }

  /** r is the least multiple of inc that is not below nbr. */
  ghost predicate IsRoundedUp(nbr: nat, inc: nat, r: nat)
    requires 0 < inc
  {
    r % inc == 0 && nbr <= r < nbr + inc
  }

  lemma LeastMultiple(nbr: nat, inc: nat, r: nat, s: nat)
    requires 0 < inc && IsRoundedUp(nbr, inc, r) && s % inc == 0 && nbr <= s
    ensures r <= s
  {
    if s < r {
      SameMod(r, s, inc);
      ModSmall(r - s, inc);
    }
  }

  // ---------- what the general macro computes ----------

  /** When nbr + inc - 1 fits in 32 bits the result is the multiple of inc next at or above nbr;
      when it does not, the result is 0. */
  lemma RoundIncUpResult(nbr: U32, inc: U32)
    requires 0 < inc
    ensures nbr + (inc - 1) < 0x1_0000_0000 ==> IsRoundedUp(nbr, inc, RoundIncUp(nbr, inc))
    ensures nbr + (inc - 1) >= 0x1_0000_0000 ==> RoundIncUp(nbr, inc) == 0
  {
    if nbr + (inc - 1) < 0x1_0000_0000 {
      RoundsWithin(nbr, inc);
    } else {
      RoundsOver(nbr, inc);
    }
  }

  lemma RoundsWithin(nbr: U32, inc: U32)
    requires 0 < inc && nbr + (inc - 1) < 0x1_0000_0000
    ensures IsRoundedUp(nbr, inc, RoundIncUp(nbr, inc))
  {
    var x := nbr + (inc - 1);
    RoundedDown(x, inc);
    assert RoundIncUp(nbr, inc) == Divided(x, inc) by {
      Wrap32Small(x);
      Wrap32Small(Divided(x, inc));
    }
    RoundedUpFromAbove(nbr, inc, Divided(x, inc));
  }

  lemma RoundsOver(nbr: U32, inc: U32)
    requires 0 < inc && nbr + (inc - 1) >= 0x1_0000_0000
    ensures RoundIncUp(nbr, inc) == 0
  {
    var y := nbr + (inc - 1) - 0x1_0000_0000;
    DividedSmall(y, inc);
    Wrap32Over(nbr + (inc - 1));
  }

  lemma Wrap32Over(x: nat)
    requires 0x1_0000_0000 <= x < 0x2_0000_0000
    ensures Wrap32(x) == x - 0x1_0000_0000
  {
    RemSmall(x - 0x1_0000_0000, 0x1_0000_0000);
    RemShift(x - 0x1_0000_0000, 0x1_0000_0000);
  }

  lemma Wrap32Small(x: nat)
    requires x < 0x1_0000_0000
    ensures Wrap32(x) == x
  {
  }

  lemma RoundedDown(x: nat, inc: nat)
    requires 0 < inc
    ensures Divided(x, inc) % inc == 0 && x - inc < Divided(x, inc) <= x
  {
    DivModParts(x, inc);
    MulDiv(x / inc, inc);
  }

  lemma DividedSmall(x: nat, inc: nat)
    requires x < inc
    ensures Divided(x, inc) == 0
  {
    ModSmall(x, inc);
  }

  lemma RoundedUpFromAbove(nbr: nat, inc: nat, r: int)
    requires 0 < inc && r % inc == 0 && nbr + (inc - 1) - inc < r <= nbr + (inc - 1)
    ensures 0 <= r && IsRoundedUp(nbr, inc, r)
  {
  }

  /** The macro rounds correctly exactly when its own sum does not overflow. */
  lemma RoundIncUpCorrectExactly(nbr: U32, inc: U32)
    requires 0 < inc
    ensures IsRoundedUp(nbr, inc, RoundIncUp(nbr, inc)) <==> nbr + (inc - 1) < 0x1_0000_0000
  {
    RoundIncUpResult(nbr, inc);
  }

  /** The sum can overflow although the rounded value itself would fit: 4294967290 is already a
      multiple of 10, and rounds to 0. */
  lemma RoundIncUpLosesMultiple()
    ensures IsRoundedUp(4294967290, 10, 4294967290)
    ensures RoundIncUp(4294967290, 10) == 0
  {
  }

  // ---------- the power-of-two form ----------

  /** Clearing the low bits rounds down to a multiple of 2^k. */
  lemma MaskedDown(n: nat, nbr: nat, k: nat)
    requires k <= n && nbr < Pow2(n)
    ensures Pow2(k) <= Pow2(n)
    ensures And(nbr, Pow2(k) - 1) == nbr % Pow2(k)
    ensures And(nbr, Not(n, Pow2(k) - 1)) == nbr - nbr % Pow2(k)
  {
    Pow2Mono(k, n);
    AndOnes(nbr, k);
    LowIsMod(nbr, k);
    AndWithComplement(n, nbr, Pow2(k) - 1);
  }

  /** Masking with ~m keeps what masking with m drops. */
  lemma {:induction false} AndWithComplement(n: nat, x: nat, m: nat)
    requires x < Pow2(n) && m < Pow2(n)
    ensures And(x, Not(n, m)) == x - And(x, m)
  {
    if n == 0 {
    } else {
      var h, b := m / 2, m % 2;
      AndWithComplement(n - 1, x / 2, h);
      AndStep(x, m);
      AndDigit(x, x / 2, x % 2, Not(n, m), Not(n - 1, h), 1 - b);
    }
  }

  lemma Pwr2Form(nbr: U32, inc: U32, r: nat)
    requires 0 < inc && r <= nbr
    requires And(nbr, inc - 1) == r && (inc - 1 < Pow2(32) ==> And(nbr, Not(32, inc - 1)) == nbr - r)
    ensures RoundIncUpPwr2(nbr, inc) == if r == 0 then nbr else Wrap32(nbr - r + inc)
  {
    Pow2Values();
  }

  lemma NextMultiple(nbr: nat, inc: nat)
    requires 0 < inc
    ensures nbr % inc <= nbr
    ensures IsRoundedUp(nbr, inc, if nbr % inc == 0 then nbr else nbr - nbr % inc + inc)
  {
    var q, r := Quotient(nbr, inc), nbr % inc;
    MulNat(q, inc);
    assert nbr == q * inc + r && r < inc by {
      DivModParts(nbr, inc);
    }
    Multiples(q, inc);
  }

  lemma Multiples(q: nat, inc: nat)
    requires 0 < inc
    ensures (q * inc) % inc == 0 && (q * inc + inc) % inc == 0
  {
    MulDiv(q, inc);
    ModPlus(q * inc, 1, inc);
  }

  lemma RoundedUpUnique(nbr: nat, inc: nat, r: nat, s: nat)
    requires 0 < inc && IsRoundedUp(nbr, inc, r) && IsRoundedUp(nbr, inc, s)
    ensures r == s
  {
    LeastMultiple(nbr, inc, r, s);
    LeastMultiple(nbr, inc, s, r);
  }

  lemma WordIsMultiple(k: nat)
    requires k < 32
    ensures 0x1_0000_0000 % Pow2(k) == 0
  {
    Pow2Values();
    Pow2Divides(k, 32);
  }

  lemma UpOrZero(nbr: U32, inc: U32, res: U32)
    requires 0 < inc && 0x1_0000_0000 % inc == 0
    requires nbr + (inc - 1) < 0x1_0000_0000 ==> IsRoundedUp(nbr, inc, res)
    requires nbr + (inc - 1) >= 0x1_0000_0000 ==> res == 0
    ensures nbr % inc <= nbr
    ensures res == if nbr % inc == 0 then nbr else Wrap32(nbr - nbr % inc + inc)
    ensures IsRoundedUp(nbr, inc, res) || (res == 0 && IsRoundedUp(nbr, inc, 0x1_0000_0000))
  {
    var up := if nbr % inc == 0 then nbr else nbr - nbr % inc + inc;
    NextMultiple(nbr, inc);
    if nbr + (inc - 1) < 0x1_0000_0000 {
      RoundedUpUnique(nbr, inc, up, res);
    } else {
      RoundedUpUnique(nbr, inc, up, 0x1_0000_0000);
    }
  }

  lemma ExponentInRange(inc: U32, k: nat)
    requires inc == Pow2(k)
    ensures k < 32
  {
    Pow2Values();
    if k >= 32 {
      Pow2Mono(32, k);
    }
  }

  lemma MaskedDown32(nbr: U32, inc: U32, k: nat)
    requires k < 32 && inc == Pow2(k)
    ensures And(nbr, inc - 1) == nbr % inc
    ensures inc - 1 < Pow2(32) && And(nbr, Not(32, inc - 1)) == nbr - nbr % inc
  {
    Pow2Values();
    MaskedDown(32, nbr, k);
  }

  /** For every increment that is a power of two the two macros agree on every 32-bit value, also
      where they overflow; they return the rounded value if it fits, and otherwise, when it is 2^32
      itself, 0. */
  lemma RoundMacrosAgree(nbr: U32, inc: U32, k: nat)
    requires inc == Pow2(k)
    ensures RoundIncUpPwr2(nbr, inc) == RoundIncUp(nbr, inc)
    ensures IsRoundedUp(nbr, inc, RoundIncUp(nbr, inc))
         || (RoundIncUp(nbr, inc) == 0 && IsRoundedUp(nbr, inc, 0x1_0000_0000))
  {
    var res := RoundIncUp(nbr, inc);
    assert 0x1_0000_0000 % inc == 0 by {
      ExponentInRange(inc, k);
      WordIsMultiple(k);
    }
    RoundIncUpResult(nbr, inc);
    UpOrZero(nbr, inc, res);
    Pwr2FormOfPow2(nbr, inc, k);
  }

  lemma Pwr2FormOfPow2(nbr: U32, inc: U32, k: nat)
    requires inc == Pow2(k)
    ensures nbr % inc <= nbr
    ensures RoundIncUpPwr2(nbr, inc) == if nbr % inc == 0 then nbr else Wrap32(nbr - nbr % inc + inc)
  {
    ExponentInRange(inc, k);
    MaskedDown32(nbr, inc, k);
    ModAtMost(nbr, inc);
    Pwr2Form(nbr, inc, nbr % inc);
  }
}
