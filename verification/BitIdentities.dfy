/** Laws that tie the bit-counting functions, the bit reversal and the power-of-two test together. */
module BitIdentities {
  import opened Powers
  import opened Bits
  import opened CountZeros
  import opened PopCount
  import opened ReverseBits
  import opened MathMacros

  /** Reversal turns trailing zeros into leading zeros. */
  lemma ReversalSwapsEnds(n: nat, v: nat, t: nat)
    ensures IsTrailZeros(n, v, t) <==> IsLeadZeros(n, Reverse(n, v), t)
  {
    forall i: nat
      ensures Bit(Reverse(n, v), i) <==> i < n && Bit(v, n - 1 - i)
    {
      ReverseMeaning(n, v, i);
    }
    if IsTrailZeros(n, v, t) {
      forall i: nat | n - t <= i < n
        ensures !Bit(Reverse(n, v), i)
      {
        assert !Bit(v, n - 1 - i);
      }
    }
    if IsLeadZeros(n, Reverse(n, v), t) {
      forall i: nat | i < t
        ensures !Bit(v, i)
      {
        assert !Bit(Reverse(n, v), n - 1 - i);
      }
      assert t < n ==> Bit(Reverse(n, v), n - 1 - t);
    }
  }

  /** The count of trailing zeros is the count of leading zeros of the reversed word. */
  lemma TrailZerosByReversal(v: U32)
    ensures Reverse(32, v) < 0x1_0000_0000 == Pow2(W32.NbrBits())
    ensures CntTrailZeros(W32, v) == CntLeadZeros32(Reverse(32, v))
  {
    Pow2Values();
    ReverseBound(32, v);
    var t := CntTrailZeros(W32, v);
    ReversalSwapsEnds(32, v, t);
    LeadZerosUnique(32, Reverse(32, v), t, CntLeadZeros32(Reverse(32, v)));
  }

  lemma {:induction false} OnesOfPow2(t: nat)
    ensures Ones(Pow2(t)) == 1 && Ones(Pow2(t) - 1) == t
  {
    if t == 0 {
      OnesStep(1);
    } else {
      OnesOfPow2(t - 1);
      OnesDigit(Pow2(t), Pow2(t - 1), 0);
      OnesDigit(Pow2(t) - 1, Pow2(t - 1) - 1, 1);
    }
  }

  /** The lowest set bit has one bit set below it for every trailing zero. */
  lemma OnesBelowLowest(n: nat, v: nat) returns (t: nat)
    requires 0 < v < Pow2(n)
    ensures 0 < LowestSetBit(n, v) <= v
    ensures IsTrailZeros(n, v, t) && Ones(LowestSetBit(n, v) - 1) == t
  {
    t := LowestSetBitIsPow2(n, v);
    AndBound(v, Low(Not(n, v) + 1, n));
    OnesOfPow2(t);
  }

  /** ... and the number of bits set below the lowest set bit. */
  lemma TrailZerosByPopCount(v: U32)
    requires v != 0
    ensures v < Pow2(32)
    ensures 0 < LowestSetBit(32, v) <= v
    ensures CntTrailZeros(W32, v) == PopCnt32(LowestSetBit(32, v) - 1)
  {
    Pow2Values();
    var t := OnesBelowLowest(32, v);
    WordTrailZeros(v, t);
    var below: U32 := LowestSetBit(32, v) - 1;
    assert PopCnt32(below) == Ones(below);
  }

  lemma WordTrailZeros(v: U32, t: nat)
    requires IsTrailZeros(32, v, t)
    ensures v < Pow2(W32.NbrBits())
    ensures CntTrailZeros(W32, v) == t
  {
    Pow2Values();
    TrailZerosUnique(32, v, t, CntTrailZeros(W32, v));
  }

  lemma AndPredecessorOdd(v: nat)
    requires v % 2 == 1
    ensures And(v, v - 1) == v - 1 && Ones(v) == 1 + Ones(v - 1)
  {
    AndStep(v, v - 1);
    AndSelf(v / 2);
    assert (v - 1) / 2 == v / 2;
    OnesStep(v);
    OnesStep(v - 1);
  }

  lemma AndPredecessorEven(v: nat, u: nat)
    requires v == 2 * u && 0 < u
    ensures And(v, v - 1) == 2 * And(u, u - 1)
  {
    var w := v - 1;
    assert v / 2 == u && v % 2 == 0 && w / 2 == u - 1;
    AndStep(v, w);
  }

  /** Taking one from a value and masking removes exactly its lowest set bit. */
  lemma {:induction false} AndPredecessor(v: nat)
    requires 0 < v
    ensures Ones(v) == 1 + Ones(And(v, v - 1))
    ensures And(v, v - 1) < v
  {
    if v % 2 == 1 {
      AndPredecessorOdd(v);
    } else {
      var u := v / 2;
      AndPredecessor(u);
      AndPredecessorEven(v, u);
      OnesDigit(v, u, 0);
      OnesDigit(And(v, v - 1), And(u, u - 1), 0);
    }
  }

  lemma {:induction false} AndSelf(v: nat)
    ensures And(v, v) == v
  {
    if v == 0 {
    } else {
      AndSelf(v / 2);
    }
  }

  lemma NoOnes(v: nat)
    ensures Ones(v) == 0 <==> v == 0
  {
    if v > 0 {
      AndPredecessor(v);
    }
  }

  /** MATH_IS_PWR2() holds exactly of the powers of two ... */
  lemma IsPwr2Meaning(v: U32)
    ensures IsPwr2(v) <==> exists k: nat :: k < 32 && v == Pow2(k)
  {
    Pow2Values();
    if v > 0 {
      AndPredecessor(v);
      NoOnes(And(v, v - 1));
      var t := LowestSetBitIsPow2(32, v);
      if IsPwr2(v) {
        SingleBit(v, t);
        assert v == Pow2(t);
      }
      forall k: nat | k < 32 && v == Pow2(k)
        ensures IsPwr2(v)
      {
        OnesOfPow2(k);
      }
    } else {
      assert forall k: nat :: Pow2(k) > 0;
    }
  }

  lemma {:induction false} SingleBit(v: nat, t: nat)
    requires Ones(v) == 1 && Bit(v, t)
    ensures v == Pow2(t)
  {
    OnesStep(v);
    NoOnes(v / 2);
    if t == 0 {
    } else {
      if v % 2 == 1 {
        BitZero(t - 1);
      }
      SingleBit(v / 2, t - 1);
    }
  }

  /** ... which are the values with one bit set, and those whose leading and trailing zeros fill all
      the other places. */
  lemma PowerOfTwoTests(v: U32)
    ensures IsPwr2(v) <==> PopCnt32(v) == 1
    ensures v < Pow2(W32.NbrBits())
    ensures IsPwr2(v) <==> CntLeadZeros32(v) + CntTrailZeros(W32, v) == 31
  {
    Pow2Values();
    if v == 0 {
      ZeroIsAllZeros(32);
      LeadZerosUnique(32, v, 32, CntLeadZeros32(v));
      TrailZerosUnique(32, v, 32, CntTrailZeros(W32, v));
    } else {
      AndPredecessor(v);
      NoOnes(And(v, v - 1));
      var t := LowestSetBitIsPow2(32, v);
      WordTrailZeros(v, t);
      EndsMeet(32, v, CntLeadZeros32(v), t);
    }
  }

  /** The zeros at the two ends take all places but one exactly when one bit is set. */
  lemma EndsMeet(n: nat, v: nat, z: nat, t: nat)
    requires v < Pow2(n) && t < n && IsTrailZeros(n, v, t) && IsLeadZeros(n, v, z)
    ensures z + t == n - 1 <==> Ones(v) == 1
  {
    if Ones(v) == 1 {
      SingleBit(v, t);
      LeadZerosOfPow2(n, t);
      LeadZerosUnique(n, v, n - 1 - t, z);
    }
    if z + t == n - 1 {
      LeadZerosIsPowerRange(n, v, z);
      BitZero(t);
      OneBitBetween(v, t);
    }
  }

  /** A value in [2^t, 2^(t+1)) with no bit below t is 2^t. */
  lemma OneBitBetween(v: nat, t: nat)
    requires Pow2(t) <= v < Pow2(t + 1)
    requires forall i: nat :: i < t ==> !Bit(v, i)
    ensures Ones(v) == 1
  {
    var rest := v - Pow2(t);
    ScaleOne(t);
    Join(1, rest, t);
    forall i: nat | i < t
      ensures Bit(rest, i) <==> Bit(0, i)
    {
      BitLow(v, t, i);
      BitZero(i);
    }
    SameBits(t, rest, 0);
    OnesOfPow2(t);
  }
}
