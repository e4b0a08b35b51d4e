/** The software bit-reversal loop of __RBIT. */
module ReverseBits {
  import opened Powers
  import opened Bits

  /** The n lowest bits of x in reverse order. */
  ghost function Reverse(n: nat, x: nat): nat
  {
    if n == 0 then 0 else Scale(x % 2, n - 1) + Reverse(n - 1, x / 2)
  }

  lemma {:induction false} ReverseBound(n: nat, x: nat)
    ensures Reverse(n, x) < Pow2(n)
  {
    if n == 0 {
    } else {
      ReverseBound(n - 1, x / 2);
      ScaleBound(x % 2, 1, n - 1);
      assert Pow2(1) == 2;
    }
  }

  /** A digit b on top of an n-bit lo. */
  lemma BitOfTopDigit(b: nat, lo: nat, n: nat, i: nat)
    requires b < 2 && lo < Pow2(n)
    ensures Bit(Scale(b, n) + lo, i) <==> if i < n then Bit(lo, i) else i == n && b == 1
  {
    var x := Scale(b, n) + lo;
    Join(b, lo, n);
    if i < n {
      BitLow(x, n, i);
    } else {
      BitShr(x, n, i - n);
      if i > n {
        BitAbove(1, b, i - n);
      }
    }
  }

  lemma BitBelow(x: nat, i: nat)
    requires 0 < i
    ensures Bit(x, i) <==> Bit(x / 2, i - 1)
  {
  }

  /** Bit i of the reversal is bit n-1-i of the value. */
  lemma {:induction false} ReverseMeaning(n: nat, x: nat, i: nat)
    ensures Bit(Reverse(n, x), i) <==> i < n && Bit(x, n - 1 - i)
    decreases n
  {
    if n == 0 {
      BitZero(i);
    } else {
      ReverseMeaning(n - 1, x / 2, i);
      ReverseBound(n - 1, x / 2);
      BitOfTopDigit(x % 2, Reverse(n - 1, x / 2), n - 1, i);
      if i < n - 1 {
        BitBelow(x, n - 1 - i);
      }
    }
  }

  /** Reversing twice gives the value back. */
  lemma ReverseTwice(n: nat, x: nat)
    requires x < Pow2(n)
    ensures Reverse(n, Reverse(n, x)) == x
  {
    var y := Reverse(n, x);
    forall i: nat | i < n
      ensures Bit(Reverse(n, y), i) <==> Bit(x, i)
    {
      ReverseMeaning(n, y, i);
      ReverseMeaning(n, x, n - 1 - i);
    }
    ReverseBound(n, y);
    SameBits(n, Reverse(n, y), x);
  }

  /** One more bit is appended at the bottom of a reversal. */
  lemma {:induction false} ReverseAppend(n: nat, x: nat)
    ensures Reverse(n + 1, x) == 2 * Reverse(n, x) + Shr(x, n) % 2
    decreases n
  {
    if n == 0 {
    } else {
      ReverseAppend(n - 1, x / 2);
    }
  }

  /** Zero bits above the value only shift its reversal. */
  lemma {:induction false} ReversePad(k: nat, n: nat, x: nat)
    requires k <= n && x < Pow2(k)
    ensures Reverse(n, x) == Scale(Reverse(k, x), n - k)
    decreases n
  {
    if k == n {
    } else {
      ReversePad(k, n - 1, x);
      ReverseAppend(n - 1, x);
      assert Shr(x, n - 1) == 0 by {
        Pow2Mono(k, n - 1);
        LowSmall(x, n - 1);
      }
    }
  }

  lemma OrLowBit(x: nat, h: nat, b: nat)
    requires x == 2 * h && b < 2
    ensures Or(x, b) == x + b
  {
    AndDigit(x, h, 0, b, 0, b);
    OrDisjoint(x, b);
  }

  /** One turn of the loop: shifting in the next bit extends the reversal by one, with the value's
      own copy pushed one place further out of the word. */
  lemma LoopStep(v: nat, n: nat, k: nat)
    requires 0 < n
    ensures Low(2 * (Scale(v, k) + Reverse(k, v / 2)), n) + Shr(v, k + 1) % 2
         == Low(Scale(v, k + 1) + Reverse(k + 1, v / 2), n)
  {
    var y, b := Scale(v, k) + Reverse(k, v / 2), Shr(v, k + 1) % 2;
    ReverseAppend(k, v / 2);
    assert Scale(v, k + 1) + Reverse(k + 1, v / 2) == 2 * y + b;
    LowAppend(y, b, n);
  }

  lemma LowAppend(y: nat, b: nat, n: nat)
    requires 0 < n && b < 2
    ensures Low(2 * y, n) + b == Low(2 * y + b, n)
  {
    LowDigit(2 * y, y, 0, n - 1);
    LowDigit(2 * y + b, y, b, n - 1);
  }

  lemma UpperHalfSmall(v: nat, k: nat)
    requires Shr(v, k + 1) == 0
    ensures v / 2 < Pow2(k)
  {
    Split(v / 2, k);
    LowBound(v / 2, k);
    ScaleZero(k);
  }

  /** Shifting the value's own copy up by n - 1 leaves its lowest bit in the word. */
  lemma CopyShiftedOut(v: nat, n: nat)
    requires 0 < n
    ensures Scale(v, n - 1) + Reverse(n - 1, v / 2) == Scale(v / 2, n) + Reverse(n, v)
  {
    ScaleDouble(v, v / 2, v % 2, n - 1);
  }

  lemma LowOfJoined(x: nat, hi: nat, lo: nat, n: nat)
    requires lo < Pow2(n) && x == Scale(hi, n) + lo
    ensures Low(x, n) == lo
  {
    Join(hi, lo, n);
  }

  lemma ShiftedSum(v: nat, n: nat, k: nat, s: nat)
    requires k + s == n && v / 2 < Pow2(k)
    ensures Scale(Scale(v, k) + Reverse(k, v / 2), s) == Scale(v, n) + Reverse(n, v / 2)
  {
    ScaleAdd(Scale(v, k), Reverse(k, v / 2), s);
    ScaleScale(v, k, s);
    ReversePad(k, n, v / 2);
  }

  /** For a word of n bits, the last shift drops what is left of the value's own copy, except the bit that
      belongs on top. */
  lemma FinalShift(v: nat, n: nat, k: nat)
    requires k < n && Shr(v, k + 1) == 0
    ensures Low(Scale(Scale(v, k) + Reverse(k, v / 2), n - 1 - k), n) == Reverse(n, v)
  {
    UpperHalfSmall(v, k);
    ShiftedSum(v, n - 1, k, n - 1 - k);
    CopyShiftedOut(v, n);
    ReverseBound(n, v);
    LowOfJoined(Scale(v, n - 1) + Reverse(n - 1, v / 2), v / 2, Reverse(n, v), n);
  }

  lemma {:induction false} ScaleZero(s: nat)
    ensures Scale(0, s) == 0
  {
    if s == 0 {
    } else {
      ScaleZero(s - 1);
    }
  }

  lemma {:induction false} ScaleDouble(x: nat, half: nat, low: nat, s: nat)
    requires x == 2 * half + low
    ensures Scale(x, s) == Scale(half, s + 1) + Scale(low, s)
  {
    if s == 0 {
    } else {
      ScaleDouble(x, half, low, s - 1);
    }
  }

  /** C's (x << s) taken on an already truncated x. */
  lemma ShiftTruncated(x: nat, n: nat, s: nat)
    ensures Shl(n, Low(x, n), s) == Low(Scale(x, s), n)
  {
    LowIsMod(x, n);
    LowIsMod(Scale(Low(x, n), s), n);
    LowIsMod(Scale(x, s), n);
    ScaleIsMul(Low(x, n), s);
    ScaleIsMul(x, s);
    ModMulLeft(x, Pow2(s), Pow2(n));
  }

  /** r is what k turns of the loop make of the value. */
  ghost predicate AfterTurns(n: nat, value: nat, k: nat, r: nat)
  {
    r == Low(Scale(value, k) + Reverse(k, value / 2), n)
  }

  lemma ShiftByOne(x: nat, y: nat, n: nat)
    requires y == 2 * x
    ensures Shl(n, Low(x, n), 1) == Low(y, n)
  {
    ShiftTruncated(x, n, 1);
    assert Scale(x, 0) == x;
    assert Scale(x, 1) == y;
  }

  lemma AndOne(v: nat)
    ensures And(v, 1) == v % 2
  {
    AndOnes(v, 1);
    assert Pow2(1) == 2 && Low(v, 1) == v % 2;
  }

  lemma BodyStep(n: nat, value: nat, k: nat, r: nat)
    requires 0 < n && AfterTurns(n, value, k, r)
    ensures AfterTurns(n, value, k + 1, Or(Shl(n, r, 1), And(Shr(value, k + 1), 1)))
  {
    ShiftInBit(Scale(value, k) + Reverse(k, value / 2), n, Shr(value, k + 1));
    LoopStep(value, n, k);
  }

  lemma LowOfTwice(x: nat, y: nat, n: nat) returns (half: nat)
    requires 0 < n && y == 2 * x
    ensures Low(y, n) == 2 * half
  {
    half := Low(x, n - 1);
    LowDigit(y, x, 0, n - 1);
  }

  /** (r << 1) | (v & 1) on an n-bit r. */
  lemma ShiftInBit(x: nat, n: nat, v: nat)
    requires 0 < n
    ensures Or(Shl(n, Low(x, n), 1), And(v, 1)) == Low(2 * x, n) + v % 2
  {
    var half := LowOfTwice(x, 2 * x, n);
    ShiftByOne(x, 2 * x, n);
    AndOne(v);
    OrLowBit(Low(2 * x, n), half, v % 2);
  }

  lemma LastStep(n: nat, value: nat, k: nat, r: nat)
    requires k < n && Shr(value, k + 1) == 0
    requires AfterTurns(n, value, k, r)
    ensures Shl(n, r, n - 1 - k) == Reverse(n, value)
  {
    ShiftTruncated(Scale(value, k) + Reverse(k, value / 2), n, n - 1 - k);
    FinalShift(value, n, k);
  }

  /** __RBIT(): the result starts as the whole value, and the combined shift of 31 leaves exactly its
      lowest bit. */
  method Rbit(value: U32) returns (result: nat)
    ensures result == Reverse(32, value)
    ensures forall i: nat :: Bit(result, i) <==> i < 32 && Bit(value, 31 - i)
  {
    var s: int := 31;
    var v: nat := Shr(value, 1);
    result := value;
    ghost var k: nat := 0;
    Start(value);
    while v != 0
      invariant s == 31 - k && 0 <= s
      invariant v == Shr(value, k + 1) < Pow2(s)
      invariant AfterTurns(32, value, k, result)
    {
      BodyStep(32, value, k, result);
      NextBit(value, k, v, s);
      result := Shl(32, result, 1);
      result := Or(result, And(v, 1));
      s := s - 1;
      v := Shr(v, 1);
      k := k + 1;
    }
    LastStep(32, value, k, result);
    result := Shl(32, result, s);
    ReverseAllBits(32, value);
  }

  lemma ReverseAllBits(n: nat, x: nat)
    ensures forall i: nat :: Bit(Reverse(n, x), i) <==> i < n && Bit(x, n - 1 - i)
  {
    forall i: nat
      ensures Bit(Reverse(n, x), i) <==> i < n && Bit(x, n - 1 - i)
    {
      ReverseMeaning(n, x, i);
    }
  }

  lemma NextBit(value: nat, k: nat, v: nat, s: nat)
    requires v == Shr(value, k + 1) && 0 < v < Pow2(s)
    ensures 0 < s && Shr(v, 1) == Shr(value, k + 2) < Pow2(s - 1)
  {
    ShrShr(value, k + 1, 1);
    assert Shr(v, 1) == v / 2;
  }

  lemma Start(value: U32)
    ensures AfterTurns(32, value, 0, value)
    ensures Shr(value, 1) == value / 2 < Pow2(31)
  {
    Pow2Values();
    LowSmall(value, 32);
  }
}
