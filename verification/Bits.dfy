/** Bitwise C operators on numbers of any width, and their bit-by-bit meaning. */
module Bits {
  import opened Powers

  /** Bit i of x, counted from the least significant. */
  ghost predicate Bit(x: nat, i: nat)
  {
    if i == 0 then x % 2 == 1 else Bit(x / 2, i - 1)
  }

  function And(x: nat, y: nat): nat
  {
    if x == 0 || y == 0 then 0
    else 2 * And(x / 2, y / 2) + if x % 2 == 1 && y % 2 == 1 then 1 else 0
  }

  function Or(x: nat, y: nat): nat
    decreases x + y
  {
    if x == 0 && y == 0 then 0
    else 2 * Or(x / 2, y / 2) + if x % 2 == 1 || y % 2 == 1 then 1 else 0
  }

  /** ~x for an n-bit x. */
  function Not(n: nat, x: nat): nat
    requires x < Pow2(n)
  {
    Pow2(n) - 1 - x
  }

  /** x >> s: the bits of x from position s up. */
  function Shr(x: nat, s: nat): nat
    decreases s, x
  {
    if s == 0 then x else Shr(x / 2, s - 1)
  }

  /** The lowest w bits of x, in two's complement when x is negative: what an unsigned w-bit variable
      keeps of it. */
  function Low(x: int, w: nat): nat
    decreases w, x
  {
    if w == 0 then 0 else 2 * Low(x / 2, w - 1) + x % 2
  }

  /** x shifted left by s with nothing lost. */
  function Scale(x: nat, s: nat): nat
  {
    if s == 0 then x else 2 * Scale(x, s - 1)
  }

  /** x << s in an n-bit variable. */
  function Shl(n: nat, x: nat, s: nat): nat
  {
    Low(Scale(x, s), n)
  }

  /** The w-bit field of ones starting at bit s. */
  ghost function Mask(w: nat, s: nat): nat
  {
    Scale(Pow2(w) - 1, s)
  }

  /** The number stored in the w-bit field of x starting at bit s. */
  ghost function Field(x: nat, w: nat, s: nat): nat
  {
    Low(Shr(x, s), w)
  }

  // ---------- one binary digit at a time ----------

  lemma LowDigit(x: nat, y: nat, b: nat, w: nat)
    requires x == 2 * y + b && b < 2
    ensures Low(x, w + 1) == 2 * Low(y, w) + b
  {
    assert x / 2 == y && x % 2 == b;
  }

  lemma ShrDigit(x: nat, y: nat, b: nat, s: nat)
    requires x == 2 * y + b && b < 2
    ensures Shr(x, s + 1) == Shr(y, s)
  {
    assert x / 2 == y;
  }

  lemma AndDigit(x: nat, a: nat, b: nat, y: nat, c: nat, d: nat)
    requires x == 2 * a + b && y == 2 * c + d && b < 2 && d < 2
    ensures And(x, y) == 2 * And(a, c) + if b == 1 && d == 1 then 1 else 0
  {
    assert x / 2 == a && x % 2 == b && y / 2 == c && y % 2 == d;
    AndStep(x, y);
  }

  // ---------- shifts and truncation as arithmetic ----------

  lemma {:induction false} ShrIsDiv(x: nat, s: nat)
    ensures Shr(x, s) == x / Pow2(s)
    decreases s
  {
    if s == 0 {
    } else {
      ShrIsDiv(x / 2, s - 1);
      DivModProduct(x, 2, Pow2(s - 1));
    }
  }

  lemma {:induction false} LowIsMod(x: int, w: nat)
    ensures Low(x, w) == x % Pow2(w) < Pow2(w)
    decreases w
  {
    if w == 0 {
    } else {
      LowIsMod(x / 2, w - 1);
      DivModProduct(x, 2, Pow2(w - 1));
    }
  }

  lemma {:induction false} ScaleIsMul(x: nat, s: nat)
    ensures Scale(x, s) == x * Pow2(s)
  {
    if s == 0 {
    } else {
      ScaleIsMul(x, s - 1);
    }
  }

  lemma {:induction false} LowBound(x: int, w: nat)
    ensures Low(x, w) < Pow2(w)
    decreases w
  {
    if w == 0 {
    } else {
      LowBound(x / 2, w - 1);
    }
  }

  lemma {:induction false} LowSmall(x: nat, w: nat)
    requires x < Pow2(w)
    ensures Low(x, w) == x && Shr(x, w) == 0
    decreases w
  {
    if w == 0 {
    } else {
      LowSmall(x / 2, w - 1);
    }
  }

  lemma LowTwice(x: int, w: nat)
    ensures Low(Low(x, w), w) == Low(x, w)
  {
    LowBound(x, w);
    LowSmall(Low(x, w), w);
  }

  lemma {:induction false} LowLow(x: int, w: nat, n: nat)
    requires w <= n
    ensures Low(Low(x, n), w) == Low(x, w)
    decreases w
  {
    if w == 0 {
    } else {
      LowLow(x / 2, w - 1, n - 1);
      LowDigit(Low(x, n), Low(x / 2, n - 1), x % 2, w - 1);
    }
  }

  lemma {:induction false} LowOfScale(x: nat, s: nat, w: nat)
    ensures Low(Scale(x, s), s + w) == Scale(Low(x, w), s)
  {
    if s == 0 {
    } else {
      LowOfScale(x, s - 1, w);
      LowDigit(Scale(x, s), Scale(x, s - 1), 0, s - 1 + w);
    }
  }

  /** A number is its high part and its low part. */
  lemma {:induction false} Split(x: nat, w: nat)
    ensures x == Scale(Shr(x, w), w) + Low(x, w)
    decreases w
  {
    if w == 0 {
    } else {
      Split(x / 2, w - 1);
    }
  }

  /** ... and any high and low part make such a number. */
  lemma {:induction false} Join(hi: nat, lo: nat, w: nat)
    requires lo < Pow2(w)
    ensures Shr(Scale(hi, w) + lo, w) == hi && Low(Scale(hi, w) + lo, w) == lo
    decreases w
  {
    if w == 0 {
    } else {
      var x := Scale(hi, w) + lo;
      assert x / 2 == Scale(hi, w - 1) + lo / 2;
      Join(hi, lo / 2, w - 1);
    }
  }

  lemma {:induction false} ScaleBound(x: nat, n: nat, s: nat)
    requires x < Pow2(n)
    ensures Scale(x, s) + Pow2(s) <= Pow2(n + s)
  {
    if s == 0 {
    } else {
      ScaleBound(x, n, s - 1);
    }
  }

  lemma {:induction false} ScaleMono(x: nat, y: nat, s: nat)
    requires x < y
    ensures Scale(x, s) + Pow2(s) <= Scale(y, s)
  {
    if s == 0 {
    } else {
      ScaleMono(x, y, s - 1);
    }
  }

  lemma {:induction false} ScaleAdd(x: nat, y: nat, s: nat)
    ensures Scale(x + y, s) == Scale(x, s) + Scale(y, s)
  {
    if s == 0 {
    } else {
      ScaleAdd(x, y, s - 1);
    }
  }

  lemma {:induction false} ScaleScale(x: nat, s: nat, t: nat)
    ensures Scale(Scale(x, s), t) == Scale(x, s + t)
  {
    if t == 0 {
    } else {
      ScaleScale(x, s, t - 1);
    }
  }

  lemma {:induction false} ScaleOne(s: nat)
    ensures Scale(1, s) == Pow2(s)
  {
    if s == 0 {
    } else {
      ScaleOne(s - 1);
    }
  }

  lemma {:induction false} ShrShr(x: nat, s: nat, t: nat)
    ensures Shr(Shr(x, s), t) == Shr(x, s + t)
    decreases s
  {
    if s == 0 {
    } else {
      ShrShr(x / 2, s - 1, t);
    }
  }

  // ---------- the meaning of each operator, bit by bit ----------

  lemma BitIsQuotientParity(x: nat, i: nat)
    ensures Bit(x, i) <==> (x / Pow2(i)) % 2 == 1
  {
    BitShr(x, i, 0);
    ShrIsDiv(x, i);
  }

  lemma {:induction false} BitShr(x: nat, s: nat, i: nat)
    ensures Bit(Shr(x, s), i) <==> Bit(x, i + s)
    decreases s
  {
    if s == 0 {
    } else {
      BitShr(x / 2, s - 1, i);
    }
  }

  lemma {:induction false} BitScale(x: nat, s: nat, i: nat)
    ensures Bit(Scale(x, s), i) <==> s <= i && Bit(x, i - s)
    decreases s
  {
    if s == 0 {
    } else {
      if i > 0 {
        BitScale(x, s - 1, i - 1);
      }
    }
  }

  lemma {:induction false} BitLow(x: nat, w: nat, i: nat)
    ensures Bit(Low(x, w), i) <==> i < w && Bit(x, i)
    decreases w
  {
    if w == 0 {
      BitZero(i);
    } else if i > 0 {
      BitLow(x / 2, w - 1, i - 1);
    }
  }

  lemma {:induction false} BitZero(i: nat)
    ensures !Bit(0, i)
  {
    if i == 0 {
    } else {
      BitZero(i - 1);
    }
  }

  lemma {:induction false} BitAnd(x: nat, y: nat, i: nat)
    ensures Bit(And(x, y), i) <==> Bit(x, i) && Bit(y, i)
    decreases i
  {
    if x == 0 || y == 0 {
      BitZero(i);
    } else if i > 0 {
      BitAnd(x / 2, y / 2, i - 1);
    }
  }

  lemma {:induction false} BitOr(x: nat, y: nat, i: nat)
    ensures Bit(Or(x, y), i) <==> Bit(x, i) || Bit(y, i)
    decreases i
  {
    if x == 0 && y == 0 {
      BitZero(i);
    } else if i > 0 {
      BitOr(x / 2, y / 2, i - 1);
    }
  }

  lemma {:induction false} BitNot(n: nat, x: nat, i: nat)
    requires x < Pow2(n)
    ensures Bit(Not(n, x), i) <==> i < n && !Bit(x, i)
    decreases n
  {
    if n == 0 {
      BitZero(i);
    } else if i > 0 {
      BitNot(n - 1, x / 2, i - 1);
      assert Not(n, x) / 2 == Not(n - 1, x / 2);
    }
  }

  lemma {:induction false} BitOnes(w: nat, i: nat)
    ensures Bit(Pow2(w) - 1, i) <==> i < w
  {
    if w == 0 {
      BitZero(i);
    } else if i > 0 {
      BitOnes(w - 1, i - 1);
    }
  }

  lemma BitMask(w: nat, s: nat, i: nat)
    ensures Bit(Mask(w, s), i) <==> s <= i < s + w
  {
    BitScale(Pow2(w) - 1, s, i);
    if s <= i {
      BitOnes(w, i - s);
    }
  }

  lemma BitShl(n: nat, x: nat, s: nat, i: nat)
    ensures Bit(Shl(n, x, s), i) <==> s <= i < n && Bit(x, i - s)
  {
    BitScale(x, s, i);
    BitLow(Scale(x, s), n, i);
  }

  lemma BitField(x: nat, w: nat, s: nat, i: nat)
    ensures Bit(Field(x, w, s), i) <==> i < w && Bit(x, i + s)
  {
    BitShr(x, s, i);
    BitLow(Shr(x, s), w, i);
  }

  /** No bit is set above the width of a number. */
  lemma {:induction false} BitAbove(n: nat, x: nat, i: nat)
    requires x < Pow2(n) && n <= i
    ensures !Bit(x, i)
    decreases n
  {
    if n == 0 {
      BitZero(i);
    } else {
      BitAbove(n - 1, x / 2, i - 1);
    }
  }

  /** A number is its bits. */
  lemma {:induction false} SameBits(n: nat, x: nat, y: nat)
    requires x < Pow2(n) && y < Pow2(n)
    requires forall i: nat :: i < n ==> (Bit(x, i) <==> Bit(y, i))
    ensures x == y
  {
    if n == 0 {
    } else {
      assert Bit(x, 0) <==> Bit(y, 0);
      forall i: nat | i < n - 1
        ensures Bit(x / 2, i) <==> Bit(y / 2, i)
      {
        assert Bit(x, i + 1) <==> Bit(y, i + 1);
      }
      SameBits(n - 1, x / 2, y / 2);
    }
  }

  // ---------- sizes ----------

  lemma {:induction false} AndBound(x: nat, y: nat)
    ensures And(x, y) <= x && And(x, y) <= y
  {
    if x == 0 || y == 0 {
    } else {
      AndBound(x / 2, y / 2);
    }
  }

  lemma {:induction false} AndSymmetric(x: nat, y: nat)
    ensures And(x, y) == And(y, x)
  {
    if x == 0 || y == 0 {
    } else {
      AndSymmetric(x / 2, y / 2);
    }
  }

  lemma {:induction false} OrBound(n: nat, x: nat, y: nat)
    requires x < Pow2(n) && y < Pow2(n)
    ensures Or(x, y) < Pow2(n)
  {
    if n == 0 {
    } else {
      OrBound(n - 1, x / 2, y / 2);
    }
  }

  lemma {:induction false} ShrBound(x: nat, s: nat)
    ensures Shr(x, s) <= x
    decreases s
  {
    if s == 0 {
    } else {
      ShrBound(x / 2, s - 1);
    }
  }

  // ---------- operators as arithmetic ----------

  lemma {:induction false} OrDisjoint(x: nat, y: nat)
    requires And(x, y) == 0
    ensures Or(x, y) == x + y
    decreases x + y
  {
    if x == 0 && y == 0 {
    } else {
      OrDisjoint(x / 2, y / 2);
    }
  }

  lemma {:induction false} AndOnes(x: nat, w: nat)
    ensures And(x, Pow2(w) - 1) == Low(x, w)
    decreases w
  {
    if w == 0 {
    } else {
      AndOnes(x / 2, w - 1);
      AndDigit(x, x / 2, x % 2, Pow2(w) - 1, Pow2(w - 1) - 1, 1);
    }
  }

  lemma AndStep(x: nat, y: nat)
    ensures And(x, y) == 2 * And(x / 2, y / 2) + if x % 2 == 1 && y % 2 == 1 then 1 else 0
  {
  }

  lemma {:induction false} AndShifted(x: nat, y: nat, s: nat)
    ensures And(x, Scale(y, s)) == Scale(And(Shr(x, s), y), s)
    decreases s
  {
    if s == 0 {
    } else {
      AndShifted(x / 2, y, s - 1);
      AndStep(x, Scale(y, s));
    }
  }

  /** Conjunction works on the high and the low part separately. */
  lemma {:induction false} AndSplit(x: nat, y: nat, w: nat)
    ensures And(x, y) == Scale(And(Shr(x, w), Shr(y, w)), w) + And(Low(x, w), Low(y, w))
    decreases w
  {
    if w == 0 {
    } else {
      var a, c := x / 2, y / 2;
      AndSplit(a, c, w - 1);
      AndStep(x, y);
      AndDigit(Low(x, w), Low(a, w - 1), x % 2, Low(y, w), Low(c, w - 1), y % 2);
    }
  }

  lemma AndJoin(x: nat, hi: nat, lo: nat, w: nat, y: nat)
    requires lo < Pow2(w) && y == Scale(hi, w) + lo
    ensures And(x, y) == Scale(And(Shr(x, w), hi), w) + And(Low(x, w), lo)
  {
    Join(hi, lo, w);
    AndSplit(x, y, w);
  }

  /** Masking keeps exactly one field. */
  lemma AndMask(x: nat, w: nat, s: nat)
    ensures And(x, Mask(w, s)) == Scale(Field(x, w, s), s)
  {
    AndShifted(x, Pow2(w) - 1, s);
    AndOnes(Shr(x, s), w);
  }

  lemma {:induction false} AndComplement(n: nat, x: nat)
    requires x < Pow2(n)
    ensures And(x, Not(n, x)) == 0
  {
    if n == 0 || x == 0 || Not(n, x) == 0 {
    } else {
      AndComplement(n - 1, x / 2);
      assert Not(n, x) / 2 == Not(n - 1, x / 2);
    }
  }
}
