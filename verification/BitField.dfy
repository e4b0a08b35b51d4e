/** The bit-field macros: reading, encoding and writing the field that a contiguous mask selects. */
module BitField {
  import opened Powers
  import opened Bits

  /** The macros' demand on a mask in an n-bit word: a non-empty run of ones. */
  ghost predicate IsFieldMask(n: nat, w: nat, s: nat, mask: nat)
  {
    0 < w && s + w <= n && mask == Mask(w, s)
  }

  lemma MaskInWord(n: nat, w: nat, s: nat)
    requires s + w <= n
    ensures Mask(w, s) + Pow2(s) <= Pow2(n)
  {
    ScaleBound(Pow2(w) - 1, w, s);
    Pow2Mono(w + s, n);
  }

  /** DEF_BIT_FIELD(): the shift may push ones out of the word. */
  function Make(n: nat, bitField: nat, bitShift: nat): nat
  {
    Shl(n, Pow2(if bitField >= n then n else bitField) - 1, bitShift)
  }

  /** It sets the asked-for number of bits from the shift up, as far as they fit in the word. */
  lemma BitMake(n: nat, bitField: nat, bitShift: nat, i: nat)
    ensures Bit(Make(n, bitField, bitShift), i) <==> bitShift <= i < n && i < bitShift + bitField
  {
    var ones := if bitField >= n then n else bitField;
    BitShl(n, Pow2(ones) - 1, bitShift, i);
    if bitShift <= i {
      BitOnes(ones, i - bitShift);
    }
  }

  lemma MakeInWord(n: nat, bitField: nat, bitShift: nat)
    ensures Make(n, bitField, bitShift) < Pow2(n)
  {
    LowBound(Scale(Pow2(if bitField >= n then n else bitField) - 1, bitShift), n);
  }

  /** A non-empty one that starts in the word is a field mask, of the width that fits. */
  lemma MakeIsFieldMask(n: nat, bitField: nat, bitShift: nat)
    requires 0 < bitField && bitShift < n
    ensures var w := if bitField + bitShift <= n then bitField else n - bitShift;
      IsFieldMask(n, w, bitShift, Make(n, bitField, bitShift))
  {
    var w := if bitField + bitShift <= n then bitField else n - bitShift;
    var x, y := Make(n, bitField, bitShift), Mask(w, bitShift);
    forall i: nat | i < n
      ensures Bit(x, i) <==> Bit(y, i)
    {
      BitMake(n, bitField, bitShift, i);
      BitMask(w, bitShift, i);
    }
    MaskInWord(n, w, bitShift);
    MakeInWord(n, bitField, bitShift);
    SameBits(n, x, y);
  }

  /** mask & ~(mask << 1). */
  function LowestMaskBit(n: nat, mask: nat): nat
  {
    LowBound(Scale(mask, 1), n);
    And(mask, Not(n, Shl(n, mask, 1)))
  }

  /** It is the mask's lowest bit, also when the mask reaches the top of the word. */
  lemma LowestMaskBitIsUnit(n: nat, w: nat, s: nat, mask: nat)
    requires IsFieldMask(n, w, s, mask)
    ensures LowestMaskBit(n, mask) == Pow2(s)
  {
    var x, y := LowestMaskBit(n, mask), Pow2(s);
    ScaleOne(s);
    LowBound(Scale(mask, 1), n);
    forall i: nat | i < n
      ensures Bit(x, i) <==> Bit(y, i)
    {
      BitAnd(mask, Not(n, Shl(n, mask, 1)), i);
      BitNot(n, Shl(n, mask, 1), i);
      BitShl(n, mask, 1, i);
      BitMask(w, s, i);
      if i > 0 {
        BitMask(w, s, i - 1);
      }
      BitScale(1, s, i);
      if s < i {
        BitAbove(1, 1, i - s);
      }
    }
    MaskInWord(n, w, s);
    AndBound(mask, Not(n, Shl(n, mask, 1)));
    Pow2Mono(s, n);
    SameBits(n, x, y);
  }

  // ---------- the macros ----------

  /** DEF_BIT_FIELD_RD(). */
  function Rd(n: nat, val: nat, mask: nat): nat
    requires 0 < LowestMaskBit(n, mask)
  {
    Quotient(And(val, mask), LowestMaskBit(n, mask))
  }

  /** DEF_BIT_FIELD_ENC(). */
  function Enc(n: nat, fieldVal: nat, mask: nat): nat
  {
    And(Product(n, fieldVal, LowestMaskBit(n, mask)), mask)
  }

  /** Multiplication in an n-bit word. */
  function Product(n: nat, x: nat, y: nat): nat
  {
    MulNat(x, y);
    Low(x * y, n)
  }

  /** The value DEF_BIT_FIELD_WR() stores. */
  function Wr(n: nat, v: nat, fieldVal: nat, mask: nat): nat
    requires mask < Pow2(n)
  {
    Or(And(v, Not(n, mask)), Enc(n, fieldVal, mask))
  }

  // ---------- what they do to each bit ----------

  /** Reading yields the number in the field. */
  lemma RdIsField(n: nat, w: nat, s: nat, val: nat, mask: nat)
    requires IsFieldMask(n, w, s, mask)
    ensures LowestMaskBit(n, mask) == Pow2(s)
    ensures Rd(n, val, mask) == Field(val, w, s) < Pow2(w)
  {
    LowestMaskBitIsUnit(n, w, s, mask);
    AndMask(val, w, s);
    ScaleIsMul(Field(val, w, s), s);
    MulDiv(Field(val, w, s), Pow2(s));
    LowBound(Shr(val, s), w);
  }

  lemma BitEnc(n: nat, w: nat, s: nat, f: nat, mask: nat, i: nat)
    requires IsFieldMask(n, w, s, mask)
    ensures Bit(Enc(n, f, mask), i) <==> s <= i < s + w && Bit(f, i - s)
  {
    LowestMaskBitIsUnit(n, w, s, mask);
    ScaleIsMul(f, s);
    BitAnd(Shl(n, f, s), mask, i);
    BitShl(n, f, s, i);
    BitMask(w, s, i);
  }

  /** Writing replaces the bits of the field and keeps all others. */
  lemma BitWr(n: nat, w: nat, s: nat, v: nat, f: nat, mask: nat, i: nat)
    requires IsFieldMask(n, w, s, mask) && v < Pow2(n)
    ensures mask < Pow2(n)
    ensures Bit(Wr(n, v, f, mask), i) <==> if s <= i < s + w then Bit(f, i - s) else Bit(v, i)
  {
    MaskInWord(n, w, s);
    BitOr(And(v, Not(n, mask)), Enc(n, f, mask), i);
    BitAnd(v, Not(n, mask), i);
    BitNot(n, mask, i);
    BitMask(w, s, i);
    BitEnc(n, w, s, f, mask, i);
    if n <= i {
      BitAbove(n, v, i);
    }
  }

  lemma WrInWord(n: nat, w: nat, s: nat, v: nat, f: nat, mask: nat)
    requires IsFieldMask(n, w, s, mask) && v < Pow2(n)
    ensures mask < Pow2(n) && Wr(n, v, f, mask) < Pow2(n)
  {
    MaskInWord(n, w, s);
    AndBound(v, Not(n, mask));
    AndBound(Product(n, f, LowestMaskBit(n, mask)), mask);
    OrBound(n, And(v, Not(n, mask)), Enc(n, f, mask));
  }

  // ---------- lens laws ----------

  lemma FieldAfterWrite(n: nat, w: nat, s: nat, v: nat, f: nat, mask: nat)
    requires IsFieldMask(n, w, s, mask) && v < Pow2(n)
    ensures mask < Pow2(n)
    ensures Field(Wr(n, v, f, mask), w, s) == Low(f, w)
  {
    MaskInWord(n, w, s);
    var x := Wr(n, v, f, mask);
    forall i: nat | i < w
      ensures Bit(Field(x, w, s), i) <==> Bit(Low(f, w), i)
    {
      BitField(x, w, s, i);
      BitWr(n, w, s, v, f, mask, i + s);
      BitLow(f, w, i);
    }
    LowBound(f, w);
    LowBound(Shr(x, s), w);
    SameBits(w, Field(x, w, s), Low(f, w));
  }

  lemma WriteOwnField(n: nat, w: nat, s: nat, v: nat, mask: nat)
    requires IsFieldMask(n, w, s, mask) && v < Pow2(n)
    ensures mask < Pow2(n)
    ensures Wr(n, v, Field(v, w, s), mask) == v
  {
    var f := Field(v, w, s);
    WrInWord(n, w, s, v, f, mask);
    var x := Wr(n, v, f, mask);
    forall i: nat | i < n
      ensures Bit(x, i) <==> Bit(v, i)
    {
      BitWr(n, w, s, v, f, mask, i);
      if s <= i {
        BitField(v, w, s, i - s);
      }
    }
    SameBits(n, x, v);
  }

  /** What is written is read back, reduced to the width of the field. */
  lemma ReadAfterWrite(n: nat, w: nat, s: nat, v: nat, f: nat, mask: nat)
    requires IsFieldMask(n, w, s, mask) && v < Pow2(n)
    ensures mask < Pow2(n) && LowestMaskBit(n, mask) == Pow2(s)
    ensures Rd(n, Wr(n, v, f, mask), mask) == f % Pow2(w)
  {
    FieldAfterWrite(n, w, s, v, f, mask);
    RdIsField(n, w, s, Wr(n, v, f, mask), mask);
    LowIsMod(f, w);
  }

  /** Writing what was read changes nothing. */
  lemma WriteOfRead(n: nat, w: nat, s: nat, v: nat, mask: nat)
    requires IsFieldMask(n, w, s, mask) && v < Pow2(n)
    ensures mask < Pow2(n) && LowestMaskBit(n, mask) == Pow2(s)
    ensures Wr(n, v, Rd(n, v, mask), mask) == v
  {
    RdIsField(n, w, s, v, mask);
    WriteOwnField(n, w, s, v, mask);
  }

  /** The last write to a field wins. */
  lemma WriteTwice(n: nat, w: nat, s: nat, v: nat, f: nat, g: nat, mask: nat)
    requires IsFieldMask(n, w, s, mask) && v < Pow2(n)
    ensures mask < Pow2(n)
    ensures Wr(n, Wr(n, v, f, mask), g, mask) == Wr(n, v, g, mask)
  {
    WrInWord(n, w, s, v, f, mask);
    WrInWord(n, w, s, v, g, mask);
    var x := Wr(n, v, f, mask);
    WrInWord(n, w, s, x, g, mask);
    forall i: nat | i < n
      ensures Bit(Wr(n, x, g, mask), i) <==> Bit(Wr(n, v, g, mask), i)
    {
      BitWr(n, w, s, v, f, mask, i);
      BitWr(n, w, s, x, g, mask, i);
      BitWr(n, w, s, v, g, mask, i);
    }
    SameBits(n, Wr(n, x, g, mask), Wr(n, v, g, mask));
  }

  /** Masks with no bit in common. */
  lemma DisjointFields(n: nat, w: nat, s: nat, w': nat, s': nat, mask: nat, mask': nat)
    requires IsFieldMask(n, w, s, mask) && IsFieldMask(n, w', s', mask') && And(mask, mask') == 0
    ensures s + w <= s' || s' + w' <= s
  {
    var i := if s < s' then s' else s;
    BitAnd(mask, mask', i);
    BitZero(i);
    BitMask(w, s, i);
    BitMask(w', s', i);
  }

  lemma FieldUnchanged(n: nat, w: nat, s: nat, w': nat, s': nat, v: nat, f: nat, mask: nat)
    requires IsFieldMask(n, w, s, mask) && (s + w <= s' || s' + w' <= s) && v < Pow2(n)
    ensures mask < Pow2(n)
    ensures Field(Wr(n, v, f, mask), w', s') == Field(v, w', s')
  {
    MaskInWord(n, w, s);
    var x := Wr(n, v, f, mask);
    forall i: nat | i < w'
      ensures Bit(Field(x, w', s'), i) <==> Bit(Field(v, w', s'), i)
    {
      BitField(x, w', s', i);
      BitField(v, w', s', i);
      BitWr(n, w, s, v, f, mask, i + s');
    }
    LowBound(Shr(x, s'), w');
    LowBound(Shr(v, s'), w');
    SameBits(w', Field(x, w', s'), Field(v, w', s'));
  }

  /** Writes to disjoint fields do not disturb each other's reads ... */
  lemma ReadOfOtherField(n: nat, w: nat, s: nat, w': nat, s': nat, v: nat, f: nat, mask: nat, mask': nat)
    requires IsFieldMask(n, w, s, mask) && IsFieldMask(n, w', s', mask') && And(mask, mask') == 0
    requires v < Pow2(n)
    ensures mask < Pow2(n) && LowestMaskBit(n, mask') == Pow2(s')
    ensures Rd(n, Wr(n, v, f, mask), mask') == Rd(n, v, mask')
  {
    DisjointFields(n, w, s, w', s', mask, mask');
    FieldUnchanged(n, w, s, w', s', v, f, mask);
    RdIsField(n, w', s', Wr(n, v, f, mask), mask');
    RdIsField(n, w', s', v, mask');
  }

  /** ... and commute. */
  lemma WritesCommute(n: nat, w: nat, s: nat, w': nat, s': nat, v: nat, f: nat, g: nat, mask: nat, mask': nat)
    requires IsFieldMask(n, w, s, mask) && IsFieldMask(n, w', s', mask') && And(mask, mask') == 0
    requires v < Pow2(n)
    ensures mask < Pow2(n) && mask' < Pow2(n)
    ensures Wr(n, Wr(n, v, f, mask), g, mask') == Wr(n, Wr(n, v, g, mask'), f, mask)
  {
    DisjointFields(n, w, s, w', s', mask, mask');
    WrInWord(n, w, s, v, f, mask);
    WrInWord(n, w', s', v, g, mask');
    var x, y := Wr(n, v, f, mask), Wr(n, v, g, mask');
    WrInWord(n, w', s', x, g, mask');
    WrInWord(n, w, s, y, f, mask);
    forall i: nat | i < n
      ensures Bit(Wr(n, x, g, mask'), i) <==> Bit(Wr(n, y, f, mask), i)
    {
      BitWr(n, w, s, v, f, mask, i);
      BitWr(n, w', s', v, g, mask', i);
      BitWr(n, w', s', x, g, mask', i);
      BitWr(n, w, s, y, f, mask, i);
    }
    SameBits(n, Wr(n, x, g, mask'), Wr(n, y, f, mask));
  }

  /** A variable of n bits that the write macro assigns. */
  class Variable {
    const n: nat
    var val: nat

    constructor (n: nat, val: nat)
      requires val < Pow2(n)
      ensures this.n == n && this.val == val
    {
      this.n := n;
      this.val := val;
    }

    /** DEF_BIT_FIELD_WR(). */
    method Write(fieldVal: nat, mask: nat, ghost w: nat, ghost s: nat)
      requires IsFieldMask(n, w, s, mask) && val < Pow2(n)
      modifies this
      ensures mask < Pow2(n) && val == Wr(n, old(val), fieldVal, mask) < Pow2(n)
      ensures Field(val, w, s) == fieldVal % Pow2(w)
      ensures forall i: nat :: i < s || s + w <= i ==> (Bit(val, i) <==> Bit(old(val), i))
    {
      WrInWord(n, w, s, val, fieldVal, mask);
      FieldAfterWrite(n, w, s, val, fieldVal, mask);
      LowIsMod(fieldVal, w);
      forall i: nat
        ensures i < s || s + w <= i ==> (Bit(Wr(n, val, fieldVal, mask), i) <==> Bit(val, i))
      {
        BitWr(n, w, s, val, fieldVal, mask, i);
      }
      val := Or(And(val, Not(n, mask)), Enc(n, fieldVal, mask));
    }
  }
}
