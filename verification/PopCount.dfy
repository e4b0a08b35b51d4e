/** The parallel population count, against the recursive count of set bits. */
module PopCount {
  import opened Powers
  import opened Bits

  /** Number of set bits. */
  ghost function Ones(v: nat): nat
  {
    if v == 0 then 0 else v % 2 + Ones(v / 2)
  }

  /** k copies of d, each in its own w-bit field. */
  ghost function Repeat(k: nat, w: nat, d: nat): nat
  {
    if k == 0 then 0 else d + Scale(Repeat(k - 1, w, d), w)
  }

  /** The k lowest w-bit fields of v, each replaced by the number of bits set in it. */
  ghost function FieldCounts(v: nat, k: nat, w: nat): nat
    decreases k, v, w
  {
    if k == 0 then 0 else Ones(Low(v, w)) + Scale(FieldCounts(Shr(v, w), k - 1, w), w)
  }

  const MASK_01010101_32: U32 := 0x5555_5555
  const MASK_00110011_32: U32 := 0x3333_3333
  const MASK_00001111_32: U32 := 0x0F0F_0F0F
  const POWERS_OF_256_32: U32 := 0x0101_0101

  // ---------- counting by parts ----------

  lemma OnesStep(v: nat)
    ensures Ones(v) == v % 2 + Ones(v / 2)
  {
  }

  lemma OnesDigit(x: nat, y: nat, b: nat)
    requires x == 2 * y + b && b < 2
    ensures Ones(x) == Ones(y) + b
  {
    assert x / 2 == y && x % 2 == b;
    OnesStep(x);
  }

  lemma {:induction false} OnesSplit(v: nat, w: nat)
    ensures Ones(v) == Ones(Low(v, w)) + Ones(Shr(v, w))
    decreases w
  {
    if w == 0 {
    } else {
      OnesSplit(v / 2, w - 1);
      OnesStep(v);
      OnesDigit(Low(v, w), Low(v / 2, w - 1), v % 2);
    }
  }

  lemma {:induction false} OnesBound(v: nat, w: nat)
    requires v < Pow2(w)
    ensures Ones(v) <= w
  {
    if v == 0 {
    } else {
      OnesBound(v / 2, w - 1);
    }
  }

  /** The count in a w-bit field fits in the field. */
  lemma CountFits(v: nat, w: nat)
    ensures Ones(Low(v, w)) <= w < Pow2(w)
  {
    LowBound(v, w);
    OnesBound(Low(v, w), w);
    Pow2Above(w);
  }

  // ---------- one stage: adding neighbouring fields ----------

  /** A mask of w ones below an n-bit field boundary, and m above it. */
  lemma MaskedPair(x: nat, m: nat, w: nat, n: nat, mask: nat)
    requires w <= n && mask == Pow2(w) - 1 + Scale(m, n)
    ensures And(x, mask) == Low(x, w) + Scale(And(Shr(x, n), m), n)
  {
    Pow2Mono(w, n);
    AndJoin(x, m, Pow2(w) - 1, n, mask);
    LowMasked(x, w, n);
  }

  lemma LowMasked(x: nat, w: nat, n: nat)
    requires w <= n
    ensures And(Low(x, n), Pow2(w) - 1) == Low(x, w)
  {
    AndOnes(Low(x, n), w);
    LowLow(x, w, n);
  }

  /** Keep the even w-bit fields and the odd ones, and add them. */
  ghost function AddNeighbours(x: nat, k: nat, w: nat): nat
  {
    And(x, Repeat(k, 2 * w, Pow2(w) - 1)) + And(Shr(x, w), Repeat(k, 2 * w, Pow2(w) - 1))
  }

  lemma AddNeighboursStep(x: nat, k: nat, w: nat)
    requires 0 < k
    ensures AddNeighbours(x, k, w)
         == Low(x, w) + Low(Shr(x, w), w) + Scale(AddNeighbours(Shr(x, 2 * w), k - 1, w), 2 * w)
  {
    var mask, m := Repeat(k, 2 * w, Pow2(w) - 1), Repeat(k - 1, 2 * w, Pow2(w) - 1);
    var rest := Shr(x, 2 * w);
    MaskedPair(x, m, w, 2 * w, mask);
    MaskedPair(Shr(x, w), m, w, 2 * w, mask);
    ShrShr(x, w, 2 * w);
    ShrShr(x, 2 * w, w);
    ScaleAdd(And(rest, m), And(Shr(rest, w), m), 2 * w);
  }

  /** The lowest field of the counts, and the counts of the other fields. */
  lemma FieldCountsFirst(v: nat, k: nat, w: nat)
    requires 0 < k
    ensures Low(FieldCounts(v, k, w), w) == Ones(Low(v, w))
    ensures Shr(FieldCounts(v, k, w), w) == FieldCounts(Shr(v, w), k - 1, w)
  {
    CountFits(v, w);
    Join(FieldCounts(Shr(v, w), k - 1, w), Ones(Low(v, w)), w);
  }

  lemma FieldCountsPair(v: nat, j: nat, w: nat, x: nat, y: nat)
    requires 2 <= j && x == FieldCounts(v, j, w) && y == FieldCounts(Shr(v, w), j - 1, w)
    ensures Low(x, w) == Ones(Low(v, w))
    ensures Low(Shr(x, w), w) == Ones(Low(Shr(v, w), w))
    ensures Shr(x, w + w) == FieldCounts(Shr(v, w + w), j - 2, w)
  {
    FieldCountsFirst(v, j, w);
    FieldCountsFirst(Shr(v, w), j - 1, w);
    ShrShr(v, w, w);
    ShrShr(x, w, w);
  }

  /** For every width w: masking the even w-bit counts and the odd ones and adding them yields exact
      counts of all the 2w-bit fields. */
  lemma {:induction false} StageAddsNeighbours(v: nat, k: nat, w: nat)
    ensures AddNeighbours(FieldCounts(v, 2 * k, w), k, w) == FieldCounts(v, k, 2 * w)
    decreases k
  {
    if k == 0 {
    } else {
      var x := FieldCounts(v, 2 * k, w);
      AddNeighboursStep(x, k, w);
      FieldCountsPair(v, 2 * k, w, x, FieldCounts(Shr(v, w), 2 * k - 1, w));
      StageAddsNeighbours(Shr(v, 2 * w), k - 1, w);
      PairCount(v, w);
    }
  }

  lemma PairCount(v: nat, w: nat)
    ensures Ones(Low(v, 2 * w)) == Ones(Low(v, w)) + Ones(Low(Shr(v, w), w))
  {
    OnesSplit(Low(v, 2 * w), w);
    LowLow(v, w, 2 * w);
    ShrLow(v, w, w);
  }

  lemma {:induction false} ShrLow(x: nat, s: nat, w: nat)
    ensures Shr(Low(x, s + w), s) == Low(Shr(x, s), w)
    decreases s
  {
    if s == 0 {
    } else {
      ShrLow(x / 2, s - 1, w);
    }
  }

  // ---------- the first stage, and the last ----------

  /** Single bits are their own counts. */
  lemma {:induction false} BitsAreCounts(v: nat, k: nat)
    requires v < Pow2(k)
    ensures FieldCounts(v, k, 1) == v
    decreases k
  {
    if k == 0 {
    } else {
      BitsAreCounts(v / 2, k - 1);
      assert Shr(v, 1) == v / 2;
      assert Low(v, 1) == v % 2;
      OnesStep(v % 2);
      assert Scale(v / 2, 1) == 2 * (v / 2);
    }
  }

  /** The two lowest bits of a value, and the rest. */
  lemma Quarter(v: nat, b0: nat, b1: nat, r: nat)
    requires v == b0 + 2 * b1 + 4 * r && b0 < 2 && b1 < 2
    ensures Shr(v, 1) == b1 + 2 * r && Shr(v, 2) == r
    ensures Low(v, 1) == b0 && Low(Shr(v, 1), 1) == b1
  {
    var u := b1 + 2 * r;
    LowDigit(v, u, b0, 0);
    ShrDigit(v, u, b0, 0);
    ShrDigit(v, u, b0, 1);
    LowDigit(u, r, b1, 0);
    ShrDigit(u, r, b1, 0);
  }

  lemma OddBitsStep(v: nat, b0: nat, b1: nat, r: nat, k: nat)
    requires v == b0 + 2 * b1 + 4 * r && b0 < 2 && b1 < 2 && 0 < k
    ensures And(Shr(v, 1), Repeat(k, 2, 1)) == b1 + 4 * And(Shr(r, 1), Repeat(k - 1, 2, 1))
  {
    Quarter(v, b0, b1, r);
    MaskedPair(Shr(v, 1), Repeat(k - 1, 2, 1), 1, 2, Repeat(k, 2, 1));
    ShrShr(v, 1, 2);
    ShrShr(v, 2, 1);
    ScaleTwice(And(Shr(r, 1), Repeat(k - 1, 2, 1)));
  }

  lemma NeighbourBitsStep(v: nat, b0: nat, b1: nat, r: nat, k: nat)
    requires v == b0 + 2 * b1 + 4 * r && b0 < 2 && b1 < 2 && 0 < k
    ensures AddNeighbours(v, k, 1) == b0 + b1 + 4 * AddNeighbours(r, k - 1, 1)
  {
    Quarter(v, b0, b1, r);
    AddNeighboursStep(v, k, 1);
    ScaleTwice(AddNeighbours(r, k - 1, 1));
  }

  lemma ScaleTwice(x: nat)
    ensures Scale(x, 2) == 4 * x
  {
    assert Scale(x, 0) == x;
    assert Scale(x, 1) == 2 * x;
  }

  lemma FourParts(v: nat) returns (b0: nat, b1: nat, r: nat)
    ensures v == b0 + 2 * b1 + 4 * r && b0 < 2 && b1 < 2
  {
    b0, b1, r := v % 2, v / 2 % 2, v / 2 / 2;
  }

  lemma QuarterInRange(v: nat, r: nat, n: nat)
    requires 2 <= n && v < Pow2(n) && 4 * r <= v
    ensures r < Pow2(n - 2)
  {
    assert Pow2(n) == 2 * Pow2(n - 1);
    assert Pow2(n - 1) == 2 * Pow2(n - 2);
  }

  /** The sum of neighbouring bits, and the odd bits once more. */
  ghost function OpeningSum(v: nat, k: nat): nat
  {
    AddNeighbours(v, k, 1) + And(Shr(v, 1), Repeat(k, 2, 1))
  }

  lemma OpeningSumStep(v: nat, b0: nat, b1: nat, r: nat, k: nat)
    requires v == b0 + 2 * b1 + 4 * r && b0 < 2 && b1 < 2 && 0 < k && OpeningSum(r, k - 1) == r
    ensures OpeningSum(v, k) == v
  {
    NeighbourBitsStep(v, b0, b1, r, k);
    OddBitsStep(v, b0, b1, r, k);
    FourFoldSum(v, b0, b1, r, AddNeighbours(r, k - 1, 1), And(Shr(r, 1), Repeat(k - 1, 2, 1)),
                AddNeighbours(v, k, 1), And(Shr(v, 1), Repeat(k, 2, 1)));
  }

  lemma OpeningSumOfNothing(v: nat)
    requires v < Pow2(0)
    ensures OpeningSum(v, 0) == v
  {
  }

  /** The subtraction that opens the count: value - ((value >> 1) & 0101...) equals the sum of
      neighbours, since each odd bit is taken once from where it weighs two. */
  lemma {:induction false} SubtractingOddBits(v: nat, k: nat)
    requires v < Pow2(2 * k)
    ensures OpeningSum(v, k) == v
    decreases k
  {
    if k == 0 {
      OpeningSumOfNothing(v);
    } else {
      var b0, b1, r := FourParts(v);
      QuarterInRange(v, r, 2 * k);
      SubtractingOddBits(r, k - 1);
      OpeningSumStep(v, b0, b1, r, k);
    }
  }

  lemma FourFoldSum(v: nat, b0: nat, b1: nat, r: nat, a: nat, o: nat, all: nat, odd: nat)
    requires v == b0 + 2 * b1 + 4 * r && r == a + o && all == b0 + b1 + 4 * a && odd == b1 + 4 * o
    ensures v == all + odd
  {
  }

  lemma GeometricStep(r: int, b: int, d: int, p: int)
    requires r * (b - 1) == d * (p - 1)
    ensures (d + r * b) * (b - 1) == d * (p * b - 1)
  {
    calc {
      (d + r * b) * (b - 1);
      d * (b - 1) + r * (b - 1) * b;
      d * (b - 1) + d * (p - 1) * b;
      d * (p * b - 1);
    }
  }

  /** Repeat is a geometric sum: its product with 2^w - 1 telescopes. */
  lemma {:induction false} RepeatGeometric(k: nat, w: nat, d: nat)
    ensures 0 <= k * w
    ensures Repeat(k, w, d) * (Pow2(w) - 1) == d * (Pow2(k * w) - 1)
  {
    MulNat(k, w);
    if k == 0 {
    } else {
      RepeatGeometric(k - 1, w, d);
      ScaleIsMul(Repeat(k - 1, w, d), w);
      MulDistrib(k - 1, 1, w);
      Pow2Add((k - 1) * w, w);
      GeometricStep(Repeat(k - 1, w, d), Pow2(w), d, Pow2((k - 1) * w));
    }
  }

  lemma MaskConstants()
    ensures Repeat(16, 2, 1) == MASK_01010101_32
    ensures Repeat(8, 4, 3) == MASK_00110011_32
    ensures Repeat(4, 8, 15) == MASK_00001111_32
  {
    Pow2Values();
    RepeatGeometric(16, 2, 1);
    RepeatGeometric(8, 4, 3);
    RepeatGeometric(4, 8, 15);
  }

  // ---------- the whole count ----------

  /** Four octet counts: multiplying by 0x01010101 in 32 bits collects their sum in the top octet. */
  lemma TopOctetIsSum(a: nat, b: nat, c: nat, d: nat, x: nat)
    requires a + b + c + d < 0x100
    requires x == a + 0x100 * b + 0x1_0000 * c + 0x100_0000 * d
    ensures TopOctetOfSum(x) == a + b + c + d
  {
    Pow2Values();
    var sum := a + b + c + d;
    var low := a + 0x100 * (a + b) + 0x1_0000 * (a + b + c);
    var lost := (b + c + d) + 0x100 * (c + d) + 0x1_0000 * d;
    var y := x * POWERS_OF_256_32;
    assert y == lost * 0x1_0000_0000 + (sum * 0x100_0000 + low);
    LowIsMod(y, 32);
    DivModUnique(y, 0x1_0000_0000, lost, sum * 0x100_0000 + low);
    ShrIsDiv(Low(y, 32), 24);
    DivModUnique(Low(y, 32), 0x100_0000, sum, low);
  }

  lemma OnesOfOctets(v: nat, w: nat)
    requires v < Pow2(4 * w)
    ensures Ones(v) == Ones(Low(v, w)) + Ones(Low(Shr(v, w), w)) + Ones(Low(Shr(v, 2 * w), w))
                       + Ones(Low(Shr(v, 3 * w), w))
  {
    OnesSplit(v, w);
    NextOctet(v, w, w, 2 * w);
    NextOctet(v, 2 * w, w, 3 * w);
    NextOctet(v, 3 * w, w, 4 * w);
    assert Ones(Shr(v, 4 * w)) == 0 by {
      LowSmall(v, 4 * w);
    }
  }

  lemma NextOctet(v: nat, s: nat, w: nat, t: nat)
    requires t == s + w
    ensures Ones(Shr(v, s)) == Ones(Low(Shr(v, s), w)) + Ones(Shr(v, t))
  {
    OnesSplit(Shr(v, s), w);
    ShrShr(v, s, w);
  }

  lemma ScaleOctet(x: nat, w: nat)
    requires w == 8
    ensures Scale(x, w) == 0x100 * x
  {
    ScaleIsMul(x, w);
    Pow2Values();
  }

  lemma CountsStep(v: nat, s: nat, k: nat, w: nat) returns (rest: nat)
    requires 0 < k && w == 8
    ensures FieldCounts(Shr(v, s), k, w) == Ones(Low(Shr(v, s), w)) + 0x100 * rest
    ensures rest == FieldCounts(Shr(v, s + w), k - 1, w)
  {
    rest := FieldCounts(Shr(v, s + w), k - 1, w);
    ShrShr(v, s, w);
    ScaleOctet(rest, w);
  }

  lemma FourOctets(v: nat, w: nat, k: nat)
    requires w == 8 && k == 4
    ensures FieldCounts(v, k, w)
         == Ones(Low(v, w)) + 0x100 * Ones(Low(Shr(v, w), w)) + 0x1_0000 * Ones(Low(Shr(v, 2 * w), w))
            + 0x100_0000 * Ones(Low(Shr(v, 3 * w), w))
  {
    var rest1 := CountsStep(v, 0, k, w);
    var rest2 := CountsStep(v, w, k - 1, w);
    UpperOctets(v, w, k, rest2);
    Horner(FieldCounts(v, k, w), Ones(Low(v, w)), rest1, Ones(Low(Shr(v, w), w)), rest2, Ones(Low(Shr(v, 2 * w), w)),
           Ones(Low(Shr(v, 3 * w), w)));
  }

  lemma UpperOctets(v: nat, w: nat, k: nat, rest: nat)
    requires w == 8 && k == 4 && rest == FieldCounts(Shr(v, 2 * w), k - 2, w)
    ensures rest == Ones(Low(Shr(v, 2 * w), w)) + 0x100 * Ones(Low(Shr(v, 3 * w), w))
  {
    var rest3 := CountsStep(v, 2 * w, k - 2, w);
    var rest4 := CountsStep(v, 3 * w, k - 3, w);
    assert rest4 == 0;
  }

  lemma Horner(x: nat, a: nat, rest1: nat, b: nat, rest2: nat, c: nat, d: nat)
    requires x == a + 0x100 * rest1 && rest1 == b + 0x100 * rest2 && rest2 == c + 0x100 * d
    ensures x == a + 0x100 * b + 0x1_0000 * c + 0x100_0000 * d
  {
  }

  lemma OctetCountsFit(v: nat, w: nat)
    ensures Ones(Low(v, w)) + Ones(Low(Shr(v, w), w)) + Ones(Low(Shr(v, 2 * w), w)) + Ones(Low(Shr(v, 3 * w), w))
         <= 4 * w
  {
    CountFits(v, w);
    CountFits(Shr(v, w), w);
    CountFits(Shr(v, 2 * w), w);
    CountFits(Shr(v, 3 * w), w);
  }

  /** The last stage: four octet counts of a 32-bit value give the count of the value. */
  lemma OctetsSumToOnes(v: U32, k: nat, w: nat)
    requires w == 8 && k == 4
    ensures TopOctetOfSum(FieldCounts(v, k, w)) == Ones(v)
  {
    assert v < Pow2(4 * w) by {
      Pow2Values();
    }
    OnesOfOctets(v, w);
    OctetCountsFit(v, w);
    FourOctets(v, w, k);
    TopOctetIsSum(Ones(Low(v, w)), Ones(Low(Shr(v, w), w)), Ones(Low(Shr(v, 2 * w), w)), Ones(Low(Shr(v, 3 * w), w)),
                  FieldCounts(v, k, w));
  }

  lemma {:induction false} FieldCountsBound(v: nat, k: nat, w: nat)
    ensures 0 <= k * w && FieldCounts(v, k, w) < Pow2(k * w)
    decreases k
  {
    MulNat(k, w);
    if k == 0 {
    } else {
      FieldCountsBound(Shr(v, w), k - 1, w);
      CountFits(v, w);
      MulDistrib(k - 1, 1, w);
      ScaleBound(FieldCounts(Shr(v, w), k - 1, w), (k - 1) * w, w);
    }
  }

  lemma FirstStage(value: U32, k: nat)
    requires k == 16 && Repeat(k, 2, 1) == MASK_01010101_32
    ensures OddBitsOut(value) == FieldCounts(value, k, 2)
  {
    Pow2Values();
    BitsAreCounts(value, 2 * k);
    SubtractingOddBits(value, k);
    StageAddsNeighbours(value, k, 1);
  }

  /** A later stage on fields of width w, two per 2w-bit field: its n-bit sum does not wrap. */
  lemma LaterStage(n: nat, value: nat, k: nat, w: nat, mask: nat, x: nat)
    requires k * (2 * w) == n && mask == Repeat(k, 2 * w, Pow2(w) - 1)
    requires x == FieldCounts(value, 2 * k, w)
    ensures Low(And(x, mask) + And(Shr(x, w), mask), n) == FieldCounts(value, k, 2 * w)
  {
    StageAddsNeighbours(value, k, w);
    FieldCountsBound(value, k, 2 * w);
    LowSmall(FieldCounts(value, k, 2 * w), n);
  }

  lemma FieldStage(value: nat, k: nat, w: nat, m: nat, mask: nat)
    requires k * w == 16 && m + 1 == Pow2(w) && mask == Repeat(k, 2 * w, m)
    ensures EvenPlusOdd(FieldCounts(value, 2 * k, w), w, mask) == FieldCounts(value, k, 2 * w)
  {
    MulAssoc(k, w, 2);
    assert w * 2 == 2 * w;
    LaterStage(32, value, k, w, mask, FieldCounts(value, 2 * k, w));
  }

  // ---------- the function ----------

  /** value - ((value >> 1) & 0101...). */
  function OddBitsOut(value: U32): nat
  {
    AndBound(Shr(value, 1), MASK_01010101_32);
    ShrIsDiv(value, 1);
    value - And(Shr(value, 1), MASK_01010101_32)
  }

  function EvenPlusOdd(x: nat, w: nat, mask: nat): nat
  {
    var evenCnt, oddCnt := And(x, mask), And(Shr(x, w), mask);
    Low(evenCnt + oddCnt, 32)
  }

  function TopOctetOfSum(x: nat): nat
  {
    Shr(Low(x * POWERS_OF_256_32, 32), 24)
  }

  /** CPU_PopCnt32(): odd and even fields of width 1, 2 and 4 are added in parallel, then the octets
      by one wrapping multiplication. */
  function PopCnt32(value: U32): (result: nat)
    ensures result == Ones(value)
  {
    PopCnt32Stages(value);
    var pairs := OddBitsOut(value);
    var nibbles := EvenPlusOdd(pairs, 2, MASK_00110011_32);
    var octets := EvenPlusOdd(nibbles, 4, MASK_00001111_32);
    TopOctetOfSum(octets)
  }

  /** Every stage holds exact counts. */
  lemma PopCnt32Stages(value: U32)
    ensures OddBitsOut(value) == FieldCounts(value, 16, 2)
    ensures EvenPlusOdd(FieldCounts(value, 16, 2), 2, MASK_00110011_32) == FieldCounts(value, 8, 4)
    ensures EvenPlusOdd(FieldCounts(value, 8, 4), 4, MASK_00001111_32) == FieldCounts(value, 4, 8)
    ensures TopOctetOfSum(FieldCounts(value, 4, 8)) == Ones(value)
  {
    MaskConstants();
    FirstStage(value, 16);
    FieldStage(value, 8, 2, 3, MASK_00110011_32);
    FieldStage(value, 4, 4, 15, MASK_00001111_32);
    OctetsSumToOnes(value, 4, 8);
  }
}
