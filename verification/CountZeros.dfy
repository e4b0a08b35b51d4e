/** Leading- and trailing-zero counts: the lookup table, its branch trees, and what they count. */
module CountZeros {
  import opened Powers
  import opened Bits

  datatype WordSize = W08 | W16 | W32 | W64 {
    function Octets(): nat {
      match this
      case W08 => 1
      case W16 => 2
      case W32 => 4
      case W64 => 8
    }

    function NbrBits(): nat {
      Octets() * 8
    }
  }

  // ---------- what is counted ----------

  /** z is the number of contiguous zero bits at the top of the n-bit value v. */
  ghost predicate IsLeadZeros(n: nat, v: nat, z: nat)
  {
    && z <= n
    && (forall i: nat :: n - z <= i < n ==> !Bit(v, i))
    && (z < n ==> Bit(v, n - 1 - z))
  }

  /** t is the number of contiguous zero bits at the bottom of the n-bit value v. */
  ghost predicate IsTrailZeros(n: nat, v: nat, t: nat)
  {
    && t <= n
    && (forall i: nat :: i < t ==> !Bit(v, i))
    && (t < n ==> Bit(v, t))
  }

  /** Counting from the top is the same as locating v between two powers of two. */
  ghost predicate InPowerRange(n: nat, v: nat, z: nat)
  {
    if v == 0 then z == n else z < n && Pow2(n - 1 - z) <= v < Pow2(n - z)
  }

  lemma LeadZerosUnique(n: nat, v: nat, y: nat, z: nat)
    requires IsLeadZeros(n, v, y) && IsLeadZeros(n, v, z)
    ensures y == z
  {
  }

  lemma TrailZerosUnique(n: nat, v: nat, s: nat, t: nat)
    requires IsTrailZeros(n, v, s) && IsTrailZeros(n, v, t)
    ensures s == t
  {
  }

  lemma {:induction false} PowerRangeExists(n: nat, v: nat) returns (z: nat)
    requires v < Pow2(n)
    ensures z <= n && InPowerRange(n, v, z)
  {
    if n == 0 {
      z := 0;
    } else if v < Pow2(n - 1) {
      z := PowerRangeExists(n - 1, v);
      z := z + 1;
    } else {
      z := 0;
    }
  }

  lemma PowerRangeIsLeadZeros(n: nat, v: nat, z: nat)
    requires v < Pow2(n) && InPowerRange(n, v, z)
    ensures IsLeadZeros(n, v, z)
  {
    forall i: nat | n - z <= i < n
      ensures !Bit(v, i)
    {
      if v == 0 {
        BitZero(i);
      } else {
        BitAbove(n - z, v, i);
      }
    }
    if z < n {
      var k := n - 1 - z;
      DivModUnique(v, Pow2(k), 1, v - Pow2(k));
      BitIsQuotientParity(v, k);
    }
  }

  /** The count of leading zeros is z exactly when 2^(n-1-z) <= v < 2^(n-z), or v == 0 and z == n. */
  lemma LeadZerosIsPowerRange(n: nat, v: nat, z: nat)
    requires v < Pow2(n)
    ensures IsLeadZeros(n, v, z) <==> InPowerRange(n, v, z)
  {
    var y := PowerRangeExists(n, v);
    PowerRangeIsLeadZeros(n, v, y);
    if IsLeadZeros(n, v, z) {
      LeadZerosUnique(n, v, y, z);
    }
    if InPowerRange(n, v, z) {
      PowerRangeIsLeadZeros(n, v, z);
    }
  }

  /** Widening the word adds only leading zeros; this is the "- 8 * (size difference)" of the
      assembly-optimised forms, read from right to left. */
  lemma WidenLeadZeros(n: nat, d: nat, v: nat, z: nat)
    requires v < Pow2(n)
    ensures v < Pow2(n + d)
    ensures IsLeadZeros(n, v, z) <==> IsLeadZeros(n + d, v, z + d)
  {
    Pow2Mono(n, n + d);
    LeadZerosIsPowerRange(n, v, z);
    LeadZerosIsPowerRange(n + d, v, z + d);
  }

  // ---------- the table and the branch trees ----------

  const ROW_0 := [8, 7, 6, 6, 5, 5, 5, 5, 4, 4, 4, 4, 4, 4, 4, 4]
  const ROW_1 := [3, 3, 3, 3, 3, 3, 3, 3, 3, 3, 3, 3, 3, 3, 3, 3]
  const ROW_2 := [2, 2, 2, 2, 2, 2, 2, 2, 2, 2, 2, 2, 2, 2, 2, 2]
  const ROW_4 := [1, 1, 1, 1, 1, 1, 1, 1, 1, 1, 1, 1, 1, 1, 1, 1]
  const ROW_8 := [0, 0, 0, 0, 0, 0, 0, 0, 0, 0, 0, 0, 0, 0, 0, 0]

  /** The 256-entry table, row 0xh0 to 0xhF at position h. */
  const CNT_LEAD_ZEROS_TBL: seq<seq<nat>> :=
    [ROW_0, ROW_1, ROW_2, ROW_2, ROW_4, ROW_4, ROW_4, ROW_4,
     ROW_8, ROW_8, ROW_8, ROW_8, ROW_8, ROW_8, ROW_8, ROW_8]

  function Tbl(ix: U8): nat
  {
    CNT_LEAD_ZEROS_TBL[ix / 16][ix % 16]
  }

  lemma TblLowRow(ix: U8)
    requires ix < 16
    ensures Tbl(ix) == if ix == 0 then 8 else if ix == 1 then 7 else if ix < 4 then 6 else if ix < 8 then 5 else 4
  {
  }

  lemma TblHighRows(ix: U8)
    requires 16 <= ix
    ensures Tbl(ix) == if ix < 32 then 3 else if ix < 64 then 2 else if ix < 128 then 1 else 0
  {
  }

  lemma TblCountsLeadZeros(ix: U8)
    ensures IsLeadZeros(8, ix, Tbl(ix))
  {
    Pow2Values();
    assert Pow2(5) == 32 && Pow2(0) == 1;
    if ix < 16 {
      TblLowRow(ix);
    } else {
      TblHighRows(ix);
    }
    assert InPowerRange(8, ix, Tbl(ix));
    PowerRangeIsLeadZeros(8, ix, Tbl(ix));
  }

  lemma OctetRange(k: nat, v: nat, z: nat)
    requires 0 < Shr(v, k) && InPowerRange(8, Shr(v, k), z)
    ensures InPowerRange(k + 8, v, z)
  {
    ShrIsDiv(v, k);
    DivBounds(v, Pow2(k), Pow2(7 - z), Pow2(8 - z));
    Pow2Add(7 - z, k);
    Pow2Add(8 - z, k);
  }

  lemma OctetCount(n: nat, k: nat, v: nat, z: nat)
    requires k + 8 <= n && v < Pow2(k + 8)
    requires k == 0 || 0 < Shr(v, k)
    requires Shr(v, k) < Pow2(8) && IsLeadZeros(8, Shr(v, k), z)
    ensures IsLeadZeros(n, v, z + (n - 8 - k))
  {
    if k > 0 {
      LeadZerosIsPowerRange(8, Shr(v, k), z);
      OctetRange(k, v, z);
      LeadZerosIsPowerRange(k + 8, v, z);
    }
    WidenLeadZeros(k + 8, n - 8 - k, v, z);
  }

  lemma LeafIndex(k: nat, v: nat)
    requires v < Pow2(k + 8)
    ensures Shr(v, k) < 0x100 == Pow2(8)
    ensures Pow2(k) <= v ==> 0 < Shr(v, k)
  {
    Pow2Values();
    Pow2Add(k, 8);
    ShrIsDiv(v, k);
    DivBounds(v, Pow2(k), 1, 0x100);
  }

  lemma LeafCount(n: nat, k: nat, v: nat, ix: U8)
    requires k + 8 <= n && v < Pow2(k + 8) && ix == Shr(v, k)
    requires k == 0 || 0 < ix
    ensures IsLeadZeros(n, v, Tbl(ix) + (n - 8 - k))
  {
    Pow2Values();
    TblCountsLeadZeros(ix);
    OctetCount(n, k, v, Tbl(ix));
  }

  /** One leaf of a branch tree: when the highest set bit of an n-bit v lies in bits k..k+7, look up
      that octet and add the zero bits above it. */
  function Leaf(n: nat, k: nat, msbZeros: nat, v: nat): (z: nat)
    requires k + 8 + msbZeros == n && v < Pow2(k + 8)
    requires k == 0 || Pow2(k) <= v
    ensures IsLeadZeros(n, v, z)
  {
    LeafIndex(k, v);
    LeafCount(n, k, v, Shr(v, k));
    Tbl(Shr(v, k)) + msbZeros
  }

  function CntLeadZeros08(val: U8): (z: nat)
    ensures IsLeadZeros(8, val, z)
  {
    TblCountsLeadZeros(val);
    Tbl(val)
  }

  function CntLeadZeros16(val: U16): (z: nat)
    ensures IsLeadZeros(16, val, z)
  {
    Pow2Values();
    if val > 0x00FF then
      Leaf(16, 8, 0, val)
    else
      Leaf(16, 0, 8, val)
  }

  function CntLeadZeros32(val: U32): (z: nat)
    ensures IsLeadZeros(32, val, z)
  {
    Pow2Values();
    if val > 0x0000_FFFF then
      if val > 0x00FF_FFFF then
        Leaf(32, 24, 0, val)
      else
        Leaf(32, 16, 8, val)
    else
      if val > 0x0000_00FF then
        Leaf(32, 8, 16, val)
      else
        Leaf(32, 0, 24, val)
  }

  function CntLeadZeros64(val: U64): (z: nat)
    ensures IsLeadZeros(64, val, z)
  {
    Pow2Values();
    if val > 0x0000_0000_FFFF_FFFF then
      if val > 0x0000_FFFF_FFFF_FFFF then
        if val > 0x00FF_FFFF_FFFF_FFFF then
          Leaf(64, 56, 0, val)
        else
          Leaf(64, 48, 8, val)
      else
        if val > 0x0000_00FF_FFFF_FFFF then
          Leaf(64, 40, 16, val)
        else
          Leaf(64, 32, 24, val)
    else
      if val > 0x0000_0000_0000_FFFF then
        if val > 0x0000_0000_00FF_FFFF then
          Leaf(64, 24, 32, val)
        else
          Leaf(64, 16, 40, val)
      else
        if val > 0x0000_0000_0000_00FF then
          Leaf(64, 8, 48, val)
        else
          Leaf(64, 0, 56, val)
  }

  /** CPU_CntLeadZeros() on the configured data size, in its C form. */
  function CntLeadZeros(size: WordSize, val: nat): (z: nat)
    requires val < Pow2(size.NbrBits())
    ensures IsLeadZeros(size.NbrBits(), val, z)
  {
    Pow2Values();
    match size
    case W08 => CntLeadZeros08(val)
    case W16 => CntLeadZeros16(val)
    case W32 => CntLeadZeros32(val)
    case W64 => CntLeadZeros64(val)
  }

  lemma NarrowCount(n: nat, d: nat, val: nat, counted: nat, z: nat)
    requires val < Pow2(n) && IsLeadZeros(n, val, z) && IsLeadZeros(n + d, val, counted)
    ensures counted == z + d
  {
    WidenLeadZeros(n, d, val, z);
    LeadZerosUnique(n + d, val, counted, z + d);
  }

  /** The assembly-optimised form of a narrow count: any correct count on the CPU's own data size,
      less the size difference. It never underflows, and equals the table-and-branch form. */
  lemma AsmFormAgrees(cpu: WordSize, word: WordSize, val: nat, counted: nat)
    requires word.Octets() <= cpu.Octets()
    requires val < Pow2(word.NbrBits())
    requires IsLeadZeros(cpu.NbrBits(), val, counted)
    ensures counted - (cpu.Octets() - word.Octets()) * 8 == CntLeadZeros(word, val)
  {
    var n, d := word.NbrBits(), (cpu.Octets() - word.Octets()) * 8;
    assert cpu.NbrBits() == n + d;
    NarrowCount(n, d, val, counted, CntLeadZeros(word, val));
  }

  // ---------- trailing zeros through the lowest set bit ----------

  /** v & (~v + 1) on n bits. */
  function LowestSetBit(n: nat, v: nat): nat
    requires v < Pow2(n)
  {
    And(v, Low(Not(n, v) + 1, n))
  }

  /** ~v + 1 does not wrap for a non-zero v. */
  lemma NegationInRange(n: nat, v: nat)
    requires 0 < v < Pow2(n)
    ensures LowestSetBit(n, v) == And(v, Pow2(n) - v)
  {
    LowSmall(Pow2(n) - v, n);
  }

  lemma LowestSetBitOfOdd(n: nat, v: nat)
    requires 0 < n && v < Pow2(n) && v % 2 == 1
    ensures LowestSetBit(n, v) == 1
  {
    var u := v / 2;
    NegationInRange(n, v);
    AndComplement(n - 1, u);
    assert (Pow2(n) - v) / 2 == Not(n - 1, u);
  }

  lemma LowestSetBitOfEven(n: nat, u: nat)
    requires 0 < n && 0 < u < Pow2(n - 1)
    ensures LowestSetBit(n, 2 * u) == 2 * LowestSetBit(n - 1, u)
  {
    NegationInRange(n, 2 * u);
    NegationInRange(n - 1, u);
    AndStep(2 * u, 2 * (Pow2(n - 1) - u));
  }

  lemma TrailZerosDouble(n: nat, u: nat, t: nat)
    requires 0 < n && IsTrailZeros(n - 1, u, t)
    ensures IsTrailZeros(n, 2 * u, t + 1)
  {
    forall i: nat | i < t + 1
      ensures !Bit(2 * u, i)
    {
      assert i == 0 || !Bit(u, i - 1);
    }
  }

  lemma {:induction false} LowestSetBitIsPow2(n: nat, v: nat) returns (t: nat)
    requires 0 < v < Pow2(n)
    ensures t < n && IsTrailZeros(n, v, t)
    ensures LowestSetBit(n, v) == Pow2(t)
  {
    if v % 2 == 1 {
      t := 0;
      LowestSetBitOfOdd(n, v);
    } else {
      var u := v / 2;
      t := LowestSetBitIsPow2(n - 1, u);
      LowestSetBitOfEven(n, u);
      TrailZerosDouble(n, u, t);
      t := t + 1;
    }
  }

  function CntTrailZeros(size: WordSize, val: nat): (t: nat)
    requires val < Pow2(size.NbrBits())
    ensures IsTrailZeros(size.NbrBits(), val, t)
  {
    var n := size.NbrBits();
    if val == 0 then
      ZeroIsAllZeros(n);
      n
    else
      LowestSetBitInWord(n, val);
      FromLeadZeros(n, val, CntLeadZeros(size, LowestSetBit(n, val)))
  }

  /** The number of trailing zeros, from the leading zeros of the lowest set bit. */
  function FromLeadZeros(n: nat, val: nat, leadZeros: nat): (t: nat)
    requires 0 < val < Pow2(n) && IsLeadZeros(n, LowestSetBit(n, val), leadZeros)
    ensures IsTrailZeros(n, val, t)
  {
    LowestSetBitCounts(n, val, leadZeros);
    n - 1 - leadZeros
  }

  lemma ZeroIsAllZeros(n: nat)
    ensures IsTrailZeros(n, 0, n) && IsLeadZeros(n, 0, n)
  {
    forall i: nat
      ensures !Bit(0, i)
    {
      BitZero(i);
    }
  }

  lemma LowestSetBitInWord(n: nat, val: nat)
    requires 0 < val < Pow2(n)
    ensures LowestSetBit(n, val) < Pow2(n)
  {
    AndBound(val, Low(Not(n, val) + 1, n));
  }

  /** The leading zeros of the lowest set bit tell its position. */
  lemma LowestSetBitCounts(n: nat, val: nat, leadZeros: nat)
    requires 0 < val < Pow2(n) && IsLeadZeros(n, LowestSetBit(n, val), leadZeros)
    ensures leadZeros < n && IsTrailZeros(n, val, n - 1 - leadZeros)
  {
    var t := LowestSetBitIsPow2(n, val);
    LeadZerosOfPow2(n, t);
    LeadZerosUnique(n, Pow2(t), leadZeros, n - 1 - t);
  }

  lemma LeadZerosOfPow2(n: nat, t: nat)
    requires t < n
    ensures Pow2(t) < Pow2(n) && IsLeadZeros(n, Pow2(t), n - 1 - t)
  {
    Pow2Mono(t, n);
    Pow2Mono(t, t + 1);
    PowerRangeIsLeadZeros(n, Pow2(t), n - 1 - t);
  }

  /** For a non-zero value, t trailing zeros means that 2^t divides it and 2^(t+1) does not. */
  lemma TrailZerosIsDivisibility(n: nat, v: nat, t: nat)
    requires 0 < v < Pow2(n)
    ensures IsTrailZeros(n, v, t) <==> v % Pow2(t) == 0 && v % Pow2(t + 1) != 0
  {
    var s := LowestSetBitIsPow2(n, v);
    LowZeroExactly(v, s, t);
    LowZeroExactly(v, s, t + 1);
    LowIsMod(v, t);
    LowIsMod(v, t + 1);
    if IsTrailZeros(n, v, t) {
      TrailZerosUnique(n, v, s, t);
    }
  }

  /** With s trailing zeros and a one above them, the low t bits are all zero just when t <= s. */
  lemma {:induction false} LowZeroExactly(v: nat, s: nat, t: nat)
    requires (forall i: nat :: i < s ==> !Bit(v, i)) && Bit(v, s)
    ensures Low(v, t) == 0 <==> t <= s
    decreases t
  {
    if t == 0 || s == 0 {
    } else {
      assert !Bit(v, 0);
      forall i: nat | i < s - 1
        ensures !Bit(v / 2, i)
      {
        assert !Bit(v, i + 1);
      }
      LowZeroExactly(v / 2, s - 1, t - 1);
    }
  }

  /** Trailing zeros of a non-zero value do not depend on the word it is held in: the
      assembly-optimised narrow counts need no correction. */
  lemma TrailZerosIgnoreWidth(cpu: WordSize, word: WordSize, val: nat)
    requires word.Octets() <= cpu.Octets()
    requires 0 < val < Pow2(word.NbrBits())
    ensures val < Pow2(cpu.NbrBits())
    ensures CntTrailZeros(cpu, val) == CntTrailZeros(word, val)
  {
    Pow2Mono(word.NbrBits(), cpu.NbrBits());
    var t := LowestSetBitIsPow2(word.NbrBits(), val);
    TrailZerosUnique(word.NbrBits(), val, t, CntTrailZeros(word, val));
    TrailZerosUnique(cpu.NbrBits(), val, t, CntTrailZeros(cpu, val));
  }
}
