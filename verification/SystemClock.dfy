/** The core clock frequency computed from the RCC registers. */
module SystemClock {
  import opened Powers
  import opened Bits

  const RCC_CFGR_SWS: U32 := 0x0000_000C
  const RCC_CFGR_HPRE: U32 := 0x0000_00F0
  const RCC_PLLCFGR_PLLM: U32 := 0x0000_003F
  const RCC_PLLCFGR_PLLN: U32 := 0x0000_7FC0
  const RCC_PLLCFGR_PLLP: U32 := 0x0003_0000
  const RCC_PLLCFGR_PLLSRC: U32 := 0x0040_0000

  const AHB_PRESC_TABLE: seq<nat> := [0, 0, 0, 0, 0, 0, 0, 0, 1, 2, 3, 4, 6, 7, 8, 9]

  // ---------- register fields ----------

  /** (reg & mask) >> s for the w-bit field at s. */
  lemma MaskedField(reg: U32, w: nat, s: nat, mask: nat)
    requires mask == Mask(w, s)
    ensures And(reg, mask) == Scale(Field(reg, w, s), s)
    ensures Shr(And(reg, mask), s) == Field(reg, w, s) < Pow2(w)
  {
    AndMask(reg, w, s);
    Join(Field(reg, w, s), 0, s);
    LowBound(Shr(reg, s), w);
  }

  lemma MaskValues()
    ensures RCC_CFGR_SWS == Mask(2, 2)
    ensures RCC_CFGR_HPRE == Mask(4, 4)
    ensures RCC_PLLCFGR_PLLM == Mask(6, 0)
    ensures RCC_PLLCFGR_PLLN == Mask(9, 6)
    ensures RCC_PLLCFGR_PLLP == Mask(2, 16)
    ensures RCC_PLLCFGR_PLLSRC == Mask(1, 22)
  {
    Pow2Values();
    ScaleIsMul(3, 2);
    ScaleIsMul(15, 4);
    ScaleIsMul(63, 0);
    ScaleIsMul(511, 6);
    ScaleIsMul(3, 16);
    ScaleIsMul(1, 22);
  }

  /** What the registers select: clock source, PLL factors, and AHB prescaler shift. */
  ghost function Sws(cfgr: U32): nat { Field(cfgr, 2, 2) }

  ghost function PllM(pllcfgr: U32): nat { Field(pllcfgr, 6, 0) }

  ghost function PllN(pllcfgr: U32): nat { Field(pllcfgr, 9, 6) }

  ghost function PllP(pllcfgr: U32): nat { (Field(pllcfgr, 2, 16) + 1) * 2 }

  ghost function PllFromHse(pllcfgr: U32): bool { Field(pllcfgr, 1, 22) != 0 }

  ghost function AhbShift(cfgr: U32): nat
  {
    LowBound(Shr(cfgr, 4), 4);
    assert Pow2(4) == 16;
    AHB_PRESC_TABLE[Field(cfgr, 4, 4)]
  }

  lemma FactorRanges(cfgr: U32, pllcfgr: U32)
    ensures PllN(pllcfgr) <= 511 && 2 <= PllP(pllcfgr) <= 8 && AhbShift(cfgr) <= 9
  {
    Pow2Values();
    LowBound(Shr(pllcfgr, 6), 9);
    LowBound(Shr(pllcfgr, 16), 2);
    LowBound(Shr(cfgr, 4), 4);
  }

  // ---------- what the registers ask for, in numbers ----------

  /** The AHB prescaler that the four HPRE bits select; there is no division by 32. */
  ghost function HclkDivider(hpre: nat): nat
  {
    if hpre < 8 then 1
    else if hpre == 8 then 2
    else if hpre == 9 then 4
    else if hpre == 10 then 8
    else if hpre == 11 then 16
    else if hpre == 12 then 64
    else if hpre == 13 then 128
    else if hpre == 14 then 256
    else 512
  }

  /** clock is the PLL output divided by `divider`: the 32-bit VCO frequency, from the oscillator that bit
      22 selects, over the divisor P and the divider, rounded down. */
  ghost predicate IsPllFrequency(hse: nat, hsi: nat, pllcfgr: nat, divider: nat, clock: nat)
    requires 0 < pllcfgr % 64
  {
    var src := if pllcfgr / 0x40_0000 % 2 == 1 then hse else hsi;
    var m, n, p := pllcfgr % 64, pllcfgr / 64 % 512, (pllcfgr / 0x1_0000 % 4 + 1) * 2;
    var vco := (src / m * n) % 0x1_0000_0000;
    IsQuotient(vco, p * divider, clock)
  }

  ghost predicate IsQuotient(x: nat, d: nat, q: nat)
  {
    q * d <= x < (q + 1) * d
  }

  lemma FieldIsDigits(x: nat, w: nat, s: nat, d: nat, e: nat)
    requires d == Pow2(s) && e == Pow2(w)
    ensures Field(x, w, s) == x / d % e
  {
    ShrIsDiv(x, s);
    LowIsMod(Shr(x, s), w);
  }

  lemma SelectedInNumbers(cfgr: U32, pllcfgr: U32)
    ensures Sws(cfgr) == cfgr / 4 % 4
    ensures PllM(pllcfgr) == pllcfgr % 64
    ensures PllN(pllcfgr) == pllcfgr / 64 % 512
    ensures PllP(pllcfgr) == (pllcfgr / 0x1_0000 % 4 + 1) * 2
    ensures PllFromHse(pllcfgr) <==> pllcfgr / 0x40_0000 % 2 == 1
  {
    Pow2Values();
    assert Pow2(0) == 1;
    FieldIsDigits(cfgr, 2, 2, 4, 4);
    FieldIsDigits(pllcfgr, 6, 0, 1, 64);
    FieldIsDigits(pllcfgr, 9, 6, 64, 512);
    FieldIsDigits(pllcfgr, 2, 16, 0x1_0000, 4);
    FieldIsDigits(pllcfgr, 1, 22, 0x40_0000, 2);
  }

  /** The prescaler table holds the exponents of the dividers. */
  lemma ShiftIsDivider(cfgr: U32)
    ensures Pow2(AhbShift(cfgr)) == HclkDivider(cfgr / 16 % 16)
  {
    Pow2Values();
    FieldIsDigits(cfgr, 4, 4, 16, 16);
  }

  // ---------- the frequency arithmetic ----------

  /** pllvco as computed in 32 bits. */
  function PllVco(src: U32, m: nat, n: nat): nat
    requires 0 < m
  {
    MulNat(Quotient(src, m), n);
    (Quotient(src, m) * n) % 0x1_0000_0000
  }

  ghost function PllClock(src: U32, m: nat, n: nat, p: nat, k: nat): nat
    requires 0 < m && 0 < p
  {
    Quotient(Quotient(PllVco(src, m, n), p), Pow2(k))
  }

  /** With c = p * 2^k: the computed frequency r, times c, is the VCO frequency less a remainder. */
  lemma ClockTimesDivider(src: U32, m: nat, n: nat, p: nat, k: nat) returns (c: nat)
    requires 0 < m && 0 < p
    ensures c == p * Pow2(k)
    ensures var r := PllClock(src, m, n, p, k);
      r * c <= PllVco(src, m, n) < r * c + c
  {
    var v := PllVco(src, m, n);
    DivModProduct(v, p, Pow2(k));
    c := p * Pow2(k);
    DivModParts(v, c);
  }

  lemma VcoError(src: nat, m: nat, n: nat)
    requires 0 < m
    ensures m * (Quotient(src, m) * n) <= src * n <= m * (Quotient(src, m) * n) + m * n
  {
    var q, r := src / m, src % m;
    DivModParts(src, m);
    assert src * n == m * (q * n) + r * n by {
      assert (q * m + r) * n == q * m * n + r * n;
      assert q * m * n == m * (q * n);
    }
    MulMono(r, m, n);
    MulNat(r, n);
  }

  lemma ErrorBounds(exact: int, m: nat, t: nat, v: nat, n: nat, rc: nat, c: nat)
    requires 0 < m && n + c <= 0x1_0000_0000
    requires m * t <= exact <= m * t + m * n
    requires rc <= v < rc + c && v == t % 0x1_0000_0000
    ensures m * rc <= exact
    ensures exact < m * (rc + c + n) <==> t < 0x1_0000_0000
  {
    MulMono(rc, t, m);
    if t < 0x1_0000_0000 {
      MulStrict(v + n, rc + c + n, m);
      MulDistrib(t, n, m);
    } else {
      MulMono(rc + c + n, t, m);
    }
  }

  /** The frequency r, with total divider m * c, is never above the exact src * n / (m * c); it falls
      short by less than n / c + 1 Hz exactly when the VCO frequency does not overflow 32 bits. */
  ghost predicate WithinPllError(src: U32, m: nat, n: nat, c: nat, r: nat)
    requires 0 < m
  {
    && m * (r * c) <= src * n
    && (src * n < m * (r * c + c + n) <==> Quotient(src, m) * n < 0x1_0000_0000)
  }

  lemma PllClockError(src: U32, m: nat, n: nat, p: nat, k: nat)
    requires 0 < m && n <= 511 && 1 <= p <= 8 && k <= 9
    ensures 0 < p * Pow2(k)
    ensures WithinPllError(src, m, n, p * Pow2(k), PllClock(src, m, n, p, k))
  {
    MulStrict(0, p, Pow2(k));
    var c := ClockTimesDivider(src, m, n, p, k);
    Pow2Mono(k, 9);
    Pow2Values();
    MulMono(p, 8, Pow2(k));
    VcoError(src, m, n);
    MulNat(Quotient(src, m), n);
    var r := PllClock(src, m, n, p, k);
    MulNat(r, c);
    ErrorBounds(src * n, m, Quotient(src, m) * n, PllVco(src, m, n), n, r * c, c);
  }

  lemma QuotientIs(x: nat, d: nat)
    requires 0 < d
    ensures IsQuotient(x, d, Quotient(x, d))
  {
    DivModParts(x, d);
    MulDistrib(x / d, 1, d);
  }

  /** The PLL output, and what is left of it after the prescaler. */
  lemma PllOutput(hse: U32, hsi: U32, cfgr: U32, pllcfgr: U32, vco: nat)
    requires 0 < PllM(pllcfgr)
    requires vco == PllVco(if PllFromHse(pllcfgr) then hse else hsi, PllM(pllcfgr), PllN(pllcfgr))
    ensures 0 < pllcfgr % 64
    ensures IsPllFrequency(hse, hsi, pllcfgr, 1, Quotient(vco, PllP(pllcfgr)))
    ensures IsPllFrequency(hse, hsi, pllcfgr, HclkDivider(cfgr / 16 % 16),
                           Quotient(Quotient(vco, PllP(pllcfgr)), Pow2(AhbShift(cfgr))))
  {
    SelectedInNumbers(cfgr, pllcfgr);
    ShiftIsDivider(cfgr);
    var p, d := PllP(pllcfgr), HclkDivider(cfgr / 16 % 16);
    QuotientIs(vco, p);
    DivModProduct(vco, p, d);
    QuotientIs(vco, p * d);
  }

  // ---------- the function ----------

  lemma SwsValues(cfgr: U32)
    ensures And(cfgr, RCC_CFGR_SWS) == 4 * Sws(cfgr) && Sws(cfgr) < 4
  {
    MaskValues();
    MaskedField(cfgr, 2, 2, RCC_CFGR_SWS);
    ScaleIsMul(Sws(cfgr), 2);
    assert Pow2(2) == 4;
  }

  lemma PllFields(pllcfgr: U32)
    ensures Shr(And(pllcfgr, RCC_PLLCFGR_PLLSRC), 22) == Field(pllcfgr, 1, 22)
    ensures And(pllcfgr, RCC_PLLCFGR_PLLM) == PllM(pllcfgr)
    ensures Shr(And(pllcfgr, RCC_PLLCFGR_PLLN), 6) == PllN(pllcfgr)
    ensures Shr(And(pllcfgr, RCC_PLLCFGR_PLLP), 16) == Field(pllcfgr, 2, 16)
  {
    MaskValues();
    MaskedField(pllcfgr, 1, 22, RCC_PLLCFGR_PLLSRC);
    MaskedField(pllcfgr, 6, 0, RCC_PLLCFGR_PLLM);
    MaskedField(pllcfgr, 9, 6, RCC_PLLCFGR_PLLN);
    MaskedField(pllcfgr, 2, 16, RCC_PLLCFGR_PLLP);
  }

  lemma QuotientBound(x: nat, d: nat)
    requires 0 < d
    ensures Quotient(x, d) <= x
  {
    DivBounds(x, d, x + 1, x + 1);
    MulMono(1, d, x + 1);
  }

  /** The clock registers, the oscillator frequencies and the published core clock. */
  class Rcc {
    const hseValue: U32
    const hsiValue: U32
    var cfgr: U32
    var pllcfgr: U32
    var systemCoreClock: U32

    constructor (hseValue: U32, hsiValue: U32, cfgr: U32, pllcfgr: U32)
      ensures this.hseValue == hseValue && this.hsiValue == hsiValue
      ensures this.cfgr == cfgr && this.pllcfgr == pllcfgr && systemCoreClock == 16000000
    {
      this.hseValue, this.hsiValue := hseValue, hsiValue;
      this.cfgr, this.pllcfgr := cfgr, pllcfgr;
      systemCoreClock := 16000000;
    }

    /** The switch over the selected source. */
    method SelectSource()
      requires Sws(cfgr) == 2 ==> PllM(pllcfgr) > 0
      modifies this`systemCoreClock
      ensures Sws(cfgr) == 1 ==> systemCoreClock == hseValue
      ensures Sws(cfgr) == 2 ==>
                systemCoreClock == Quotient(PllVco(if PllFromHse(pllcfgr) then hseValue else hsiValue,
                                                   PllM(pllcfgr), PllN(pllcfgr)), PllP(pllcfgr))
      ensures Sws(cfgr) != 1 && Sws(cfgr) != 2 ==> systemCoreClock == hsiValue
      ensures cfgr / 4 % 4 == 1 ==> systemCoreClock == hseValue
      ensures cfgr / 4 % 4 == 2 ==>
                0 < pllcfgr % 64 && IsPllFrequency(hseValue, hsiValue, pllcfgr, 1, systemCoreClock)
      ensures cfgr / 4 % 4 != 1 && cfgr / 4 % 4 != 2 ==> systemCoreClock == hsiValue
    {
      SelectedInNumbers(cfgr, pllcfgr);
      SwsValues(cfgr);
      var tmp := And(cfgr, RCC_CFGR_SWS);
      if tmp == 0x00 {
        systemCoreClock := hsiValue;
      } else if tmp == 0x04 {
        systemCoreClock := hseValue;
      } else if tmp == 0x08 {
        PllFields(pllcfgr);
        var pllSource := Shr(And(pllcfgr, RCC_PLLCFGR_PLLSRC), 22);
        var pllm := And(pllcfgr, RCC_PLLCFGR_PLLM);
        var plln := Shr(And(pllcfgr, RCC_PLLCFGR_PLLN), 6);
        var pllvco;
        if pllSource != 0 {
          pllvco := PllVco(hseValue, pllm, plln);
        } else {
          pllvco := PllVco(hsiValue, pllm, plln);
        }
        var pllp := (Shr(And(pllcfgr, RCC_PLLCFGR_PLLP), 16) + 1) * 2;
        QuotientBound(pllvco, pllp);
        systemCoreClock := Quotient(pllvco, pllp);
        PllOutput(hseValue, hsiValue, cfgr, pllcfgr, pllvco);
      } else {
        systemCoreClock := hsiValue;
      }
    }

    /** SystemCoreClockUpdate(). */
    method Update()
      requires Sws(cfgr) == 2 ==> PllM(pllcfgr) > 0
      modifies this`systemCoreClock
      ensures Sws(cfgr) == 1 ==> systemCoreClock == Quotient(hseValue, Pow2(AhbShift(cfgr)))
      ensures Sws(cfgr) == 2 ==>
                systemCoreClock == PllClock(if PllFromHse(pllcfgr) then hseValue else hsiValue,
                                            PllM(pllcfgr), PllN(pllcfgr), PllP(pllcfgr), AhbShift(cfgr))
      ensures Sws(cfgr) == 2 ==>
                0 < PllP(pllcfgr) * Pow2(AhbShift(cfgr))
                && WithinPllError(if PllFromHse(pllcfgr) then hseValue else hsiValue, PllM(pllcfgr), PllN(pllcfgr),
                                  PllP(pllcfgr) * Pow2(AhbShift(cfgr)), systemCoreClock)
      ensures Sws(cfgr) != 1 && Sws(cfgr) != 2 ==> systemCoreClock == Quotient(hsiValue, Pow2(AhbShift(cfgr)))
      ensures cfgr / 4 % 4 == 1 ==> IsQuotient(hseValue, HclkDivider(cfgr / 16 % 16), systemCoreClock)
      ensures cfgr / 4 % 4 == 2 ==>
                0 < pllcfgr % 64
                && IsPllFrequency(hseValue, hsiValue, pllcfgr, HclkDivider(cfgr / 16 % 16), systemCoreClock)
      ensures cfgr / 4 % 4 != 1 && cfgr / 4 % 4 != 2 ==>
                IsQuotient(hsiValue, HclkDivider(cfgr / 16 % 16), systemCoreClock)
    {
      SelectSource();
      MaskValues();
      MaskedField(cfgr, 4, 4, RCC_CFGR_HPRE);
      var k := AHB_PRESC_TABLE[Shr(And(cfgr, RCC_CFGR_HPRE), 4)];
      ShrIsDiv(systemCoreClock, k);
      ShrBound(systemCoreClock, k);
      systemCoreClock := Shr(systemCoreClock, k);
      SelectedInNumbers(cfgr, pllcfgr);
      ShiftIsDivider(cfgr);
      QuotientIs(hseValue, HclkDivider(cfgr / 16 % 16));
      QuotientIs(hsiValue, HclkDivider(cfgr / 16 % 16));
      if Sws(cfgr) == 2 {
        PllOutput(hseValue, hsiValue, cfgr, pllcfgr,
                  PllVco(if PllFromHse(pllcfgr) then hseValue else hsiValue, PllM(pllcfgr), PllN(pllcfgr)));
        FactorRanges(cfgr, pllcfgr);
        PllClockError(if PllFromHse(pllcfgr) then hseValue else hsiValue, PllM(pllcfgr), PllN(pllcfgr), PllP(pllcfgr),
                      AhbShift(cfgr));
      }
    }
  }
}
