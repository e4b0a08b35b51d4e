/** Interrupts-disabled time: nesting, start stamp, resettable and permanent maxima, overhead. */
module IntDisMeas {
  import opened Powers
  import opened Bits
  import opened FreeTimer

  /** The global measurement variables. */
  datatype Meas = Meas(measCtr: nat, nestCtr: nat, startCnts: nat, stopCnts: nat,
                       maxCurCnts: nat, maxCnts: nat, ovrhdCnts: nat)

  ghost function Max(x: nat, y: nat): nat
  {
    if x < y then y else x
  }

  // ---------- the operations on 16-bit counters and timer-wide times ----------

  function Inc16(x: nat): nat
  {
    (x + 1) % 0x1_0000
  }

  lemma IncSmall(n: nat)
    requires n < 0xFFFF
    ensures Inc16(n) == n + 1
  {
  }

  function Dec16(x: nat): nat
  {
    (x - 1) % 0x1_0000
  }

  /** CPU_IntDisMeasStart(), with the timer reading tmrCnts. */
  ghost function Start(m: Meas, tmrCnts: nat): Meas
  {
    var stamped := if m.nestCtr == 0 then m.(startCnts := tmrCnts) else m;
    stamped.(measCtr := Inc16(m.measCtr), nestCtr := Inc16(m.nestCtr))
  }

  /** CPU_IntDisMeasStop(). */
  ghost function Stop(tmrBits: nat, m: Meas, tmrCnts: nat): Meas
  {
    var left := m.(nestCtr := Dec16(m.nestCtr));
    if left.nestCtr == 0 then
      var intsDisd := TmrDelta(tmrBits, tmrCnts, m.startCnts);
      left.(stopCnts := tmrCnts, maxCurCnts := Max(m.maxCurCnts, intsDisd), maxCnts := Max(m.maxCnts, intsDisd))
    else left
  }

  /** CPU_IntDisMeasMaxCalc(): the overhead is subtracted, down to 0. */
  ghost function MaxCalc(ovrhdCnts: nat, timeTotCnts: nat): nat
  {
    if timeTotCnts > ovrhdCnts then timeTotCnts - ovrhdCnts else 0
  }

  /** CPU_IntDisMeasMaxCurGet() and CPU_IntDisMeasMaxGet(). */
  ghost function MaxCurGet(m: Meas): nat
  {
    MaxCalc(m.ovrhdCnts, m.maxCurCnts)
  }

  ghost function MaxGet(m: Meas): nat
  {
    MaxCalc(m.ovrhdCnts, m.maxCnts)
  }

  /** Subtracting the overhead keeps the order, so the greater time stays the greater. */
  lemma MaxCalcOfMax(ovrhdCnts: nat, x: nat, y: nat)
    ensures MaxCalc(ovrhdCnts, Max(x, y)) == Max(MaxCalc(ovrhdCnts, x), MaxCalc(ovrhdCnts, y))
    ensures x <= y ==> MaxCalc(ovrhdCnts, x) <= MaxCalc(ovrhdCnts, y)
  {
  }

  // ---------- the overhead average ----------

  /** The average as computed: the total is kept in a timer-wide variable, and half the number of
      samples is added in at least 32 bits. */
  function RoundedAverage(tmrBits: nat, total: nat, n: nat): nat
    requires 0 < n
  {
    var kept := Rem(total, Pow2(tmrBits));
    Quotient(Rem(kept + n / 2, Pow2(AddBits(tmrBits))), n)
  }

  function AddBits(tmrBits: nat): nat
  {
    if tmrBits < 32 then 32 else tmrBits
  }

  /** n times the average is within half of n of the total. */
  ghost predicate IsNearest(total: nat, n: nat, avg: nat)
  {
    WithinHalf(n * avg, total, n)
  }

  ghost predicate WithinHalf(x: int, y: int, n: nat)
  {
    2 * (x - y) <= n && 2 * (y - x) <= n
  }

  lemma NearestInBounds(d: nat, addMod: nat, total: nat, kept: nat, n: nat, s: nat, product: nat)
    requires 0x100 <= d && 1 <= n <= 128
    requires addMod == d || d + 128 <= addMod
    requires kept < d && (if total < d then kept == total else kept + d <= total)
    requires s == if kept + n / 2 < addMod then kept + n / 2 else kept + n / 2 - addMod
    requires s - n < product <= s
    ensures WithinHalf(product, total, n)
       <==> total + (if addMod == d then n / 2 else 0) < d
  {
  }

  lemma KeptTotal(total: nat, d: nat)
    requires 0 < d
    ensures var kept := Rem(total, d);
      kept < d && if total < d then kept == total else kept + d <= total
  {
    RemIsMod(total, d);
    if total < d {
      RemSmall(total, d);
    } else {
      RemIsMod(total - d, d);
      ModAtMost(total - d, d);
    }
  }

  lemma AddRange(tmrBits: nat)
    requires 8 <= tmrBits
    ensures 0x100 <= Pow2(tmrBits)
    ensures tmrBits < 32 ==> Pow2(tmrBits) + 128 <= Pow2(32)
  {
    Pow2Values();
    Pow2Mono(8, tmrBits);
    if tmrBits < 32 {
      Pow2Mono(tmrBits, 31);
    }
  }

  /** The average is the total divided by n, rounded to nearest, exactly when neither the total nor,
      on timers of 32 bits and more, the total plus half of n overflows the timer's range. */
  lemma AverageIsNearestExactly(tmrBits: nat, total: nat, n: nat)
    requires 8 <= tmrBits && 1 <= n <= 128
    ensures IsNearest(total, n, RoundedAverage(tmrBits, total, n))
       <==> total + (if tmrBits < 32 then 0 else n / 2) < Pow2(tmrBits)
  {
    var s, product := AverageTimes(tmrBits, total, n);
    AddRange(tmrBits);
    KeptTotal(total, Pow2(tmrBits));
    NearestInBounds(Pow2(tmrBits), Pow2(AddBits(tmrBits)), total, Rem(total, Pow2(tmrBits)), n, s, product);
  }

  lemma AverageTimes(tmrBits: nat, total: nat, n: nat) returns (s: nat, product: nat)
    requires 8 <= tmrBits && 1 <= n <= 128
    ensures product == n * RoundedAverage(tmrBits, total, n)
    ensures s - n < product <= s
    ensures var x, addMod := Rem(total, Pow2(tmrBits)) + n / 2, Pow2(AddBits(tmrBits));
      s == if x < addMod then x else x - addMod
  {
    var kept, addMod := Rem(total, Pow2(tmrBits)), Pow2(AddBits(tmrBits));
    s := Rem(kept + n / 2, addMod);
    AddRange(tmrBits);
    KeptTotal(total, Pow2(tmrBits));
    ReducedSum(kept, n / 2, addMod);
    QuotientBounds(s, n);
    product := n * Quotient(s, n);
  }

  lemma ReducedSum(x: nat, h: nat, d: nat)
    requires x < d && h < d
    ensures Rem(x + h, d) == if x + h < d then x + h else x + h - d
  {
  }

  lemma QuotientBounds(s: nat, n: nat)
    requires 0 < n
    ensures 0 <= n * Quotient(s, n) && s - n < n * Quotient(s, n) <= s
  {
    DivModParts(s, n);
  }
}
