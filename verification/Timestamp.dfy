/** CPU timestamps: a free-running timer of few bits extended to 32 and 64 bits by accumulation. */
module Timestamp {
  import opened Powers
  import opened Bits
  import opened FreeTimer

  /** One accumulated timestamp: its value and the timer value at its last update. */
  datatype Accum = Accum(cnts: nat, tmrPrev: nat)

  datatype Width = Ts32 | Ts64 {
    function NbrBits(): nat {
      if Ts32? then 32 else 64
    }

    /** The number of values of the timestamp. */
    function Modulus(): nat {
      if Ts32? then 0x1_0000_0000 else 0x1_0000_0000_0000_0000
    }
  }

  datatype Op = Tick(d: nat) | Get32 | Get64 {
    /** The operation reads the timer into the timestamp of width w. */
    ghost predicate Polls(w: Width) {
      match this
      case Tick(_) => false
      case Get32 => w.Ts32?
      case Get64 => w.Ts64?
    }
  }

  /** The operations since initialisation, the last one outermost. */
  datatype Trace = Begin | Then(most: Trace, last: Op)

  // ---------- the operations ----------

  function Wrap(w: Width, x: nat): nat
  {
    Rem(x, w.Modulus())
  }

  /** The update shared by CPU_TS_Get32() and CPU_TS_Get64(), with the timer reading tmrCur. */
  ghost function Accumulate(tmrBits: nat, w: Width, a: Accum, tmrCur: nat): Accum
  {
    var tmrDelta := TmrDelta(tmrBits, tmrCur, a.tmrPrev);
    Accum(Wrap(w, a.cnts + tmrDelta), tmrCur)
  }

  // ---------- what happened in a run ----------

  ghost function Elapsed(ops: Trace): nat
  {
    match ops
    case Begin => 0
    case Then(most, Tick(d)) => Elapsed(most) + d
    case Then(most, _) => Elapsed(most)
  }

  /** Timestamp w after some operations since CPU_TS_Init() at true time t0. A timestamp no wider than
      the timer is not accumulated at all. */
  ghost function Run(tmr: Timer, w: Width, t0: nat, ops: Trace): Accum
  {
    match ops
    case Begin => Accum(0, tmr.Rd(t0))
    case Then(most, op) =>
      if tmr.nbrBits < w.NbrBits() && op.Polls(w)
      then Accumulate(tmr.nbrBits, w, Run(tmr, w, t0, most), tmr.Rd(t0 + Elapsed(most)))
      else Run(tmr, w, t0, most)
  }

  /** The operations of one CPU_TS_Update(): interrupts are enabled between its two reads, so ticks may
      pass there. A timestamp no wider than the timer is not read. */
  ghost function Updated(tmrBits: nat, ops: Trace, between: nat): Trace
  {
    var first := Then(if tmrBits < 32 then Then(ops, Op.Get32) else ops, Tick(between));
    if tmrBits < 64 then Then(first, Op.Get64) else first
  }

  /** The ticks since the last read of timestamp w, or since initialisation. */
  ghost function SincePoll(w: Width, ops: Trace): nat
  {
    match ops
    case Begin => 0
    case Then(most, Tick(d)) => SincePoll(w, most) + d
    case Then(most, op) => if op.Polls(w) then 0 else SincePoll(w, most)
  }

  /** The true time of the last read of timestamp w, or of initialisation at t0. */
  ghost function PolledAt(w: Width, t0: nat, ops: Trace): nat
  {
    match ops
    case Begin => t0
    case Then(most, op) => if op.Polls(w) then t0 + Elapsed(most) else PolledAt(w, t0, most)
  }

  /** The true time between consecutive reads of timestamp w, the first counted from initialisation. */
  ghost function Gaps(w: Width, ops: Trace): seq<nat>
  {
    match ops
    case Begin => []
    case Then(most, op) => if op.Polls(w) then Gaps(w, most) + [SincePoll(w, most)] else Gaps(w, most)
  }

  ghost function LostPeriods(tmrBits: nat, gaps: seq<nat>): nat
  {
    if gaps == [] then 0 else LostPeriods(tmrBits, gaps[..|gaps| - 1]) + Periods(tmrBits, gaps[|gaps| - 1])
  }

  /** Every read of timestamp w came before the timer went round once ... */
  ghost predicate PolledInTime(tmrBits: nat, w: Width, ops: Trace)
  {
    match ops
    case Begin => true
    case Then(most, op) =>
      PolledInTime(tmrBits, w, most) && (op.Polls(w) ==> SincePoll(w, most) < Pow2(tmrBits))
  }

  /** ... that is, every gap is shorter than that. */
  ghost predicate Timely(tmrBits: nat, gaps: seq<nat>)
  {
    forall i :: 0 <= i < |gaps| ==> gaps[i] < Pow2(tmrBits)
  }

  // ---------- the run is the accumulation of its gaps ----------

  lemma {:induction false} GapsAddUp(w: Width, ops: Trace)
    ensures Sum(Gaps(w, ops)) + SincePoll(w, ops) == Elapsed(ops)
  {
    match ops
    case Begin =>
    case Then(most, op) =>
      GapsAddUp(w, most);
      SumGrows(Gaps(w, most), SincePoll(w, most));
  }

  lemma {:induction false} PolledSince(w: Width, t0: nat, ops: Trace)
    ensures PolledAt(w, t0, ops) + SincePoll(w, ops) == t0 + Elapsed(ops)
  {
    match ops
    case Begin =>
    case Then(most, _) => PolledSince(w, t0, most);
  }

  /** The ticks that the timer showed of each gap, in all. */
  ghost function SeenTicks(tmrBits: nat, w: Width, ops: Trace): nat
  {
    match ops
    case Begin => 0
    case Then(most, op) =>
      SeenTicks(tmrBits, w, most) + if op.Polls(w) then Shown(tmrBits, SincePoll(w, most)) else 0
  }

  lemma {:induction false} SeenInGaps(tmrBits: nat, w: Width, ops: Trace)
    ensures SeenTicks(tmrBits, w, ops) == Seen(tmrBits, Gaps(w, ops))
  {
    match ops
    case Begin =>
    case Then(most, op) =>
      SeenInGaps(tmrBits, w, most);
      SeenGrows(tmrBits, Gaps(w, most), SincePoll(w, most));
  }

  /** The accumulator that saw so many ticks, the last of them at true time t. */
  ghost function AccumAfter(tmr: Timer, w: Width, seen: nat, t: nat): Accum
  {
    Accum(Wrap(w, seen), tmr.Rd(t))
  }

  lemma NothingSeen(tmr: Timer, w: Width, t: nat)
    ensures AccumAfter(tmr, w, 0, t) == Accum(0, tmr.Rd(t))
  {
    RemSmall(0, w.Modulus());
  }

  /** One read after a gap: the accumulator grows by what the timer shows of the gap. */
  lemma PollAfterGap(tmr: Timer, w: Width, seen: nat, t: nat, gap: nat, now: nat)
    requires now == t + gap
    ensures Accumulate(tmr.nbrBits, w, AccumAfter(tmr, w, seen, t), tmr.Rd(now))
         == AccumAfter(tmr, w, seen + Shown(tmr.nbrBits, gap), now)
  {
    DeltaIsElapsed(tmr, t, gap);
    RemOfSum(seen, Shown(tmr.nbrBits, gap), w.Modulus());
  }

  lemma {:induction false} RunAccumulates(tmr: Timer, w: Width, t0: nat, ops: Trace)
    requires tmr.nbrBits < w.NbrBits()
    ensures Run(tmr, w, t0, ops) == AccumAfter(tmr, w, SeenTicks(tmr.nbrBits, w, ops), PolledAt(w, t0, ops))
  {
    match ops
    case Begin => NothingSeen(tmr, w, t0);
    case Then(most, op) =>
      RunAccumulates(tmr, w, t0, most);
      if op.Polls(w) {
        PolledSince(w, t0, most);
        PollAfterGap(tmr, w, SeenTicks(tmr.nbrBits, w, most), PolledAt(w, t0, most), SincePoll(w, most),
                     t0 + Elapsed(most));
      }
  }

  /** On every run: the previous timer value belongs to the last read, and the accumulator holds the
      seen ticks modulo its own size. */
  lemma RunAccumulatesSeen(tmr: Timer, w: Width, t0: nat, ops: Trace)
    requires tmr.nbrBits < w.NbrBits()
    ensures Run(tmr, w, t0, ops) == AccumAfter(tmr, w, Seen(tmr.nbrBits, Gaps(w, ops)), PolledAt(w, t0, ops))
  {
    RunAccumulates(tmr, w, t0, ops);
    SeenInGaps(tmr.nbrBits, w, ops);
  }

  // ---------- exactness and loss ----------

  /** Late reads lose whole timer periods and nothing else. */
  lemma {:induction false} LossIsWholePeriods(tmrBits: nat, gaps: seq<nat>)
    ensures Sum(gaps) == Seen(tmrBits, gaps) + LostTicks(tmrBits, gaps)
  {
    if gaps == [] {
    } else {
      var most, last := gaps[..|gaps| - 1], gaps[|gaps| - 1];
      LossIsWholePeriods(tmrBits, most);
      PeriodsAndRest(tmrBits, last);
      LostTicksGrow(LostPeriods(tmrBits, most), last, Pow2(tmrBits));
    }
  }

  ghost function LostTicks(tmrBits: nat, gaps: seq<nat>): int
  {
    LostPeriods(tmrBits, gaps) * Pow2(tmrBits)
  }

  lemma LostTicksGrow(lost: nat, gap: nat, d: nat)
    requires 0 < d
    ensures (lost + gap / d) * d + gap % d == lost * d + gap
  {
    DivModParts(gap, d);
    MulDistrib(lost, gap / d, d);
  }

  lemma NoPeriod(tmrBits: nat, gap: nat)
    ensures Periods(tmrBits, gap) == 0 <==> gap < Pow2(tmrBits)
  {
    PeriodsAndRest(tmrBits, gap);
    DivBounds(gap, Pow2(tmrBits), 1, 1);
  }

  lemma TimelyGrows(tmrBits: nat, gaps: seq<nat>, gap: nat)
    ensures Timely(tmrBits, gaps + [gap]) <==> Timely(tmrBits, gaps) && gap < Pow2(tmrBits)
  {
    var all := gaps + [gap];
    if Timely(tmrBits, all) {
      assert all[|gaps|] == gap;
      assert forall i :: 0 <= i < |gaps| ==> gaps[i] == all[i];
    }
  }

  lemma {:induction false} InTimeIsTimely(tmrBits: nat, w: Width, ops: Trace)
    ensures PolledInTime(tmrBits, w, ops) <==> Timely(tmrBits, Gaps(w, ops))
  {
    match ops
    case Begin =>
    case Then(most, op) =>
      InTimeIsTimely(tmrBits, w, most);
      if op.Polls(w) {
        TimelyGrows(tmrBits, Gaps(w, most), SincePoll(w, most));
      }
  }

  /** No period is lost exactly when every read was timely. */
  lemma {:induction false} NothingLostWhenTimely(tmrBits: nat, gaps: seq<nat>)
    ensures LostPeriods(tmrBits, gaps) == 0 <==> Timely(tmrBits, gaps)
  {
    if gaps == [] {
    } else {
      var most, last := gaps[..|gaps| - 1], gaps[|gaps| - 1];
      NothingLostWhenTimely(tmrBits, most);
      NoPeriod(tmrBits, last);
      TimelyGrows(tmrBits, most, last);
      assert gaps == most + [last];
    }
  }

  /** After any run, the timestamp is the true time of its last read less the lost timer periods; it is
      always right modulo the timer's range, and right altogether exactly when the lost periods
      add up to whole turns of the timestamp itself. */
  lemma RunLosesWholePeriods(tmr: Timer, w: Width, t0: nat, ops: Trace)
    requires tmr.nbrBits < w.NbrBits()
    ensures var cnts := Run(tmr, w, t0, ops).cnts;
      var time, lost := Sum(Gaps(w, ops)), LostPeriods(tmr.nbrBits, Gaps(w, ops));
      && (cnts + lost * Pow2(tmr.nbrBits)) % w.Modulus() == time % w.Modulus()
      && cnts % Pow2(tmr.nbrBits) == time % Pow2(tmr.nbrBits)
      && (cnts == time % w.Modulus() <==> lost % Pow2(w.NbrBits() - tmr.nbrBits) == 0)
  {
    var gaps := Gaps(w, ops);
    assert Run(tmr, w, t0, ops).cnts == Rem(Seen(tmr.nbrBits, gaps), w.Modulus()) by {
      RunAccumulatesSeen(tmr, w, t0, ops);
    }
    LossIsWholePeriods(tmr.nbrBits, gaps);
    WidthModulus(w);
    AccumulatorLoss(Sum(gaps), Seen(tmr.nbrBits, gaps), LostPeriods(tmr.nbrBits, gaps), tmr.nbrBits, w.NbrBits(),
                    w.Modulus(), Run(tmr, w, t0, ops).cnts);
  }

  lemma AccumulatorLoss(time: nat, seen: nat, lost: nat, tmrBits: nat, bits: nat, d: nat, cnts: nat)
    requires tmrBits < bits && d == Pow2(bits)
    requires time == seen + lost * Pow2(tmrBits) && cnts == Rem(seen, d)
    ensures (cnts + lost * Pow2(tmrBits)) % d == time % d
    ensures cnts % Pow2(tmrBits) == time % Pow2(tmrBits)
    ensures cnts == time % d <==> lost % Pow2(bits - tmrBits) == 0
  {
    RemIsMod(seen, d);
    Pow2Add(tmrBits, bits - tmrBits);
    Congruences(time, seen, lost, Pow2(tmrBits), Pow2(bits - tmrBits));
  }

  lemma Congruences(time: nat, seen: nat, lost: nat, p: nat, q: nat)
    requires 0 < p && 0 < q && time == seen + lost * p
    ensures 0 < p * q
    ensures (seen % (p * q) + lost * p) % (p * q) == time % (p * q)
    ensures seen % (p * q) % p == time % p
    ensures seen % (p * q) == time % (p * q) <==> lost % q == 0
  {
    DivModProduct(seen, p, q);
    ModAddLeft(seen, lost * p, p * q);
    ModPlus(seen, lost, p);
    SameMod(time, seen, p * q);
    MulNat(lost, p);
    DivModProduct(lost * p, p, q);
    MulDiv(lost, p);
    MulStrict(0, p, 1);
    if lost % q != 0 {
      MulMono(1, lost % q, p);
    }
  }

  lemma {:induction false} TimelySeesAll(tmrBits: nat, gaps: seq<nat>)
    requires Timely(tmrBits, gaps)
    ensures Seen(tmrBits, gaps) == Sum(gaps)
  {
    if gaps == [] {
    } else {
      var most, last := gaps[..|gaps| - 1], gaps[|gaps| - 1];
      assert Timely(tmrBits, most);
      TimelySeesAll(tmrBits, most);
      RemSmall(last, Pow2(tmrBits));
    }
  }

  lemma AllTimeInGaps(w: Width, ops: Trace, op: Op)
    requires op.Polls(w)
    ensures Sum(Gaps(w, Then(ops, op))) == Elapsed(ops)
  {
    SumGrows(Gaps(w, ops), SincePoll(w, ops));
    GapsAddUp(w, ops);
  }

  /** When every read comes before the timer goes round once, reading the timestamp returns the true
      ticks since initialisation, modulo its own size. */
  lemma TimelyRunIsExact(tmr: Timer, w: Width, t0: nat, ops: Trace, op: Op)
    requires tmr.nbrBits < w.NbrBits() && op.Polls(w)
    requires Timely(tmr.nbrBits, Gaps(w, Then(ops, op)))
    ensures Run(tmr, w, t0, Then(ops, op)).cnts == Wrap(w, Elapsed(ops))
  {
    var gaps := Gaps(w, Then(ops, op));
    assert Run(tmr, w, t0, Then(ops, op)).cnts == Wrap(w, Seen(tmr.nbrBits, gaps)) by {
      RunAccumulatesSeen(tmr, w, t0, Then(ops, op));
    }
    assert Seen(tmr.nbrBits, gaps) == Elapsed(ops) by {
      TimelySeesAll(tmr.nbrBits, gaps);
      AllTimeInGaps(w, ops, op);
    }
  }

  /** A reading of a timer as wide as the timestamp, truncated to it, advances with the true time. */
  lemma WideTimerRead(tmr: Timer, w: Width, t: nat)
    requires w.NbrBits() <= tmr.nbrBits
    ensures Wrap(w, tmr.Rd(t)) == Rem(tmr.phase + t, w.Modulus())
  {
    WidthModulus(w);
    Pow2Add(w.NbrBits(), tmr.nbrBits - w.NbrBits());
    RemOfProduct(tmr.phase + t, w.Modulus(), Pow2(tmr.nbrBits - w.NbrBits()), Pow2(tmr.nbrBits));
  }

  lemma WidthModulus(w: Width)
    ensures w.Modulus() == Pow2(w.NbrBits())
  {
    Pow2Values();
  }

  /** A timely read returned the right value; an untimely one is not judged. */
  ghost predicate RightIfTimely(tmrBits: nat, w: Width, ops: Trace, time: int, cnts: nat)
  {
    PolledInTime(tmrBits, w, ops) ==> 0 <= time && cnts == Wrap(w, time)
  }

  /** What the timestamp module holds, with the true clock that drives its timer. */
  datatype State = State(clock: nat, ts32: Accum, ts64: Accum)

  ghost function After(tmr: Timer, t0: nat, ops: Trace): State
  {
    State(t0 + Elapsed(ops), Run(tmr, Ts32, t0, ops), Run(tmr, Ts64, t0, ops))
  }

  lemma AfterTick(tmr: Timer, t0: nat, ops: Trace, d: nat)
    ensures var s := After(tmr, t0, ops);
      After(tmr, t0, Then(ops, Tick(d))) == s.(clock := s.clock + d)
  {
  }

  lemma AfterGet32(tmr: Timer, t0: nat, ops: Trace)
    ensures var s := After(tmr, t0, ops);
      After(tmr, t0, Then(ops, Op.Get32))
      == if tmr.nbrBits < 32 then s.(ts32 := Accumulate(tmr.nbrBits, Ts32, s.ts32, tmr.Rd(s.clock))) else s
  {
  }

  lemma AfterGet64(tmr: Timer, t0: nat, ops: Trace)
    ensures var s := After(tmr, t0, ops);
      After(tmr, t0, Then(ops, Op.Get64))
      == if tmr.nbrBits < 64 then s.(ts64 := Accumulate(tmr.nbrBits, Ts64, s.ts64, tmr.Rd(s.clock))) else s
  {
  }

  /** A read at true time now that leaves cnts behind is right if timely. */
  lemma ReadIsRight(tmr: Timer, w: Width, t0: nat, ops: Trace, op: Op, now: nat, cnts: nat)
    requires tmr.nbrBits < w.NbrBits() && op.Polls(w) && now == t0 + Elapsed(ops)
    requires cnts == Run(tmr, w, t0, Then(ops, op)).cnts
    ensures RightIfTimely(tmr.nbrBits, w, Then(ops, op), now - t0, cnts)
  {
    InTimeIsTimely(tmr.nbrBits, w, Then(ops, op));
    if PolledInTime(tmr.nbrBits, w, Then(ops, op)) {
      TimelyRunIsExact(tmr, w, t0, ops, op);
    }
  }

  lemma Get32IsRight(tmr: Timer, t0: nat, ops: Trace, s: State, s': State)
    requires tmr.nbrBits < 32 && s == After(tmr, t0, ops) && s' == After(tmr, t0, Then(ops, Op.Get32))
    ensures RightIfTimely(tmr.nbrBits, Ts32, Then(ops, Op.Get32), s.clock - t0, s'.ts32.cnts)
  {
    ReadIsRight(tmr, Ts32, t0, ops, Op.Get32, s.clock, s'.ts32.cnts);
  }

  lemma Get64IsRight(tmr: Timer, t0: nat, ops: Trace, s: State, s': State)
    requires tmr.nbrBits < 64 && s == After(tmr, t0, ops) && s' == After(tmr, t0, Then(ops, Op.Get64))
    ensures RightIfTimely(tmr.nbrBits, Ts64, Then(ops, Op.Get64), s.clock - t0, s'.ts64.cnts)
  {
    ReadIsRight(tmr, Ts64, t0, ops, Op.Get64, s.clock, s'.ts64.cnts);
  }

  // ---------- the module's global state ----------

  /** CPU_TS_Init() makes the object; `history` records the calls and ticks since then. */
  class CpuTs {
    const tmr: Timer
    var clock: nat
    var ts32Accum: nat
    var ts32TmrPrev: nat
    var ts64Accum: nat
    var ts64TmrPrev: nat
    ghost const t0: nat
    ghost var history: Trace

    ghost function Contents(): State
      reads this
    {
      State(clock, Accum(ts32Accum, ts32TmrPrev), Accum(ts64Accum, ts64TmrPrev))
    }

    ghost predicate Valid()
      reads this
    {
      Contents() == After(tmr, t0, history)
    }

    constructor (tmr: Timer, now: nat)
      ensures Valid() && this.tmr == tmr && t0 == now && history == Begin
    {
      this.tmr := tmr;
      clock := now;
      t0 := now;
      var tsTmrCnts := tmr.Rd(now);
      ts32Accum, ts32TmrPrev := 0, tsTmrCnts;
      ts64Accum, ts64TmrPrev := 0, tsTmrCnts;
      history := Begin;
    }

    /** The passing of time. */
    method Elapse(d: nat)
      requires Valid()
      modifies this`clock, this`history
      ensures Valid() && history == Then(old(history), Tick(d)) && clock == old(clock) + d
    {
      AfterTick(tmr, t0, history, d);
      clock := clock + d;
      history := Then(history, Tick(d));
    }

    method TmrRd() returns (cnts: nat)
      ensures cnts == tmr.Rd(clock)
    {
      cnts := tmr.Rd(clock);
    }

    /** The arithmetic of CPU_TS_Get32() and CPU_TS_Get64(): add the ticks since the previous reading. */
    method Accumulated(w: Width, accum: nat, tmrPrev: nat, tmrCur: nat) returns (cnts: nat)
      ensures Accum(cnts, tmrCur) == Accumulate(tmr.nbrBits, w, Accum(accum, tmrPrev), tmrCur)
    {
      var tmrDelta := TmrDelta(tmr.nbrBits, tmrCur, tmrPrev);
      cnts := Wrap(w, accum + tmrDelta);
    }

    /** CPU_TS_Get32(). */
    method Get32() returns (ts: nat)
      requires Valid()
      modifies this`ts32Accum, this`ts32TmrPrev, this`history
      ensures Valid() && history == Then(old(history), Op.Get32)
      ensures tmr.nbrBits >= 32 ==> ts == Rem(tmr.phase + clock, 0x1_0000_0000)
      ensures tmr.nbrBits < 32 ==>
                ts == ts32Accum && RightIfTimely(tmr.nbrBits, Ts32, history, clock - t0, ts)
    {
      ghost var before, s := history, Contents();
      AfterGet32(tmr, t0, before);
      if tmr.nbrBits >= 32 {
        var cnts := TmrRd();
        ts := Wrap(Ts32, cnts);
        WideTimerRead(tmr, Ts32, clock);
      } else {
        var tmrCur := TmrRd();
        ts32Accum := Accumulated(Ts32, ts32Accum, ts32TmrPrev, tmrCur);
        ts32TmrPrev := tmrCur;
        ts := ts32Accum;
      }
      assert Contents() == After(tmr, t0, Then(before, Op.Get32));
      if tmr.nbrBits < 32 {
        Get32IsRight(tmr, t0, before, s, Contents());
      }
      history := Then(before, Op.Get32);
    }

    /** CPU_TS_Get64(). */
    method Get64() returns (ts: nat)
      requires Valid()
      modifies this`ts64Accum, this`ts64TmrPrev, this`history
      ensures Valid() && history == Then(old(history), Op.Get64)
      ensures tmr.nbrBits >= 64 ==> ts == Rem(tmr.phase + clock, 0x1_0000_0000_0000_0000)
      ensures tmr.nbrBits < 64 ==>
                ts == ts64Accum && RightIfTimely(tmr.nbrBits, Ts64, history, clock - t0, ts)
    {
      ghost var before, s := history, Contents();
      AfterGet64(tmr, t0, before);
      if tmr.nbrBits >= 64 {
        var cnts := TmrRd();
        ts := Wrap(Ts64, cnts);
        WideTimerRead(tmr, Ts64, clock);
      } else {
        var tmrCur := TmrRd();
        ts64Accum := Accumulated(Ts64, ts64Accum, ts64TmrPrev, tmrCur);
        ts64TmrPrev := tmrCur;
        ts := ts64Accum;
      }
      assert Contents() == After(tmr, t0, Then(before, Op.Get64));
      if tmr.nbrBits < 64 {
        Get64IsRight(tmr, t0, before, s, Contents());
      }
      history := Then(before, Op.Get64);
    }

    /** CPU_TS_Update(), with the ticks that pass between its two reads. */
    method UpdateAll(between: nat)
      requires Valid()
      modifies this
      ensures Valid() && history == Updated(tmr.nbrBits, old(history), between)
      ensures clock == old(clock) + between
      ensures tmr.nbrBits < 32 ==>
                RightIfTimely(tmr.nbrBits, Ts32, Then(old(history), Op.Get32), old(clock) - t0, ts32Accum)
      ensures tmr.nbrBits < 64 ==>
                RightIfTimely(tmr.nbrBits, Ts64, history, clock - t0, ts64Accum)
    {
      if tmr.nbrBits < 32 {
        var _ := Get32();
      }
      Elapse(between);
      if tmr.nbrBits < 64 {
        var _ := Get64();
      }
    }
  }
}
