/** The interrupts-disabled time module as it runs: global variables updated in place. */
module IntDisModule {
  import opened Powers
  import opened Bits
  import opened FreeTimer
  import opened IntDisMeas
  import opened IntDisRuns

  /** The running total of the first i measurements, in a timer-wide variable. */
  ghost function KeptTotalOf(tmrBits: nat, durations: seq<nat>, i: nat): nat
    requires i <= |durations|
  {
    Rem(Seen(tmrBits, durations[..i]), Pow2(tmrBits))
  }

  lemma NextSample(tmrBits: nat, durations: seq<nat>, i: nat, kept: nat)
    requires i < |durations| && kept == KeptTotalOf(tmrBits, durations, i)
    ensures Rem(kept + Shown(tmrBits, durations[i]), Pow2(tmrBits)) == KeptTotalOf(tmrBits, durations, i + 1)
  {
    var total, d := Seen(tmrBits, durations[..i]), Shown(tmrBits, durations[i]);
    assert durations[..i + 1] == durations[..i] + [durations[i]];
    SeenGrows(tmrBits, durations[..i], durations[i]);
    RemOfSum(total, d, Pow2(tmrBits));
  }

  lemma NoSamples(tmrBits: nat, durations: seq<nat>)
    ensures KeptTotalOf(tmrBits, durations, 0) == 0
  {
    RemSmall(0, Pow2(tmrBits));
  }

  /** One start and stop around a duration, from a cleared maximum, measures that duration. */
  lemma OneShot(tmr: Timer, m: Meas, t: nat, d: nat)
    requires m.nestCtr == 0 && m.maxCurCnts == 0
    ensures var n := Stop(tmr.nbrBits, Start(m, tmr.Rd(t)), tmr.Rd(t + d));
      n.nestCtr == 0 && n.maxCurCnts == Shown(tmr.nbrBits, d) && n.measCtr == Inc16(m.measCtr)
  {
    DeltaIsElapsed(tmr, t, d);
  }

  lemma AverageOfKept(tmrBits: nat, durations: seq<nat>, kept: nat)
    requires 0 < |durations| && kept == KeptTotalOf(tmrBits, durations, |durations|)
    ensures RoundedAverage(tmrBits, kept, |durations|)
         == RoundedAverage(tmrBits, Seen(tmrBits, durations), |durations|)
  {
    var total := Seen(tmrBits, durations);
    assert durations[..|durations|] == durations;
    RemTwice(total, Pow2(tmrBits));
    SameKept(tmrBits, kept, total, |durations|);
  }

  lemma SameKept(tmrBits: nat, x: nat, y: nat, n: nat)
    requires 0 < n && Rem(x, Pow2(tmrBits)) == Rem(y, Pow2(tmrBits))
    ensures RoundedAverage(tmrBits, x, n) == RoundedAverage(tmrBits, y, n)
  {
  }

  /** `before` and `during` of Init, like the clock, are the environment's: time passes between
      timer readings by amounts the code does not choose. */
  class IntDis {
    const tmr: Timer
    var clock: nat
    var measCtr: nat
    var nestCtr: nat
    var startCnts: nat
    var stopCnts: nat
    var maxCurCnts: nat
    var maxCnts: nat
    var ovrhdCnts: nat
    /** The state at initialisation, and the operations since. */
    ghost var s0: System
    ghost var history: Trace

    ghost function Contents(): Meas
      reads this
    {
      Meas(measCtr, nestCtr, startCnts, stopCnts, maxCurCnts, maxCnts, ovrhdCnts)
    }

    ghost predicate Valid()
      reads this
    {
      && Ready(s0) && Balanced(history) && Shallow(history)
      && Run(tmr, s0, history).clock == clock
      && Run(tmr, s0, history).meas == Contents()
    }

    constructor (tmr: Timer)
      ensures this.tmr == tmr
    {
      this.tmr := tmr;
    }

    /** CPU_IntDisMeasStart(). */
    method MeasStart()
      modifies this`measCtr, this`startCnts, this`nestCtr
      ensures Contents() == Start(old(Contents()), tmr.Rd(clock))
    {
      measCtr := Inc16(measCtr);
      if nestCtr == 0 {
        startCnts := tmr.Rd(clock);
      }
      nestCtr := Inc16(nestCtr);
    }

    /** CPU_IntDisMeasStop(). */
    method MeasStop()
      modifies this`nestCtr, this`stopCnts, this`maxCurCnts, this`maxCnts
      ensures Contents() == Stop(tmr.nbrBits, old(Contents()), tmr.Rd(clock))
    {
      nestCtr := Dec16(nestCtr);
      if nestCtr == 0 {
        stopCnts := tmr.Rd(clock);
        var timeIntsDisd := TmrDelta(tmr.nbrBits, stopCnts, startCnts);
        if maxCurCnts < timeIntsDisd {
          maxCurCnts := timeIntsDisd;
        }
        if maxCnts < timeIntsDisd {
          maxCnts := timeIntsDisd;
        }
      }
    }

    /** One turn of the overhead loop: a start and a stop, with the ticks before and between them. */
    method MeasureOvrhd(before: nat, during: nat)
      requires nestCtr == 0
      modifies this`clock, this`measCtr, this`startCnts, this`stopCnts, this`nestCtr, this`maxCurCnts, this`maxCnts
      ensures nestCtr == 0 && maxCurCnts == Shown(tmr.nbrBits, during) && measCtr == Inc16(old(measCtr))
    {
      clock := clock + before;
      maxCurCnts := 0;
      OneShot(tmr, Contents(), clock, during);
      MeasStart();
      clock := clock + during;
      MeasStop();
    }

    /** CPU_IntDisMeasInit(). The i-th overhead measurement reads the timer before[i] ticks after the
        previous one and again during[i] ticks later. */
    method Init(before: seq<nat>, during: seq<nat>)
      requires |before| == |during| && 1 <= |during| <= 128
      modifies this
      ensures Valid() && history == Begin
      ensures nestCtr == 0 && maxCurCnts == 0 && maxCnts == 0 && measCtr == |during|
      ensures ovrhdCnts == RoundedAverage(tmr.nbrBits, Seen(tmr.nbrBits, during), |during|)
      ensures 8 <= tmr.nbrBits ==>
                (IsNearest(Seen(tmr.nbrBits, during), |during|, ovrhdCnts)
                 <==> Seen(tmr.nbrBits, during) + (if tmr.nbrBits < 32 then 0 else |during| / 2) < Pow2(tmr.nbrBits))
    {
      measCtr, nestCtr, startCnts, stopCnts := 0, 0, 0, 0;
      maxCurCnts, maxCnts, ovrhdCnts := 0, 0, 0;
      var total: nat := 0;
      NoSamples(tmr.nbrBits, during);
      for i := 0 to |during|
        invariant nestCtr == 0 && measCtr == i
        invariant total == KeptTotalOf(tmr.nbrBits, during, i)
      {
        IncSmall(i);
        MeasureOvrhd(before[i], during[i]);
        NextSample(tmr.nbrBits, during, i, total);
        total := Rem(total + maxCurCnts, Pow2(tmr.nbrBits));
      }
      AverageOfKept(tmr.nbrBits, during, total);
      ovrhdCnts := RoundedAverage(tmr.nbrBits, total, |during|);
      if 8 <= tmr.nbrBits {
        AverageIsNearestExactly(tmr.nbrBits, Seen(tmr.nbrBits, during), |during|);
      }
      maxCurCnts := 0;
      maxCnts := 0;
      s0 := System(clock, Contents(), map[], []);
      history := Begin;
    }

    /** The passing of time. */
    method Elapse(d: nat)
      requires Valid()
      modifies this`clock, this`history
      ensures Valid() && history == Then(old(history), Tick(d))
    {
      OtherKeepsRun(history, Tick(d));
      RunGrows(tmr, s0, history, Tick(d));
      clock := clock + d;
      history := Then(history, Tick(d));
    }

    /** CPU_CRITICAL_ENTER(). */
    method CriticalEnter()
      requires Valid() && Depth(history) < 0xFFFF
      modifies this
      ensures Valid() && history == Then(old(history), Enter)
      ensures Depth(old(history)) == 0 ==> startCnts == tmr.Rd(clock)
      ensures Depth(old(history)) > 0 ==> startCnts == old(startCnts)
    {
      EnterKeepsRun(tmr, s0, history);
      RunGrows(tmr, s0, history, Enter);
      MeasStart();
      history := Then(history, Enter);
    }

    /** CPU_CRITICAL_EXIT(). */
    method CriticalExit()
      requires Valid() && 0 < Depth(history)
      modifies this
      ensures Valid() && history == Then(old(history), Exit)
    {
      OtherKeepsRun(history, Exit);
      RunGrows(tmr, s0, history, Exit);
      MeasStop();
      history := Then(history, Exit);
    }

    /** CPU_IntDisMeasMaxCalc(). */
    method MaxCalcCnts(timeTotCnts: nat) returns (timeMaxCnts: nat)
      ensures timeMaxCnts == MaxCalc(ovrhdCnts, timeTotCnts)
      ensures timeMaxCnts == 0 <==> timeTotCnts <= ovrhdCnts
      ensures timeTotCnts > ovrhdCnts ==> timeMaxCnts + ovrhdCnts == timeTotCnts
    {
      timeMaxCnts := timeTotCnts;
      if timeMaxCnts > ovrhdCnts {
        timeMaxCnts := timeMaxCnts - ovrhdCnts;
      } else {
        timeMaxCnts := 0;
      }
    }

    /** CPU_IntDisMeasMaxCurGet(). */
    method MaxCurGetCnts() returns (timeMaxCnts: nat)
      requires Valid()
      ensures timeMaxCnts == MaxCurGet(Contents())
      ensures timeMaxCnts == MaxCalc(ovrhdCnts, Longest(tmr.nbrBits, Window(history)))
    {
      var timeTotCnts := maxCurCnts;
      timeMaxCnts := MaxCalcCnts(timeTotCnts);
      RunIsExact(tmr, s0, history);
    }

    /** CPU_IntDisMeasMaxGet(). */
    method MaxGetCnts() returns (timeMaxCnts: nat)
      requires Valid()
      ensures timeMaxCnts == MaxGet(Contents()) >= MaxCurGet(Contents())
      ensures timeMaxCnts == MaxCalc(ovrhdCnts, Longest(tmr.nbrBits, Sections(history)))
    {
      var timeTotCnts := maxCnts;
      timeMaxCnts := MaxCalcCnts(timeTotCnts);
      RunIsExact(tmr, s0, history);
      MaxCurAtMostMax(tmr, s0, history);
    }

    /** CPU_IntDisMeasMaxCurReset(), when no ISR runs between its two halves: nothing is missed. */
    method MaxCurReset() returns (timeMaxCnts: nat)
      requires Valid()
      modifies this
      ensures Valid() && history == Then(Then(old(history), ResetRead(0)), ResetClear(0))
      ensures timeMaxCnts == MaxCalc(ovrhdCnts, Longest(tmr.nbrBits, Window(old(history))))
      ensures Window(history) == [] && Missed(history) == Missed(old(history))
      ensures Contents() == old(Contents()).(maxCurCnts := 0)
    {
      timeMaxCnts := MaxCurGetCnts();
      ResetSteps(tmr, s0, history);
      maxCurCnts := 0;
      history := Then(Then(history, ResetRead(0)), ResetClear(0));
    }
  }

  /** An enter within the limit keeps a run balanced and shallow; the counter tells whether it is outermost. */
  lemma EnterKeepsRun(tmr: Timer, s0: System, ops: Trace)
    requires Ready(s0) && Balanced(ops) && Shallow(ops) && Depth(ops) < 0xFFFF
    ensures Balanced(Then(ops, Enter)) && Shallow(Then(ops, Enter))
    ensures Run(tmr, s0, ops).meas.nestCtr == Depth(ops)
  {
    RunIsExact(tmr, s0, ops);
  }

  lemma OtherKeepsRun(ops: Trace, op: Op)
    requires Balanced(ops) && Shallow(ops) && !op.Enter? && (op.Exit? ==> 0 < Depth(ops))
    ensures Balanced(Then(ops, op)) && Shallow(Then(ops, op))
  {
  }

  /** A read and a clear with nothing between them. */
  lemma ResetSteps(tmr: Timer, s0: System, ops: Trace)
    requires Balanced(ops) && Shallow(ops)
    ensures var after := Then(Then(ops, ResetRead(0)), ResetClear(0));
      && Balanced(after) && Shallow(after)
      && Run(tmr, s0, after).clock == Run(tmr, s0, ops).clock
      && Run(tmr, s0, after).meas == Run(tmr, s0, ops).meas.(maxCurCnts := 0)
      && Window(after) == [] && Missed(after) == Missed(ops)
  {
    var read := Then(ops, ResetRead(0));
    assert Unseen(read, 0) == [] && Missed(read) == Missed(ops);
    RunGrows(tmr, s0, ops, ResetRead(0));
    RunGrows(tmr, s0, read, ResetClear(0));
  }
}
