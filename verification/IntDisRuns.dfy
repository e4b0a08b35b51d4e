/** Runs of the interrupts-disabled time measurement: tasks and ISRs enter and leave nested critical
    sections while any number of contexts may be resetting the current maximum. */
module IntDisRuns {
  import opened Powers
  import opened Bits
  import opened FreeTimer
  import opened IntDisMeas

  /** The two interrupt-free halves of CPU_IntDisMeasMaxCurReset(), called by the context ctx, are
      separate steps: critical sections, and resets by other contexts, may come between them. */
  datatype Op = Tick(d: nat) | Enter | Exit | ResetRead(ctx: nat) | ResetClear(ctx: nat)

  /** The operations since initialisation, the last one outermost. */
  datatype Trace = Begin | Then(most: Trace, last: Op)

  /** The module's variables, the true clock, the values held by the resets in progress, and the values
      returned by the completed ones. */
  datatype System = System(clock: nat, meas: Meas, held: map<nat, nat>, returned: seq<nat>)

  ghost function Step(tmr: Timer, s: System, op: Op): System
  {
    match op
    case Tick(d) => s.(clock := s.clock + d)
    case Enter => s.(meas := Start(s.meas, tmr.Rd(s.clock)))
    case Exit => s.(meas := Stop(tmr.nbrBits, s.meas, tmr.Rd(s.clock)))
    case ResetRead(c) => s.(held := s.held[c := MaxCurGet(s.meas)])
    case ResetClear(c) => ClearStep(s, c)
  }

  ghost function ClearStep(s: System, c: nat): System
  {
    s.(meas := s.meas.(maxCurCnts := 0), held := s.held - {c},
       returned := s.returned + if c in s.held then [s.held[c]] else [])
  }

  ghost function Run(tmr: Timer, s0: System, ops: Trace): System
  {
    if ops.Begin? then s0 else Step(tmr, Run(tmr, s0, ops.most), ops.last)
  }

  /** As CPU_IntDisMeasInit() leaves it. */
  ghost predicate Ready(s: System)
  {
    && s.meas.measCtr < 0x1_0000 && s.meas.nestCtr == 0
    && s.meas.maxCurCnts == 0 && s.meas.maxCnts == 0 && s.held == map[] && s.returned == []
  }

  // ---------- what happened in a run, told without the module's variables ----------

  ghost function Depth(ops: Trace): int
  {
    if ops.Begin? then 0
    else Depth(ops.most) + match ops.last { case Enter => 1 case Exit => -1 case _ => 0 }
  }

  /** Every exit closes a section that is open. */
  ghost predicate Balanced(ops: Trace)
  {
    ops.Begin? || (Balanced(ops.most) && (ops.last.Exit? ==> 0 < Depth(ops.most)))
  }

  /** Sections are never nested more than 65535 deep. */
  ghost predicate Shallow(ops: Trace)
  {
    Depth(ops) <= 0xFFFF && (ops.Begin? || Shallow(ops.most))
  }

  ghost function Elapsed(ops: Trace): nat
  {
    if ops.Begin? then 0
    else Elapsed(ops.most) + match ops.last { case Tick(d) => d case _ => 0 }
  }

  /** The last operation enters a section when none is open. */
  ghost predicate Opens(ops: Trace)
    requires ops.Then?
  {
    ops.last.Enter? && Depth(ops.most) == 0
  }

  /** The true time at which the last outermost section was entered, in a run started at t0. */
  ghost function OpenedAt(t0: nat, ops: Trace): nat
  {
    if ops.Begin? then t0
    else if Opens(ops) then t0 + Elapsed(ops.most)
    else OpenedAt(t0, ops.most)
  }

  /** The time since then. */
  ghost function SinceOpened(ops: Trace): nat
  {
    if ops.Begin? || Opens(ops) then 0
    else SinceOpened(ops.most) + match ops.last { case Tick(d) => d case _ => 0 }
  }

  /** The number of sections entered, nested ones included. */
  ghost function Entered(ops: Trace): nat
  {
    if ops.Begin? then 0
    else Entered(ops.most) + if ops.last.Enter? then 1 else 0
  }

  /** The last operation completes an outermost section. */
  ghost predicate Completes(ops: Trace)
    requires ops.Then?
  {
    ops.last.Exit? && Depth(ops.most) == 1
  }

  /** The true duration of the outermost section that the last operation completes, if it completes one. */
  ghost function Completed(ops: Trace): seq<nat>
    requires ops.Then?
  {
    if Completes(ops) then [SinceOpened(ops.most)] else []
  }

  /** The true time at which the last outermost section was completed, in a run started at t0. */
  ghost function CompletedAt(t0: nat, ops: Trace): nat
  {
    if ops.Begin? then t0
    else if Completed(ops) != [] then t0 + Elapsed(ops.most)
    else CompletedAt(t0, ops.most)
  }

  /** The true durations of all completed outermost sections. */
  ghost function Sections(ops: Trace): seq<nat>
  {
    if ops.Begin? then [] else Sections(ops.most) + Completed(ops)
  }

  /** ... of those completed since the current maximum was last cleared. */
  ghost function Window(ops: Trace): seq<nat>
  {
    if ops.Begin? || ops.last.ResetClear? then []
    else Window(ops.most) + Completed(ops)
  }

  /** A reset by context c has read the current maximum and not yet cleared it. */
  ghost predicate Pending(ops: Trace, c: nat)
  {
    ops.Then? &&
    if ops.last == ResetRead(c) then true
    else if ops.last == ResetClear(c) then false
    else Pending(ops.most, c)
  }

  /** The window as it was when context c last read the current maximum. */
  ghost function WindowAtRead(ops: Trace, c: nat): seq<nat>
  {
    if ops.Begin? then []
    else if ops.last == ResetRead(c) then Window(ops.most)
    else WindowAtRead(ops.most, c)
  }

  /** Some reset cleared the current maximum after context c last read it. */
  ghost predicate Overtaken(ops: Trace, c: nat)
  {
    ops.Then? && ops.last != ResetRead(c) && (ops.last.ResetClear? || Overtaken(ops.most, c))
  }

  /** The sections completed since context c last read the current maximum or any context cleared it. */
  ghost function Unseen(ops: Trace, c: nat): seq<nat>
  {
    if ops.Begin? || Renews(ops.last, c) then []
    else Unseen(ops.most, c) + Completed(ops)
  }

  ghost predicate Renews(op: Op, c: nat)
  {
    op == ResetRead(c) || op.ResetClear?
  }

  /** The sections covered by the values that resets returned: each returns what its window was. */
  ghost function Reported(ops: Trace): seq<nat>
  {
    if ops.Begin? then []
    else
      var most := ops.most;
      if ops.last.ResetClear? && Pending(most, ops.last.ctx)
      then Reported(most) + WindowAtRead(most, ops.last.ctx) else Reported(most)
  }

  /** ... those of them that an earlier clear had already removed from the window. */
  ghost function Again(ops: Trace): seq<nat>
  {
    if ops.Begin? then []
    else
      var most := ops.most;
      if ops.last.ResetClear? && Pending(most, ops.last.ctx) && Overtaken(most, ops.last.ctx)
      then Again(most) + WindowAtRead(most, ops.last.ctx) else Again(most)
  }

  /** The sections that a clear removed from the window unseen by the read of its own reset. */
  ghost function Missed(ops: Trace): seq<nat>
  {
    if ops.Begin? then []
    else
      var most := ops.most;
      if ops.last.ResetClear? then Missed(most) + Unseen(most, ops.last.ctx) else Missed(most)
  }

  /** The longest of some durations as a timer of the given width measures them. */
  ghost function Longest(tmrBits: nat, durations: seq<nat>): nat
  {
    if durations == [] then 0
    else Max(Longest(tmrBits, durations[..|durations| - 1]), Shown(tmrBits, durations[|durations| - 1]))
  }

  ghost function Greatest(values: seq<nat>): nat
  {
    if values == [] then 0 else Max(Greatest(values[..|values| - 1]), values[|values| - 1])
  }

  // ---------- one step ----------

  lemma RunGrows(tmr: Timer, s0: System, ops: Trace, op: Op)
    ensures Run(tmr, s0, Then(ops, op)) == Step(tmr, Run(tmr, s0, ops), op)
  {
  }

  lemma OutermostStart(m: Meas, tmrCnts: nat)
    requires m.nestCtr == 0
    ensures Start(m, tmrCnts) == m.(startCnts := tmrCnts, measCtr := Inc16(m.measCtr), nestCtr := 1)
  {
  }

  lemma NestedStart(m: Meas, tmrCnts: nat)
    requires 0 < m.nestCtr < 0xFFFF
    ensures Start(m, tmrCnts) == m.(measCtr := Inc16(m.measCtr), nestCtr := m.nestCtr + 1)
  {
  }

  /** An outermost stop at true time now, d ticks after its start. */
  lemma OutermostStop(tmr: Timer, m: Meas, t: nat, d: nat, now: nat)
    requires m.nestCtr == 1 && m.startCnts == tmr.Rd(t) && now == t + d
    ensures Stop(tmr.nbrBits, m, tmr.Rd(now))
         == m.(nestCtr := 0, stopCnts := tmr.Rd(now), maxCurCnts := Max(m.maxCurCnts, Shown(tmr.nbrBits, d)),
               maxCnts := Max(m.maxCnts, Shown(tmr.nbrBits, d)))
  {
    DeltaIsElapsed(tmr, t, d);
  }

  lemma NestedStop(tmrBits: nat, m: Meas, tmrCnts: nat)
    requires 1 < m.nestCtr <= 0xFFFF
    ensures Stop(tmrBits, m, tmrCnts) == m.(nestCtr := m.nestCtr - 1)
  {
  }

  // ---------- both maxima are exact on every run ----------

  lemma LongestAppend(tmrBits: nat, durations: seq<nat>, d: nat)
    ensures Longest(tmrBits, durations + [d]) == Max(Longest(tmrBits, durations), Shown(tmrBits, d))
  {
    assert (durations + [d])[..|durations|] == durations;
  }

  lemma {:induction false} LongestConcat(tmrBits: nat, p: seq<nat>, q: seq<nat>)
    ensures Longest(tmrBits, p + q) == Max(Longest(tmrBits, p), Longest(tmrBits, q))
  {
    if q == [] {
      assert p + q == p;
    } else {
      var most, last := q[..|q| - 1], q[|q| - 1];
      assert p + q == (p + most) + [last];
      LongestAppend(tmrBits, p + most, last);
      LongestConcat(tmrBits, p, most);
    }
  }

  lemma {:induction false} BalancedDepth(ops: Trace)
    requires Balanced(ops)
    ensures 0 <= Depth(ops)
  {
    if ops.Begin? {
    } else {
      BalancedDepth(ops.most);
    }
  }

  lemma {:induction false} OpenedSince(t0: nat, ops: Trace)
    ensures OpenedAt(t0, ops) + SinceOpened(ops) == t0 + Elapsed(ops)
  {
    if ops.Begin? {
    } else {
      OpenedSince(t0, ops.most);
    }
  }

  lemma {:induction false} ClockAfter(tmr: Timer, s0: System, ops: Trace)
    ensures Run(tmr, s0, ops).clock == s0.clock + Elapsed(ops)
  {
    if ops.Begin? {
    } else {
      ClockAfter(tmr, s0, ops.most);
    }
  }

  /** The variables after a run: the nesting counter is the depth, the start stamp belongs to the
      outermost open section, and each maximum is over exactly the sections it should cover. */
  ghost predicate Exact(tmr: Timer, s0: System, ops: Trace, m: Meas)
  {
    && m.nestCtr == Depth(ops)
    && (0 < Depth(ops) ==> m.startCnts == tmr.Rd(OpenedAt(s0.clock, ops)))
    && m.maxCnts == Longest(tmr.nbrBits, Sections(ops))
    && m.maxCurCnts == Longest(tmr.nbrBits, Window(ops))
    && m.ovrhdCnts == s0.meas.ovrhdCnts
  }

  /** The longest completed section, and the longest since the last clear, kept up operation by operation. */
  ghost function LongestSection(tmrBits: nat, ops: Trace): nat
  {
    if ops.Begin? then 0
    else if Completes(ops) then Max(LongestSection(tmrBits, ops.most), Shown(tmrBits, SinceOpened(ops.most)))
    else LongestSection(tmrBits, ops.most)
  }

  ghost function LongestInWindow(tmrBits: nat, ops: Trace): nat
  {
    if ops.Begin? || ops.last.ResetClear? then 0
    else if Completes(ops) then Max(LongestInWindow(tmrBits, ops.most), Shown(tmrBits, SinceOpened(ops.most)))
    else LongestInWindow(tmrBits, ops.most)
  }

  lemma {:induction false} LongestSectionIs(tmrBits: nat, ops: Trace)
    ensures LongestSection(tmrBits, ops) == Longest(tmrBits, Sections(ops))
  {
    if ops.Begin? {
    } else {
      LongestSectionIs(tmrBits, ops.most);
      if Completes(ops) {
        LongestAppend(tmrBits, Sections(ops.most), SinceOpened(ops.most));
      } else {
        NothingCompleted(ops);
      }
    }
  }

  lemma {:induction false} LongestInWindowIs(tmrBits: nat, ops: Trace)
    ensures LongestInWindow(tmrBits, ops) == Longest(tmrBits, Window(ops))
  {
    if ops.Begin? {
    } else {
      LongestInWindowIs(tmrBits, ops.most);
      if Completes(ops) {
        LongestAppend(tmrBits, Window(ops.most), SinceOpened(ops.most));
      } else {
        NothingCompleted(ops);
      }
    }
  }

  lemma NothingCompleted(ops: Trace)
    requires ops.Then? && Completed(ops) == []
    ensures Sections(ops) == Sections(ops.most)
    ensures Window(ops) == if ops.last.ResetClear? then [] else Window(ops.most)
  {
  }

  ghost predicate Tracked(tmr: Timer, s0: System, ops: Trace, m: Meas)
  {
    && m.nestCtr == Depth(ops)
    && (0 < Depth(ops) ==> m.startCnts == tmr.Rd(OpenedAt(s0.clock, ops)))
    && m.maxCnts == LongestSection(tmr.nbrBits, ops)
    && m.maxCurCnts == LongestInWindow(tmr.nbrBits, ops)
    && m.ovrhdCnts == s0.meas.ovrhdCnts
  }

  lemma CompletingIsTracked(tmr: Timer, s0: System, ops: Trace, m: Meas)
    requires ops.Then? && Completes(ops) && Tracked(tmr, s0, ops.most, m)
    ensures Tracked(tmr, s0, ops, Stop(tmr.nbrBits, m, tmr.Rd(s0.clock + Elapsed(ops.most))))
  {
    var most := ops.most;
    OpenedSince(s0.clock, most);
    OutermostStop(tmr, m, OpenedAt(s0.clock, most), SinceOpened(most), s0.clock + Elapsed(most));
  }

  lemma NestedExitIsTracked(tmr: Timer, s0: System, ops: Trace, m: Meas, tmrCnts: nat)
    requires ops.Then? && ops.last.Exit? && 1 < Depth(ops.most) <= 0xFFFF && Tracked(tmr, s0, ops.most, m)
    ensures Tracked(tmr, s0, ops, Stop(tmr.nbrBits, m, tmrCnts))
  {
    NestedStop(tmr.nbrBits, m, tmrCnts);
  }

  lemma EnterIsTracked(tmr: Timer, s0: System, ops: Trace, m: Meas)
    requires ops.Then? && ops.last.Enter? && 0 <= Depth(ops.most) < 0xFFFF && Tracked(tmr, s0, ops.most, m)
    ensures Tracked(tmr, s0, ops, Start(m, tmr.Rd(s0.clock + Elapsed(ops.most))))
  {
    var tmrCnts := tmr.Rd(s0.clock + Elapsed(ops.most));
    if Depth(ops.most) == 0 {
      OutermostStart(m, tmrCnts);
    } else {
      NestedStart(m, tmrCnts);
    }
  }

  /** Neither the passing of time nor a reset changes what is exact. */
  lemma OtherIsTracked(tmr: Timer, s0: System, ops: Trace, m: Meas)
    requires ops.Then? && !ops.last.Enter? && !ops.last.Exit? && Tracked(tmr, s0, ops.most, m)
    ensures Tracked(tmr, s0, ops, if ops.last.ResetClear? then m.(maxCurCnts := 0) else m)
  {
  }

  lemma {:induction false} RunIsTracked(tmr: Timer, s0: System, ops: Trace)
    requires Ready(s0) && Balanced(ops) && Shallow(ops)
    ensures Tracked(tmr, s0, ops, Run(tmr, s0, ops).meas)
  {
    if ops.Begin? {
    } else {
      var most, op := ops.most, ops.last;
      RunIsTracked(tmr, s0, most);
      ClockAfter(tmr, s0, most);
      BalancedDepth(most);
      var m := Run(tmr, s0, most).meas;
      if op.Enter? {
        EnterIsTracked(tmr, s0, ops, m);
      } else if !op.Exit? {
        OtherIsTracked(tmr, s0, ops, m);
      } else if Depth(most) == 1 {
        CompletingIsTracked(tmr, s0, ops, m);
      } else {
        NestedExitIsTracked(tmr, s0, ops, m, tmr.Rd(Run(tmr, s0, most).clock));
      }
    }
  }

  /** After every run from initialisation that is never more than 65535 deep the variables are exact,
      also while resets overlap. */
  lemma RunIsExact(tmr: Timer, s0: System, ops: Trace)
    requires Ready(s0) && Balanced(ops) && Shallow(ops)
    ensures Exact(tmr, s0, ops, Run(tmr, s0, ops).meas)
  {
    RunIsTracked(tmr, s0, ops);
    LongestSectionIs(tmr.nbrBits, ops);
    LongestInWindowIs(tmr.nbrBits, ops);
  }

  // ---------- the limit of 65535 nested sections ----------

  lemma IncWraps(n: int)
    ensures Inc16(n % 0x1_0000) == (n + 1) % 0x1_0000
  {
  }

  lemma DecWraps(n: int)
    ensures Dec16(n % 0x1_0000) == (n - 1) % 0x1_0000
  {
  }

  lemma NestCtrStep(tmr: Timer, s: System, op: Op)
    ensures Step(tmr, s, op).meas.nestCtr
         == match op { case Enter => Inc16(s.meas.nestCtr) case Exit => Dec16(s.meas.nestCtr) case _ => s.meas.nestCtr }
  {
  }

  /** On every run whatever, the nesting counter is the depth modulo 2^16. */
  lemma {:induction false} NestCtrIsDepth(tmr: Timer, s0: System, ops: Trace)
    requires Ready(s0)
    ensures Run(tmr, s0, ops).meas.nestCtr == Depth(ops) % 0x1_0000
  {
    if ops.Begin? {
    } else {
      var most := ops.most;
      NestCtrIsDepth(tmr, s0, most);
      NestCtrStep(tmr, Run(tmr, s0, most), ops.last);
      IncWraps(Depth(most));
      DecWraps(Depth(most));
    }
  }

  /** The variables are exact at every moment of a run. */
  ghost predicate ExactThroughout(tmr: Timer, s0: System, ops: Trace)
  {
    Exact(tmr, s0, ops, Run(tmr, s0, ops).meas) && (ops.Begin? || ExactThroughout(tmr, s0, ops.most))
  }

  /** The variables are exact throughout a run if and only if it is never more than 65535 deep. */
  lemma {:induction false} ExactExactlyWhenShallow(tmr: Timer, s0: System, ops: Trace)
    requires Ready(s0) && Balanced(ops)
    ensures ExactThroughout(tmr, s0, ops) <==> Shallow(ops)
  {
    NestCtrIsDepth(tmr, s0, ops);
    if Shallow(ops) {
      RunIsExact(tmr, s0, ops);
    }
    if ops.Begin? {
    } else {
      ExactExactlyWhenShallow(tmr, s0, ops.most);
    }
  }

  ghost function Enters(n: nat): Trace
  {
    if n == 0 then Begin else Then(Enters(n - 1), Enter)
  }

  lemma EnterKeepsMax(tmr: Timer, s: System)
    ensures Step(tmr, s, Enter).meas.maxCnts == s.meas.maxCnts
  {
  }

  lemma {:induction false} NestingDeep(n: nat)
    ensures Balanced(Enters(n)) && Depth(Enters(n)) == n && Sections(Enters(n)) == []
  {
    if n == 0 {
    } else {
      NestingDeep(n - 1);
    }
  }

  lemma {:induction false} NothingMeasured(tmr: Timer, s0: System, n: nat)
    requires Ready(s0)
    ensures Run(tmr, s0, Enters(n)).meas.maxCnts == 0
  {
    if n == 0 {
    } else {
      NothingMeasured(tmr, s0, n - 1);
      RunGrows(tmr, s0, Enters(n - 1), Enter);
      EnterKeepsMax(tmr, Run(tmr, s0, Enters(n - 1)));
    }
  }

  /** Past the limit: nested 65536 deep the 16-bit counter reads 0. A section of any duration d nested in
      there is then measured as if it were outermost, although no outermost section has been completed. */
  lemma NestingLimit(tmr: Timer, s0: System, deep: Trace, d: nat)
    requires Ready(s0) && deep == Enters(0x1_0000)
    ensures Balanced(deep) && Depth(deep) == 0x1_0000
    ensures Run(tmr, s0, deep).meas.nestCtr == 0
    ensures !Exact(tmr, s0, deep, Run(tmr, s0, deep).meas)
    ensures var ops := Then(Then(Then(deep, Enter), Tick(d)), Exit);
      Sections(ops) == [] && Run(tmr, s0, ops).meas.maxCnts == Shown(tmr.nbrBits, d)
  {
    NestingDeep(0x1_0000);
    NothingMeasured(tmr, s0, 0x1_0000);
    NestCtrIsDepth(tmr, s0, deep);
    InnerSectionMeasured(tmr, s0, deep, d);
  }

  lemma InnerSectionMeasured(tmr: Timer, s0: System, deep: Trace, d: nat)
    requires var m := Run(tmr, s0, deep).meas; m.nestCtr == 0 && m.maxCnts == 0
    requires 1 < Depth(deep) && Sections(deep) == []
    ensures var ops := Then(Then(Then(deep, Enter), Tick(d)), Exit);
      Sections(ops) == [] && Run(tmr, s0, ops).meas.maxCnts == Shown(tmr.nbrBits, d)
  {
    var s := Run(tmr, s0, deep);
    var a := Then(deep, Enter);
    var b := Then(a, Tick(d));
    RunGrows(tmr, s0, deep, Enter);
    RunGrows(tmr, s0, a, Tick(d));
    RunGrows(tmr, s0, b, Exit);
    MeasuredFromZero(tmr, s, d);
    NoSectionIn(deep, Enter);
    NoSectionIn(a, Tick(d));
    NoSectionIn(b, Exit);
  }

  lemma MeasuredFromZero(tmr: Timer, s: System, d: nat)
    requires s.meas.nestCtr == 0 && s.meas.maxCnts == 0
    ensures Step(tmr, Step(tmr, Step(tmr, s, Enter), Tick(d)), Exit).meas.maxCnts == Shown(tmr.nbrBits, d)
  {
    var m := Start(s.meas, tmr.Rd(s.clock));
    OutermostStart(s.meas, tmr.Rd(s.clock));
    OutermostStop(tmr, m, s.clock, d, s.clock + d);
  }

  lemma NoSectionIn(ops: Trace, op: Op)
    requires 1 < Depth(ops)
    ensures Sections(Then(ops, op)) == Sections(ops)
    ensures op.Tick? || op.Enter? ==> Depth(ops) <= Depth(Then(ops, op))
  {
  }

  // ---------- the counters and stamps beside the maxima ----------

  lemma MeasCtrStep(tmr: Timer, s: System, op: Op)
    ensures Step(tmr, s, op).meas.measCtr == if op.Enter? then Inc16(s.meas.measCtr) else s.meas.measCtr
  {
  }

  /** The measurement counter counts every enter, nested or not, modulo 2^16. */
  lemma {:induction false} MeasCtrCountsEnters(tmr: Timer, s0: System, ops: Trace)
    requires Ready(s0)
    ensures Run(tmr, s0, ops).meas.measCtr == (s0.meas.measCtr + Entered(ops)) % 0x1_0000
  {
    if ops.Begin? {
    } else {
      var most := ops.most;
      MeasCtrCountsEnters(tmr, s0, most);
      MeasCtrStep(tmr, Run(tmr, s0, most), ops.last);
      IncWraps(s0.meas.measCtr + Entered(most));
    }
  }

  lemma StopStampStep(tmr: Timer, s: System, op: Op)
    ensures Step(tmr, s, op).meas.stopCnts
         == if op.Exit? && Dec16(s.meas.nestCtr) == 0 then tmr.Rd(s.clock) else s.meas.stopCnts
  {
  }

  lemma ExitCompletes(depth: nat)
    requires 0 < depth <= 0xFFFF
    ensures Dec16(depth) == 0 <==> depth == 1
  {
  }

  lemma StopsWhenCompleted(tmr: Timer, ops: Trace, s: System)
    requires ops.Then? && Balanced(ops)
    requires s.meas.nestCtr == Depth(ops.most) <= 0xFFFF
    ensures Step(tmr, s, ops.last).meas.stopCnts
         == if Completed(ops) == [] then s.meas.stopCnts else tmr.Rd(s.clock)
  {
    StopStampStep(tmr, s, ops.last);
    if ops.last.Exit? {
      ExitCompletes(s.meas.nestCtr);
    }
  }

  /** The stop stamp belongs to the last completed outermost section. */
  lemma {:induction false} StopStampIsExact(tmr: Timer, s0: System, ops: Trace)
    requires Ready(s0) && Balanced(ops) && Shallow(ops)
    ensures Run(tmr, s0, ops).meas.stopCnts
         == if Sections(ops) == [] then s0.meas.stopCnts else tmr.Rd(CompletedAt(s0.clock, ops))
  {
    if ops.Begin? {
    } else {
      var most := ops.most;
      StopStampIsExact(tmr, s0, most);
      assert Run(tmr, s0, most).meas.nestCtr == Depth(most) by {
        RunIsExact(tmr, s0, most);
      }
      ClockAfter(tmr, s0, most);
      StopsWhenCompleted(tmr, ops, Run(tmr, s0, most));
      assert Sections(ops) == Sections(most) + Completed(ops);
    }
  }

  lemma MaxStep(tmr: Timer, s: System, op: Op)
    ensures s.meas.maxCnts <= Step(tmr, s, op).meas.maxCnts
    ensures s.meas.maxCurCnts <= s.meas.maxCnts ==>
              Step(tmr, s, op).meas.maxCurCnts <= Step(tmr, s, op).meas.maxCnts
    ensures Step(tmr, s, op).meas.ovrhdCnts == s.meas.ovrhdCnts
  {
  }

  /** The operations of p are the first ones of ops. */
  ghost predicate Prefix(p: Trace, ops: Trace)
  {
    p == ops || (ops.Then? && Prefix(p, ops.most))
  }

  /** However a run goes on, the permanent maximum does not decrease. */
  lemma {:induction false} MaxNeverDecreases(tmr: Timer, s0: System, ops: Trace, longer: Trace)
    requires Prefix(ops, longer)
    ensures Run(tmr, s0, ops).meas.maxCnts <= Run(tmr, s0, longer).meas.maxCnts
  {
    if ops == longer {
    } else {
      MaxNeverDecreases(tmr, s0, ops, longer.most);
      MaxStep(tmr, Run(tmr, s0, longer.most), longer.last);
    }
  }

  /** In every reachable state the current maximum is at most the permanent one, and so are the
      values the two queries return. */
  lemma {:induction false} MaxCurAtMostMax(tmr: Timer, s0: System, ops: Trace)
    requires Ready(s0)
    ensures var m := Run(tmr, s0, ops).meas;
      m.maxCurCnts <= m.maxCnts && MaxCurGet(m) <= MaxGet(m)
  {
    if ops.Begin? {
    } else {
      var most := ops.most;
      MaxCurAtMostMax(tmr, s0, most);
      MaxStep(tmr, Run(tmr, s0, most), ops.last);
    }
    var m := Run(tmr, s0, ops).meas;
    MaxCalcOfMax(m.ovrhdCnts, m.maxCurCnts, m.maxCnts);
  }

  // ---------- what a reset loses ----------

  /** The part of the window that the pending reset of context c has read. */
  ghost function SeenByRead(ops: Trace, c: nat): seq<nat>
  {
    if Pending(ops, c) && !Overtaken(ops, c) then WindowAtRead(ops, c) else []
  }

  /** The window is the part context c has read, and then the part it has not. */
  lemma {:induction false} WindowSplitsAtRead(ops: Trace, c: nat)
    ensures Window(ops) == SeenByRead(ops, c) + Unseen(ops, c)
  {
    if ops.Begin? {
    } else {
      WindowSplitsAtRead(ops.most, c);
    }
  }

  lemma HeldStep(tmr: Timer, s: System, op: Op, c: nat)
    ensures var held := Step(tmr, s, op).held;
      && (op == ResetRead(c) ==> c in held && held[c] == MaxCurGet(s.meas))
      && (op == ResetClear(c) ==> c !in held)
      && (op != ResetRead(c) && op != ResetClear(c) ==>
            (c in held <==> c in s.held) && (c in held ==> held[c] == s.held[c]))
  {
  }

  /** The value held by a reset in progress is the one its read computed. */
  lemma {:induction false} HeldValue(tmr: Timer, s0: System, ops: Trace, c: nat)
    requires Ready(s0) && Balanced(ops) && Shallow(ops)
    ensures var held := Run(tmr, s0, ops).held;
      && (c in held <==> Pending(ops, c))
      && (c in held ==> held[c] == MaxCalc(s0.meas.ovrhdCnts, Longest(tmr.nbrBits, WindowAtRead(ops, c))))
  {
    if ops.Begin? {
    } else {
      var s := Run(tmr, s0, ops.most);
      HeldValue(tmr, s0, ops.most, c);
      HeldStep(tmr, s, ops.last, c);
      assert MaxCurGet(s.meas) == MaxCalc(s0.meas.ovrhdCnts, Longest(tmr.nbrBits, Window(ops.most))) by {
        RunIsExact(tmr, s0, ops.most);
      }
    }
  }

  /** Completing a reset: the value returned covers the window as it was read, the new window is empty,
      and the sections in neither are exactly those completed since the read or, if another reset
      cleared the maximum meanwhile, since that clear. */
  lemma ResetLosesOnlyTheGap(tmr: Timer, s0: System, ops: Trace, c: nat)
    requires Ready(s0) && Balanced(ops) && Shallow(ops) && Pending(ops, c)
    ensures var before, after := Run(tmr, s0, ops), Run(tmr, s0, Then(ops, ResetClear(c)));
      && after.returned == before.returned + [MaxCalc(s0.meas.ovrhdCnts, Longest(tmr.nbrBits, WindowAtRead(ops, c)))]
      && after.meas == before.meas.(maxCurCnts := 0)
    ensures Window(Then(ops, ResetClear(c))) == []
    ensures Window(ops) == (if Overtaken(ops, c) then [] else WindowAtRead(ops, c)) + Unseen(ops, c)
  {
    RunGrows(tmr, s0, ops, ResetClear(c));
    HeldValue(tmr, s0, ops, c);
    WindowSplitsAtRead(ops, c);
  }

  /** How many of some durations are d. */
  ghost function Count(durations: seq<nat>, d: nat): nat
  {
    multiset(durations)[d]
  }

  lemma CountConcat(p: seq<nat>, q: seq<nat>, d: nat)
    ensures Count(p + q, d) == Count(p, d) + Count(q, d)
  {
  }

  lemma ClearCounts(ops: Trace, d: nat)
    requires ops.Then? && ops.last.ResetClear?
    ensures var most := ops.most;
      Count(Reported(ops), d) + Count(Missed(ops), d) + Count(Again(most), d)
      == Count(Reported(most), d) + Count(Missed(most), d) + Count(Window(most), d) + Count(Again(ops), d)
  {
    var most, c := ops.most, ops.last.ctx;
    WindowSplitsAtRead(most, c);
    CountConcat(SeenByRead(most, c), Unseen(most, c), d);
    CountConcat(Missed(most), Unseen(most, c), d);
    CountConcat(Reported(most), WindowAtRead(most, c), d);
    CountConcat(Again(most), WindowAtRead(most, c), d);
  }

  /** Accounting, on every run and for every duration d: the sections completed, with those returned a
      second time, are the sections returned, missed, and still in the window. */
  lemma {:induction false} SectionsAreConserved(ops: Trace, d: nat)
    ensures Count(Sections(ops), d) + Count(Again(ops), d)
         == Count(Reported(ops), d) + Count(Missed(ops), d) + Count(Window(ops), d)
  {
    if ops.Begin? {
    } else {
      var most := ops.most;
      SectionsAreConserved(most, d);
      if ops.last.ResetClear? {
        NothingCompleted(ops);
        ClearCounts(ops, d);
      } else {
        CountConcat(Sections(most), Completed(ops), d);
        CountConcat(Window(most), Completed(ops), d);
      }
    }
  }

  ghost predicate NonePending(ops: Trace)
  {
    forall c: nat :: !Pending(ops, c)
  }

  /** Resets do not overlap: a read finds none in progress, and a clear belongs to the one that is. */
  ghost predicate OneAtATime(ops: Trace)
  {
    ops.Begin? ||
    (OneAtATime(ops.most) &&
     match ops.last {
       case ResetRead(_) => NonePending(ops.most)
       case ResetClear(c) => Pending(ops.most, c)
       case _ => true
     })
  }

  lemma {:induction false} NotOvertaken(ops: Trace, c: nat, b: nat)
    requires OneAtATime(ops) && Pending(ops, c)
    ensures !Overtaken(ops, c)
    ensures Pending(ops, b) ==> b == c
  {
    var most, op := ops.most, ops.last;
    if op.ResetRead? {
      assert op.ctx == c || !Pending(most, c);
      assert op.ctx == b || !Pending(most, b);
    } else {
      NotOvertaken(most, c, b);
      if op.ResetClear? {
        NotOvertaken(most, c, op.ctx);
      }
    }
  }

  /** When resets do not overlap, nothing is returned twice: every section is covered by exactly one
      returned value, or missed by exactly one reset, or still in the window. */
  lemma {:induction false} NothingAgain(ops: Trace)
    requires OneAtATime(ops)
    ensures Again(ops) == []
  {
    if ops.Begin? {
    } else {
      NothingAgain(ops.most);
      if ops.last.ResetClear? {
        NotOvertaken(ops.most, ops.last.ctx, ops.last.ctx);
      }
    }
  }

  lemma GreatestAppend(values: seq<nat>, v: nat)
    ensures Greatest(values + [v]) == Max(Greatest(values), v)
  {
    assert (values + [v])[..|values|] == values;
  }

  /** The values returned so far have the maximum of the reported sections. */
  lemma {:induction false} ReturnedCoversReported(tmr: Timer, s0: System, ops: Trace)
    requires Ready(s0) && Balanced(ops) && Shallow(ops)
    ensures Greatest(Run(tmr, s0, ops).returned) == MaxCalc(s0.meas.ovrhdCnts, Longest(tmr.nbrBits, Reported(ops)))
  {
    if ops.Begin? {
    } else {
      var most, op := ops.most, ops.last;
      ReturnedCoversReported(tmr, s0, most);
      if op.ResetClear? {
        HeldValue(tmr, s0, most, op.ctx);
        if Pending(most, op.ctx) {
          var s := Run(tmr, s0, most);
          assert Run(tmr, s0, ops).returned == s.returned + [s.held[op.ctx]];
          GreatestAppend(s.returned, s.held[op.ctx]);
          var r, w := Reported(most), WindowAtRead(most, op.ctx);
          assert Reported(ops) == r + w;
          LongestConcat(tmr.nbrBits, r, w);
          MaxCalcOfMax(s0.meas.ovrhdCnts, Longest(tmr.nbrBits, r), Longest(tmr.nbrBits, w));
        } else {
          assert Run(tmr, s0, ops).returned == Run(tmr, s0, most).returned;
        }
      }
    }
  }

  lemma {:induction false} WindowAtMostSections(tmrBits: nat, ops: Trace)
    ensures LongestInWindow(tmrBits, ops) <= LongestSection(tmrBits, ops)
  {
    if ops.Begin? {
    } else {
      WindowAtMostSections(tmrBits, ops.most);
    }
  }

  lemma {:induction false} WindowAtReadAtMostSections(tmrBits: nat, ops: Trace, c: nat)
    ensures Longest(tmrBits, WindowAtRead(ops, c)) <= LongestSection(tmrBits, ops)
  {
    if ops.Begin? {
    } else {
      WindowAtReadAtMostSections(tmrBits, ops.most, c);
      WindowAtMostSections(tmrBits, ops.most);
      LongestInWindowIs(tmrBits, ops.most);
    }
  }

  /** The longest of the sections in three groups. */
  ghost function LongestOf(tmrBits: nat, reported: seq<nat>, missed: seq<nat>, window: seq<nat>): nat
  {
    Max(Max(Longest(tmrBits, reported), Longest(tmrBits, missed)), Longest(tmrBits, window))
  }

  lemma ClearKeepsLongest(tmrBits: nat, most: Trace, c: nat, reported: seq<nat>, missed: seq<nat>)
    requires Longest(tmrBits, Sections(most)) == LongestOf(tmrBits, reported, missed, Window(most))
    ensures LongestOf(tmrBits, reported + (if Pending(most, c) then WindowAtRead(most, c) else []),
                      missed + Unseen(most, c), [])
         == Longest(tmrBits, Sections(most))
  {
    var returned := if Pending(most, c) then WindowAtRead(most, c) else [];
    WindowSplitsAtRead(most, c);
    WindowAtReadAtMostSections(tmrBits, most, c);
    LongestSectionIs(tmrBits, most);
    LongestConcat(tmrBits, SeenByRead(most, c), Unseen(most, c));
    LongestConcat(tmrBits, reported, returned);
    LongestConcat(tmrBits, missed, Unseen(most, c));
  }

  lemma {:induction false} MaxSplits(tmrBits: nat, ops: Trace)
    ensures Longest(tmrBits, Sections(ops)) == LongestOf(tmrBits, Reported(ops), Missed(ops), Window(ops))
  {
    if ops.Begin? {
    } else {
      var most, op := ops.most, ops.last;
      MaxSplits(tmrBits, most);
      if op.ResetClear? {
        NothingCompleted(ops);
        ClearKeepsLongest(tmrBits, most, op.ctx, Reported(most), Missed(most));
        assert Reported(most) + [] == Reported(most);
      } else {
        LongestConcat(tmrBits, Sections(most), Completed(ops));
        LongestConcat(tmrBits, Window(most), Completed(ops));
      }
    }
  }

  /** Conservation: the permanent maximum is the greatest of the values resets returned, the current
      maximum, and the longest missed section. So a monitor that keeps the greatest returned
      value loses the true maximum only to a section completed inside a reset. */
  lemma MaxIsConserved(tmr: Timer, s0: System, ops: Trace)
    requires Ready(s0) && Balanced(ops) && Shallow(ops)
    ensures var s := Run(tmr, s0, ops);
      MaxGet(s.meas) == Max(Max(Greatest(s.returned), MaxCurGet(s.meas)),
                            MaxCalc(s.meas.ovrhdCnts, Longest(tmr.nbrBits, Missed(ops))))
  {
    RunIsExact(tmr, s0, ops);
    ReturnedCoversReported(tmr, s0, ops);
    MaxSplits(tmr.nbrBits, ops);
    var o := s0.meas.ovrhdCnts;
    var r, m := Longest(tmr.nbrBits, Reported(ops)), Longest(tmr.nbrBits, Missed(ops));
    MaxCalcOfMax(o, Max(r, m), Longest(tmr.nbrBits, Window(ops)));
    MaxCalcOfMax(o, r, m);
  }

  // ---------- when something is missed ----------

  /** After the operations p, context c reads the current maximum or some context clears it. */
  ghost predicate RenewedAfter(ops: Trace, c: nat, p: Trace)
  {
    ops != p && ops.Then? && (Renews(ops.last, c) || RenewedAfter(ops.most, c, p))
  }

  /** ... after every outermost section that ends in the run. */
  ghost predicate AllRenewed(ops: Trace, c: nat)
  {
    forall p: Trace :: Prefix(p, ops) && p.Then? && Completed(p) != [] ==> RenewedAfter(ops, c, p)
  }

  /** If the last operation is a clear, no outermost section ends between the read and the clear of its
      reset. */
  ghost predicate GapFree(ops: Trace)
    requires ops.Then?
  {
    ops.last.ResetClear? ==> AllRenewed(ops.most, ops.last.ctx)
  }

  /** No outermost section ends between the read and the clear of any reset of the run. */
  ghost predicate NoneInGap(ops: Trace)
  {
    forall p: Trace :: Prefix(p, ops) && p.Then? ==> GapFree(p)
  }

  lemma RenewedByLast(ops: Trace, c: nat)
    requires ops.Then? && Renews(ops.last, c)
    ensures AllRenewed(ops, c)
  {
    forall p: Trace | Prefix(p, ops) && p.Then? && Completed(p) != []
      ensures RenewedAfter(ops, c, p)
    {
      assert p != ops;
    }
  }

  lemma AllRenewedStep(ops: Trace, c: nat)
    requires ops.Then? && !Renews(ops.last, c)
    ensures AllRenewed(ops, c) <==> AllRenewed(ops.most, c) && Completed(ops) == []
  {
    if AllRenewed(ops, c) {
      forall p: Trace | Prefix(p, ops.most) && p.Then? && Completed(p) != []
        ensures RenewedAfter(ops.most, c, p)
      {
        assert Prefix(p, ops);
      }
      assert Prefix(ops, ops) && !RenewedAfter(ops, c, ops);
    }
    if AllRenewed(ops.most, c) && Completed(ops) == [] {
      forall p: Trace | Prefix(p, ops) && p.Then? && Completed(p) != []
        ensures RenewedAfter(ops, c, p)
      {
        assert Prefix(p, ops.most);
      }
    }
  }

  lemma {:induction false} UnseenExactly(ops: Trace, c: nat)
    ensures Unseen(ops, c) == [] <==> AllRenewed(ops, c)
  {
    if ops.Begin? {
    } else if Renews(ops.last, c) {
      RenewedByLast(ops, c);
    } else {
      UnseenExactly(ops.most, c);
      AllRenewedStep(ops, c);
    }
  }

  lemma NoneInGapStep(ops: Trace)
    requires ops.Then?
    ensures NoneInGap(ops) <==> NoneInGap(ops.most) && GapFree(ops)
  {
    if NoneInGap(ops) {
      assert Prefix(ops, ops);
      forall p: Trace | Prefix(p, ops.most) && p.Then?
        ensures GapFree(p)
      {
        assert Prefix(p, ops);
      }
    }
  }

  /** A run misses nothing if and only if no outermost section ends between a read and its clear. */
  lemma {:induction false} NothingMissedExactly(ops: Trace)
    ensures Missed(ops) == [] <==> NoneInGap(ops)
  {
    if ops.Begin? {
    } else {
      NothingMissedExactly(ops.most);
      NoneInGapStep(ops);
      if ops.last.ResetClear? {
        UnseenExactly(ops.most, ops.last.ctx);
      }
    }
  }

  lemma ShownSmall(tmrBits: nat, d: nat)
    requires d < Pow2(tmrBits)
    ensures Shown(tmrBits, d) == d
  {
    LowSmall(d, tmrBits);
  }

  /** A reset with a section of 5 ticks between its read and its clear. */
  ghost function LossyReset(): Trace
  {
    Then(Then(Then(Then(Then(Begin, ResetRead(0)), Enter), Tick(5)), Exit), ResetClear(0))
  }

  /** Such a run: the section is in no returned value and in no window. Only the permanent maximum, on
      any timer of 3 bits or more, still has it. */
  lemma ResetCanMiss(tmr: Timer, s0: System)
    requires Ready(s0) && 3 <= tmr.nbrBits && s0.meas.ovrhdCnts < 5
    ensures Balanced(LossyReset()) && Shallow(LossyReset()) && Missed(LossyReset()) == [5]
    ensures var s := Run(tmr, s0, LossyReset());
      Max(Greatest(s.returned), MaxCurGet(s.meas)) == 0 < MaxGet(s.meas) == 5 - s0.meas.ovrhdCnts
  {
    var ops := LossyReset();
    ResetMisses();
    RunIsExact(tmr, s0, ops);
    ReturnedCoversReported(tmr, s0, ops);
    LongestAppend(tmr.nbrBits, [], 5);
    assert [] + [5] == [5];
    assert Pow2(3) == 8;
    Pow2Mono(3, tmr.nbrBits);
    ShownSmall(tmr.nbrBits, 5);
  }

  lemma ResetMisses()
    ensures var ops := LossyReset();
      && Balanced(ops) && Shallow(ops)
      && Sections(ops) == Missed(ops) == [5] && Window(ops) == [] && Reported(ops) == []
  {
    var r := Then(Begin, ResetRead(0));
    var e := Then(r, Enter);
    var t := Then(e, Tick(5));
    var x := Then(t, Exit);
    var ops := Then(x, ResetClear(0));
    assert Depth(r) == 0 && Depth(e) == 1 && Depth(t) == 1 && Depth(x) == 0 && Depth(ops) == 0;
    assert Balanced(r) && Balanced(e) && Balanced(t) && Balanced(x);
    assert Shallow(r) && Shallow(e) && Shallow(t) && Shallow(x);
    assert SinceOpened(e) == 0 && SinceOpened(t) == 5;
    assert Completed(x) == [5];
    assert Completed(r) == [] && Completed(e) == [] && Completed(t) == [] && Completed(ops) == [];
    assert Sections(r) == [] && Sections(e) == [] && Sections(t) == [] && Sections(x) == [5];
    assert Unseen(r, 0) == [] && Unseen(e, 0) == [] && Unseen(t, 0) == [] && Unseen(x, 0) == [5];
    assert Pending(r, 0) && Pending(e, 0) && Pending(t, 0) && Pending(x, 0);
    assert WindowAtRead(r, 0) == [] && WindowAtRead(e, 0) == [] && WindowAtRead(t, 0) == [] && WindowAtRead(x, 0) == [];
    assert Missed(r) == [] && Missed(e) == [] && Missed(t) == [] && Missed(x) == [];
    assert Reported(r) == [] && Reported(e) == [] && Reported(t) == [] && Reported(x) == [];
    assert Sections(ops) == Sections(x) + [] && Missed(ops) == Missed(x) + Unseen(x, 0);
    assert Reported(ops) == Reported(x) + WindowAtRead(x, 0);
  }
}
