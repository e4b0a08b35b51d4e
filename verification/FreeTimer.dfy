/** The free-running hardware timer behind timestamps and interrupts-disabled times. */
module FreeTimer {
  import opened Powers

  /** The width of the timer in bits and its value when the true clock reads 0. */
  datatype Timer = Timer(nbrBits: nat, phase: nat) {
    /** CPU_TS_TmrRd() at true time t: the low bits of a free-running up-counter. */
    function Rd(t: nat): nat
    {
      Rem(phase + t, Pow2(nbrBits))
    }
  }

  /** Unsigned subtraction of two timer values. */
  function TmrDelta(tmrBits: nat, tmrCur: nat, tmrPrev: nat): nat
  {
    Rem(tmrCur - tmrPrev, Pow2(tmrBits))
  }

  /** The whole timer periods in a gap, which a timer difference cannot show, and the rest, which it
      does. */
  ghost function Periods(tmrBits: nat, gap: nat): nat
  {
    Quotient(gap, Pow2(tmrBits))
  }

  ghost function Shown(tmrBits: nat, gap: nat): nat
  {
    Rem(gap, Pow2(tmrBits))
  }

  lemma PeriodsAndRest(tmrBits: nat, gap: nat)
    ensures Periods(tmrBits, gap) == gap / Pow2(tmrBits)
    ensures Shown(tmrBits, gap) == gap % Pow2(tmrBits)
  {
    RemIsMod(gap, Pow2(tmrBits));
  }

  /** The timer difference is the elapsed time less whole periods, across any number of wraps. */
  lemma DeltaIsElapsed(tmr: Timer, t: nat, gap: nat)
    ensures TmrDelta(tmr.nbrBits, tmr.Rd(t + gap), tmr.Rd(t)) == Shown(tmr.nbrBits, gap)
  {
    RemOfDifference(tmr.phase + (t + gap), tmr.phase + t, Pow2(tmr.nbrBits));
  }

  // ---------- several gaps ----------

  ghost function Sum(gaps: seq<nat>): nat
  {
    if gaps == [] then 0 else Sum(gaps[..|gaps| - 1]) + gaps[|gaps| - 1]
  }

  /** The total of what the timer shows of each gap. */
  ghost function Seen(tmrBits: nat, gaps: seq<nat>): nat
  {
    if gaps == [] then 0 else Seen(tmrBits, gaps[..|gaps| - 1]) + Shown(tmrBits, gaps[|gaps| - 1])
  }

  lemma SumGrows(gaps: seq<nat>, gap: nat)
    ensures Sum(gaps + [gap]) == Sum(gaps) + gap
  {
    assert (gaps + [gap])[..|gaps|] == gaps;
  }

  lemma SeenGrows(tmrBits: nat, gaps: seq<nat>, gap: nat)
    ensures Seen(tmrBits, gaps + [gap]) == Seen(tmrBits, gaps) + Shown(tmrBits, gap)
  {
    assert (gaps + [gap])[..|gaps|] == gaps;
  }
}
