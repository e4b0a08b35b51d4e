# uC/CPU, uC/LIB and CMSIS core: models and proofs

Dafny models of the arithmetic and measurement code under the network camera's uC/CPU, uC/LIB and
CMSIS layers, with proofs of what that code is relied on for.

* `Lcg`, `MathRand`: the pseudo-random generator. It is a generator modulo 2^31 computed in wrapping
  32-bit arithmetic; its period is exactly 2^31, by the 2-adic valuation of the geometric sum
  (Theorem A of section 3.2.1.2 of Knuth, The Art of Computer Programming, volume 2), proved for every
  modulus 2^k, multiplier that is 1 modulo 4 and odd increment.
* `FreeTimer`, `Timestamp`: timestamps that extend a narrow free-running timer to 32 and 64 bits. Runs
  are sequences of ticks, reads and updates over a true clock without bound.
* `IntDisMeas`, `IntDisRuns`, `IntDisModule`: interrupts-disabled time. `IntDisMeas` has each operation
  as a function on the variables, `IntDisRuns` the step system in which ISRs may run whole critical
  sections, and other contexts whole resets, between the read and the clear of a reset, and `IntDisModule` the class whose methods
  update the variables in place and are proved against both.
* `CountZeros`, `PopCount`, `ReverseBits`, `MathMacros`, `BitIdentities`: fast bit arithmetic against
  bit-by-bit definitions, and the laws that tie the functions together.
* `BitField`, `NvicPriority`, `SystemClock`: field macros as lenses, interrupt priorities and their
  registers, and the core clock computation with its rounding error.
* `Powers`, `Bits`: powers of two, and C's unsigned operators on numbers of any width with their
  meaning bit by bit.

A C unsigned variable of n bits is a natural number below 2^n, and every truncation is written out.
`Powers.Rem` is the remainder that such a truncation leaves (`Powers.RemIsMod`: it is `%`), and `Bits.Low` the
same seen bit by bit.
Timer width, word size, number of priority bits and number of overhead measurements are parameters
where the C selects them by configuration. Ghost fields record the calls made so far, so that a
method's contract can say which run led to its state.

Where the code and its documentation differ, the model follows the code:

* `lib_math.h:247-255` promises a rounded-up value without a condition. `MATH_ROUND_INC_UP` returns 0
  when nbr + inc - 1 overflows, also for a value that is already a multiple of the increment;
  `MathMacros.RoundIncUpCorrectExactly` gives the exact condition.
* `lib_math.h:159-164` quotes a required period of at least 2^32 and then says the period is at most
  2^31. `MathRand.NthPeriod` shows that it is 2^31.
* `cpu_core.c:720-732` reads and clears the current maximum in two separate interrupt-free regions, so
  a section completed between them is in no window. `IntDisRuns.ResetCanMiss` is such a run,
  `IntDisRuns.NothingMissedExactly` says exactly when nothing is missed, and
  `IntDisRuns.ResetLosesOnlyTheGap` and `IntDisRuns.MaxIsConserved` say what is lost otherwise.
* `cpu_core.c:596-607` enables interrupts between its two reads, so an update is not one instant. Ticks that pass
  there are an argument of `Timestamp.CpuTs.UpdateAll`; calls that an ISR makes there are further operations of
  the run, between `Get32` and `Get64`, to which all theorems about runs apply.
* The 16-bit nesting counter has no overflow check. `IntDisRuns.ExactExactlyWhenShallow` shows that 65535 nested
  sections are the limit of a correct measurement.
* The average of the overhead measurements is the nearest one only while the total fits the timer's
  type; `IntDisMeas.AverageIsNearestExactly` gives the exact condition.

## Model

| member | source | states |
|---|---|---|
| `MathRand.RandSeedIsLcg` | Software/NetCamera/UCOSII/uC-LIB/lib_math.c:272-280 | although product and sum wrap at 32 bits first, the next number is (1103515245 * seed + 12345) mod 2^31 for every 32-bit seed |
| `MathRand.NthClosedForm` | Software/NetCamera/UCOSII/uC-LIB/lib_math.c:245-262 | the n-th number after a seed is (A^n * seed + B * (1 + A + ... + A^(n-1))) mod 2^31, with A = 1103515245 and B = 12345 |
| `MathRand.NthPeriod` | Software/NetCamera/UCOSII/uC-LIB/lib_math.h:159-164 | the numbers drawn at positions m and n (both at least 1) are equal if and only if m and n agree modulo 2^31: the period is exactly 2^31 |
| `MathRand.NthVisitsEveryValue` | Software/NetCamera/UCOSII/uC-LIB/lib_math.c:260-262 | after any seeding, every value of [0, RAND_LCG_PARAM_M] is drawn at exactly one of any 2^31 consecutive calls |
| `MathRand.LowBitsPeriod` | Software/NetCamera/UCOSII/uC-LIB/lib_math.c:272-280 | for every k up to 31, the low k bits of the numbers at positions m and n are equal if and only if m and n agree modulo 2^k |
| `MathRand.SeedTopBitIgnored` | Software/NetCamera/UCOSII/uC-LIB/lib_math.c:272-280 | seeds that differ in the top bit only start the same sequence |
| `MathRand.Generator.constructor` | Software/NetCamera/UCOSII/uC-LIB/lib_math.c:147-150 | initialisation seeds with 1 |
| `MathRand.UnseededDraws` | Software/NetCamera/UCOSII/uC-LIB/lib_math.c:141-150 | numbers drawn without seeding are those drawn after seeding with 1, whatever was seeded and drawn before |
| `MathRand.Generator.SetSeed` | Software/NetCamera/UCOSII/uC-LIB/lib_math.c:175-183 | setting a seed restarts the sequence at that seed, whatever was drawn before |
| `MathRand.Generator.Rand` | Software/NetCamera/UCOSII/uC-LIB/lib_math.c:215-229 | each draw returns, and leaves as the current seed, (1103515245 * seed + 12345) mod 2^31 of the seed before, which is the next number of the sequence of the last seed set |
| `Lcg.ClosedForm` | Software/NetCamera/UCOSII/uC-LIB/lib_math.c:245-258 | for every multiplier, increment and modulus 2^k: n steps are the affine map with a^n and the geometric sum, truncated |
| `Lcg.GeometricValuation` | Software/NetCamera/UCOSII/uC-LIB/lib_math.c:245-258 | for every multiplier that is 1 modulo 4: 2^k divides 1 + a + ... + a^(n-1) if and only if 2^k divides n |
| `Lcg.ReturnTime` | Software/NetCamera/UCOSII/uC-LIB/lib_math.c:245-258 | for every such multiplier, odd increment and modulus 2^k: a state comes back after d steps if and only if 2^k divides d |
| `Lcg.FullPeriod` | Software/NetCamera/UCOSII/uC-LIB/lib_math.c:245-258 | ... and two states of one sequence are equal if and only if their positions agree modulo 2^k |
| `Lcg.LowBitsPeriod` | Software/NetCamera/UCOSII/uC-LIB/lib_math.c:245-258 | ... and the low j bits, for every j up to k, have period exactly 2^j |
| `Lcg.VisitsEveryValue` | Software/NetCamera/UCOSII/uC-LIB/lib_math.c:245-258 | ... and every value below 2^k is a state at exactly one of any 2^k consecutive positions |
| `FreeTimer.DeltaIsElapsed` | Software/NetCamera/UCOSII/uC-CPU/cpu_core.h:711-732 | the unsigned difference of two readings of a W-bit timer is the true elapsed time modulo 2^W, from any initial timer value and over any number of wraps |
| `Timestamp.GapsAddUp` | Software/NetCamera/UCOSII/uC-CPU/cpu_core.c:461-567 | the true time between consecutive reads of a timestamp, with the time since the last read, adds up to the time since initialisation |
| `Timestamp.RunAccumulatesSeen` | Software/NetCamera/UCOSII/uC-CPU/cpu_core.c:475-481 | on every run of reads, updates and ticks: the saved timer value is the one at the last read, and the accumulator is the sum of what the timer showed of each gap, modulo 2^32 or 2^64 |
| `Timestamp.InTimeIsTimely` | Software/NetCamera/UCOSII/uC-CPU/cpu_core.c:475-481 | every read came before the timer went round once, told operation by operation, if and only if every gap between reads is shorter than 2^W |
| `Timestamp.LossIsWholePeriods` | Software/NetCamera/UCOSII/uC-CPU/cpu_core.c:475-481 | for any gaps, timely or not: the true time is the seen time plus 2^W for every whole timer period inside a gap |
| `Timestamp.NothingLostWhenTimely` | Software/NetCamera/UCOSII/uC-CPU/cpu_core.c:475-481 | no period is lost if and only if every gap is shorter than 2^W |
| `Timestamp.RunLosesWholePeriods` | Software/NetCamera/UCOSII/uC-CPU/cpu_core.c:461-567 | on every run the timestamp plus the lost periods is the true time modulo its size; it is always right modulo 2^W; and it is right altogether if and only if the lost periods add up to whole turns of the timestamp |
| `Timestamp.TimelyRunIsExact` | Software/NetCamera/UCOSII/uC-CPU/cpu_core.c:461-607 | when consecutive reads are less than 2^W ticks apart, a read returns the true ticks since initialisation modulo 2^32 or 2^64 |
| `Timestamp.WideTimerRead` | Software/NetCamera/UCOSII/uC-CPU/cpu_core.c:472 | a reading of a timer at least as wide as the timestamp, truncated to it, advances with the true time modulo 2^32 or 2^64 |
| `Timestamp.CpuTs.constructor` | Software/NetCamera/UCOSII/uC-CPU/cpu_core.c:2160-2196 | both accumulators start at 0 with the current timer value as their previous one |
| `Timestamp.CpuTs.Get32` | Software/NetCamera/UCOSII/uC-CPU/cpu_core.c:461-485 | a 32-bit read is one step of the run; if reads were timely it returns the true ticks since initialisation modulo 2^32; on a timer of 32 bits or more it returns the initial phase plus the true time, modulo 2^32 |
| `Timestamp.CpuTs.Get64` | Software/NetCamera/UCOSII/uC-CPU/cpu_core.c:542-566 | the same for 64 bits, with its own accumulator and previous timer value |
| `Timestamp.CpuTs.UpdateAll` | Software/NetCamera/UCOSII/uC-CPU/cpu_core.c:596-607 | an update is the run of one read of each timestamp wider than the timer, with any ticks that pass between the two while interrupts are enabled; each timestamp is right at its own read if reads were timely |
| `IntDisRuns.RunIsExact` | Software/NetCamera/UCOSII/uC-CPU/cpu_core.c:840-1043 | after every run of nested enters and exits (at most 65535 deep), ticks and resets by any number of contexts, overlapping or not: the nesting counter is the depth, the start stamp is the timer value at the entry of the outermost open section, and the permanent and the current maximum are over exactly the completed outermost sections, all of them and those since the last clear |
| `IntDisRuns.NestCtrIsDepth` | Software/NetCamera/UCOSII/uC-CPU/cpu_core.c:840-1043 | on every run, of any depth, the nesting counter is the depth modulo 2^16 |
| `IntDisRuns.ExactExactlyWhenShallow` | Software/NetCamera/UCOSII/uC-CPU/cpu_core.c:840-1043 | the variables are exact at every moment of a run if and only if it is never more than 65535 deep |
| `IntDisRuns.NestingLimit` | Software/NetCamera/UCOSII/uC-CPU/cpu_core.c:840-1043 | nested 65536 deep the counter reads 0 and the variables are not exact: a section of any duration nested there is measured as an outermost one, though none has been completed |
| `IntDisRuns.MeasCtrCountsEnters` | Software/NetCamera/UCOSII/uC-CPU/cpu_core.c:842 | on every run, the measurement counter is the number of enters, nested ones included, modulo 2^16 |
| `IntDisRuns.StopStampIsExact` | Software/NetCamera/UCOSII/uC-CPU/cpu_core.c:1029-1031 | after every run at most 65535 deep the stop stamp is the timer value at the exit of the last completed outermost section |
| `IntDisRuns.MaxNeverDecreases` | Software/NetCamera/UCOSII/uC-CPU/cpu_core.c:1039-1041 | however a run is continued, legally or not, the permanent maximum is not below what it was |
| `IntDisRuns.MaxCurAtMostMax` | Software/NetCamera/UCOSII/uC-CPU/cpu_core.c:761-816 | in every reachable state the current maximum is at most the permanent one, before and after the overhead is subtracted |
| `IntDisRuns.WindowSplitsAtRead` | Software/NetCamera/UCOSII/uC-CPU/cpu_core.c:720-732 | for every context, the sections since the last clear are those its pending reset has read followed by those it has not |
| `IntDisRuns.HeldValue` | Software/NetCamera/UCOSII/uC-CPU/cpu_core.c:720-732 | the value that a reset in progress will return is the longest section of the window when it read, less overhead |
| `IntDisRuns.ResetLosesOnlyTheGap` | Software/NetCamera/UCOSII/uC-CPU/cpu_core.c:720-732 | a reset returns the maximum of the window as it read it and leaves an empty window; the sections in neither are exactly those completed since its read or, if another reset cleared meanwhile, since that clear |
| `IntDisRuns.NothingMissedExactly` | Software/NetCamera/UCOSII/uC-CPU/cpu_core.c:720-732 | a run misses no section if and only if no outermost section ends between the read and the clear of a reset |
| `IntDisRuns.ResetCanMiss` | Software/NetCamera/UCOSII/uC-CPU/cpu_core.c:720-732 | a run that does: a section of 5 ticks completed inside a reset is in no returned value and in no window, and only the permanent maximum still has it |
| `IntDisRuns.SectionsAreConserved` | Software/NetCamera/UCOSII/uC-CPU/cpu_core.c:720-732 | on every run, for every duration: the completed sections, together with those returned a second time by overlapping resets, are the returned, the missed and the still current ones |
| `IntDisRuns.NothingAgain` | Software/NetCamera/UCOSII/uC-CPU/cpu_core.c:720-732 | when resets do not overlap nothing is returned twice |
| `IntDisRuns.ReturnedCoversReported` | Software/NetCamera/UCOSII/uC-CPU/cpu_core.c:720-732 | the greatest value returned by resets is the longest section they cover, less overhead |
| `IntDisRuns.MaxIsConserved` | Software/NetCamera/UCOSII/uC-CPU/cpu_core.c:720-816 | also with overlapping resets, the permanent maximum is the greatest of the values resets returned, the current maximum, and the longest section missed between a read and a clear |
| `IntDisMeas.AverageIsNearestExactly` | Software/NetCamera/UCOSII/uC-CPU/cpu_core.c:2261-2265 | for timers of 8 bits and more and 1 to 128 measurements, the overhead is the average rounded to nearest if and only if the total does not overflow the timer range (on timers of 32 bits and more: the total plus half the number of measurements) |
| `IntDisModule.IntDis.Init` | Software/NetCamera/UCOSII/uC-CPU/cpu_core.c:2239-2269 | whatever the timer does during the loop, afterwards nesting and both maxima are 0, each turn counted once, and the overhead is the rounded average of the measured times, to nearest under the exact condition above |
| `IntDisModule.IntDis.MeasureOvrhd` | Software/NetCamera/UCOSII/uC-CPU/cpu_core.c:2258-2261 | one turn of the loop leaves in the current maximum exactly what the timer shows between its two readings, and the nesting at 0 |
| `IntDisModule.IntDis.MeasStart` | Software/NetCamera/UCOSII/uC-CPU/cpu_core.c:840-847 | only an outermost start takes a stamp; both counters go up |
| `IntDisModule.IntDis.MeasStop` | Software/NetCamera/UCOSII/uC-CPU/cpu_core.c:1024-1043 | only an outermost stop measures, and raises each maximum that is below the measured time |
| `IntDisModule.IntDis.CriticalEnter` | Software/NetCamera/UCOSII/uC-CPU/ARM-Cortex-M4/RealView/ucosii_cpu.h:327-328 | an enter is one step of the run; it takes a stamp if and only if no section was open |
| `IntDisModule.IntDis.CriticalExit` | Software/NetCamera/UCOSII/uC-CPU/ARM-Cortex-M4/RealView/ucosii_cpu.h:331-332 | an exit is one step of the run |
| `IntDisModule.IntDis.MaxCalcCnts` | Software/NetCamera/UCOSII/uC-CPU/cpu_core.c:2372-2385 | the result is 0 exactly when the total is at most the overhead, and otherwise the total less the overhead |
| `IntDisModule.IntDis.MaxCurGetCnts` | Software/NetCamera/UCOSII/uC-CPU/cpu_core.c:761-774 | returns the longest completed section since the last clear, less overhead |
| `IntDisModule.IntDis.MaxGetCnts` | Software/NetCamera/UCOSII/uC-CPU/cpu_core.c:803-816 | returns the longest completed section of the whole run, less overhead; never below what the current query returns |
| `IntDisModule.IntDis.MaxCurReset` | Software/NetCamera/UCOSII/uC-CPU/cpu_core.c:720-732 | without an interrupt between its halves a reset returns the maximum of the whole window, leaves an empty window, loses no section, and changes nothing but the current maximum |
| `CountZeros.TblCountsLeadZeros` | Software/NetCamera/UCOSII/uC-CPU/cpu_core.c:109-127 | each of the 256 table entries is the number of leading zeros of its index |
| `CountZeros.Leaf` | Software/NetCamera/UCOSII/uC-CPU/cpu_core.c:1291-1302 | a leaf of a branch tree: table entry of the highest octet plus the zeros above it is the number of leading zeros |
| `CountZeros.CntLeadZeros08` | Software/NetCamera/UCOSII/uC-CPU/cpu_core.c:1208-1232 | counts the leading zero bits of an 8-bit value |
| `CountZeros.CntLeadZeros16` | Software/NetCamera/UCOSII/uC-CPU/cpu_core.c:1275-1305 | counts the leading zero bits of a 16-bit value, 16 for 0 |
| `CountZeros.CntLeadZeros32` | Software/NetCamera/UCOSII/uC-CPU/cpu_core.c:1348-1392 | counts the leading zero bits of a 32-bit value, 32 for 0 |
| `CountZeros.CntLeadZeros64` | Software/NetCamera/UCOSII/uC-CPU/cpu_core.c:1435-1507 | counts the leading zero bits of a 64-bit value, 64 for 0 |
| `CountZeros.CntLeadZeros` | Software/NetCamera/UCOSII/uC-CPU/cpu_core.c:1144-1167 | the count on the configured data size, for each of the four sizes |
| `CountZeros.LeadZerosIsPowerRange` | Software/NetCamera/UCOSII/uC-CPU/cpu_core.c:1348-1392 | for every width n: z leading zeros if and only if 2^(n-1-z) <= v < 2^(n-z), or v = 0 and z = n |
| `CountZeros.AsmFormAgrees` | Software/NetCamera/UCOSII/uC-CPU/cpu_core.c:1219-1220 | the assembly-optimised narrow count (any correct count on the CPU data size less 8 bits per octet of difference) never underflows and equals the C form, for every pair of sizes |
| `CountZeros.LowestSetBitIsPow2` | Software/NetCamera/UCOSII/uC-CPU/cpu_core.c:1633 | for every width n and non-zero v: v & (~v + 1) is the power of two of the least set bit |
| `CountZeros.CntTrailZeros` | Software/NetCamera/UCOSII/uC-CPU/cpu_core.c:1621-1640 | on each of the four sizes, the leading zeros of the isolated bit give the number of trailing zeros, and the width for 0 |
| `CountZeros.TrailZerosIsDivisibility` | Software/NetCamera/UCOSII/uC-CPU/cpu_core.c:1621-1640 | for non-zero v: t trailing zeros if and only if 2^t divides v and 2^(t+1) does not |
| `CountZeros.TrailZerosIgnoreWidth` | Software/NetCamera/UCOSII/uC-CPU/cpu_core.c:1684-1692 | for non-zero narrow values the count on the wider CPU data size needs no correction |
| `PopCount.PopCnt32` | Software/NetCamera/UCOSII/uC-CPU/cpu_core.c:2075-2096 | for every 32-bit value the parallel count is the recursive number of set bits |
| `PopCount.PopCnt32Stages` | Software/NetCamera/UCOSII/uC-CPU/cpu_core.c:2082-2093 | after each mask stage every 2-, 4- and 8-bit field holds the exact count of its own bits, and the wrapping multiplication and shift leave their total |
| `PopCount.StageAddsNeighbours` | Software/NetCamera/UCOSII/uC-CPU/cpu_core.c:2085-2091 | for every field width w and number of fields: adding the masked even and odd w-bit counts gives exact counts of all 2w-bit fields |
| `PopCount.SubtractingOddBits` | Software/NetCamera/UCOSII/uC-CPU/cpu_core.c:2082-2083 | for every even width: value - ((value >> 1) & 0101...) is the sum of neighbouring bits, as its comment claims |
| `PopCount.TopOctetIsSum` | Software/NetCamera/UCOSII/uC-CPU/cpu_core.c:2093 | multiplying four octets by 0x01010101 in 32 bits leaves their sum in the top octet, with no carry into it, whenever that sum fits an octet |
| `ReverseBits.Rbit` | Software/NetCamera/CORE/cmsis_armcc.h:439-453 | the loop ends, and bit i of the result is bit 31 - i of the value, for every 32-bit value |
| `ReverseBits.FinalShift` | Software/NetCamera/CORE/cmsis_armcc.h:444-451 | the combined shift of 31 pushes the copy of the value that the result starts from out of the word, all but its lowest bit, which belongs on top |
| `ReverseBits.ReverseMeaning` | Software/NetCamera/CORE/cmsis_armcc.h:430-435 | bit i of an n-bit reversal is bit n - 1 - i of the value |
| `ReverseBits.ReverseTwice` | Software/NetCamera/CORE/cmsis_armcc.h:430-435 | reversing an n-bit value twice gives it back |
| `BitIdentities.ReversalSwapsEnds` | Software/NetCamera/UCOSII/uC-CPU/cpu_core.c:1922-1950 | for every width: v has t trailing zeros if and only if its reversal has t leading zeros |
| `BitIdentities.TrailZerosByReversal` | Software/NetCamera/UCOSII/uC-CPU/cpu_core.c:1922-1950 | the trailing-zero count of every 32-bit v is the leading-zero count of its reversal |
| `BitIdentities.TrailZerosByPopCount` | Software/NetCamera/UCOSII/uC-CPU/cpu_core.c:1922-1950 | ... and for v not 0 the population count of (v & -v) - 1 |
| `BitIdentities.IsPwr2Meaning` | Software/NetCamera/UCOSII/uC-LIB/lib_math.h:221 | the test holds if and only if the value is 2^k for some k below 32 |
| `BitIdentities.PowerOfTwoTests` | Software/NetCamera/UCOSII/uC-LIB/lib_math.h:221 | the test holds if and only if the population count is 1, and if and only if leading and trailing zeros add up to 31 |
| `MathMacros.RoundIncUpResult` | Software/NetCamera/UCOSII/uC-LIB/lib_math.h:263 | while nbr + inc - 1 fits 32 bits the result is the multiple of inc at or next above nbr; beyond that it is 0 |
| `MathMacros.RoundIncUpCorrectExactly` | Software/NetCamera/UCOSII/uC-LIB/lib_math.h:247-263 | the macro rounds up as documented if and only if nbr + inc - 1 does not overflow 32 bits |
| `MathMacros.RoundIncUpLosesMultiple` | Software/NetCamera/UCOSII/uC-LIB/lib_math.h:263 | a concrete input where it does not although the rounded value fits: 4294967290 is a multiple of 10 and rounds to 0 |
| `MathMacros.RoundMacrosAgree` | Software/NetCamera/UCOSII/uC-LIB/lib_math.h:242-263 | for every power-of-two increment both macros agree on every 32-bit value, return the rounded value if it fits and 0 if it is 2^32 |
| `MathMacros.LeastMultiple` | Software/NetCamera/UCOSII/uC-LIB/lib_math.h:228-234 | a rounded value is the least multiple of inc that is not below nbr |
| `BitField.BitMake` | Software/NetCamera/UCOSII/uC-LIB/lib_def.h:689-691 | the constructed mask has exactly the asked-for bits from the shift up that fit in the word, also for 0 bits and for more bits than the word has |
| `BitField.MakeIsFieldMask` | Software/NetCamera/UCOSII/uC-LIB/lib_def.h:689-691 | a non-empty mask that starts in the word is a contiguous field at the given shift, cut off at the top of the word |
| `BitField.LowestMaskBitIsUnit` | Software/NetCamera/UCOSII/uC-LIB/lib_def.h:878 | for every contiguous mask in a word of any width, also one reaching the top bit, mask & ~(mask << 1) is its lowest bit |
| `BitField.RdIsField` | Software/NetCamera/UCOSII/uC-LIB/lib_def.h:878 | reading returns the number stored in the field |
| `BitField.BitEnc` | Software/NetCamera/UCOSII/uC-LIB/lib_def.h:901 | encoding puts bit i of the value at bit s + i and nothing outside the field |
| `BitField.BitWr` | Software/NetCamera/UCOSII/uC-LIB/lib_def.h:926 | writing replaces the bits of the field and keeps every other bit |
| `BitField.ReadAfterWrite` | Software/NetCamera/UCOSII/uC-LIB/lib_def.h:878-926 | reading after a write returns the written value modulo 2^width |
| `BitField.WriteOfRead` | Software/NetCamera/UCOSII/uC-LIB/lib_def.h:878-926 | writing back what was read changes nothing |
| `BitField.WriteTwice` | Software/NetCamera/UCOSII/uC-LIB/lib_def.h:926 | the last write to a field wins |
| `BitField.ReadOfOtherField` | Software/NetCamera/UCOSII/uC-LIB/lib_def.h:878-926 | writing one field leaves the reading of every disjoint field unchanged |
| `BitField.WritesCommute` | Software/NetCamera/UCOSII/uC-LIB/lib_def.h:926 | writes to disjoint fields commute |
| `BitField.Variable.Write` | Software/NetCamera/UCOSII/uC-LIB/lib_def.h:926 | the assignment in place: the field holds the value modulo 2^width and every bit outside it is as before |
| `NvicPriority.BitsAreShared` | Software/NetCamera/CORE/core_cm4.h:1751-1752 | for 1 to 8 priority bits and every group value, the two widths add up to the implemented bits, through the underflow of group - 7 |
| `NvicPriority.DecodeOfEncode` | Software/NetCamera/CORE/core_cm4.h:1745-1783 | the code fits the implemented bits and decodes to the pair it was made from, each part modulo its width |
| `NvicPriority.EncodeOfDecode` | Software/NetCamera/CORE/core_cm4.h:1745-1783 | encoding a decoded priority gives its implemented bits back; with DecodeOfEncode, a bijection onto [0, 2^bits) |
| `NvicPriority.EncodeKeepsOrder` | Software/NetCamera/CORE/core_cm4.h:1745-1758 | codes are ordered as the pairs are, preemption priority first |
| `NvicPriority.ByteValue` | Software/NetCamera/CORE/core_cm4.h:1702-1706 | the stored byte is the implemented bits of the priority at its top, above zeros: (priority mod 2^bits) * 2^(8 - bits) |
| `NvicPriority.ByteRoundTrip` | Software/NetCamera/CORE/core_cm4.h:1702-1729 | shifting into a register byte and back keeps exactly the implemented bits |
| `NvicPriority.PairSurvivesRegister` | Software/NetCamera/CORE/core_cm4.h:1698-1783 | a pair encoded, stored, read and decoded comes back whole |
| `NvicPriority.LastSetCounts` | Software/NetCamera/CORE/core_cm4.h:1698-1731 | after any calls, each interrupt has the implemented bits of the last priority set for it |
| `NvicPriority.Registers.SetPriority` | Software/NetCamera/CORE/core_cm4.h:1698-1708 | setting a priority writes (priority mod 2^bits) * 2^(8 - bits) into SHP byte irq + 12 or IP byte irq and changes no other byte: the two arrays refine a map over interrupts -12 to 239 |
| `NvicPriority.Registers.GetPriority` | Software/NetCamera/CORE/core_cm4.h:1720-1731 | returns the byte of the interrupt divided by 2^(8 - bits), which is what the map holds for it |
| `NvicPriority.Registers.DecodePriority` | Software/NetCamera/CORE/core_cm4.h:1772-1783 | the two results are the quotient and remainder digits of the priority |
| `SystemClock.PllClockError` | Software/NetCamera/USER/system_stm32f4xx.c:251-281 | the PLL frequency is never above src * N / (M * P * 2^k), and falls short by less than N / (P * 2^k) + 1 Hz if and only if (src / M) * N fits 32 bits |
| `SystemClock.ShiftIsDivider` | Software/NetCamera/USER/system_stm32f4xx.c:134 | the prescaler table divides by 1 for HPRE below 8, by 2, 4, 8, 16 for 8 to 11, and by 64, 128, 256, 512 for 12 to 15 |
| `SystemClock.Rcc.SelectSource` | Software/NetCamera/USER/system_stm32f4xx.c:241-276 | the oscillator that SWS selects, the internal one for the unused code; for the PLL, from the oscillator of bit 22, the VCO frequency (src / M) * N in 32 bits over P, rounded down |
| `SystemClock.Rcc.Update` | Software/NetCamera/USER/system_stm32f4xx.c:236-282 | the selected frequency over the AHB prescaler, rounded down; for the PLL one rounding for P and the prescaler together, and the exact error bound |

## Left out

- SystemInit, external memory set-up, the interrupt handlers, board support and application hooks: register writes and empty bodies.
- CMSIS intrinsics, barriers, ITM output, system reset and SysTick set-up: effects of the hardware.
- Interrupt masking: each region between disabling and enabling interrupts is one atomic step of the model.
- The clock, the timer reading and the delays between readings are the environment's: they appear as a clock field, a timer parameter and arguments.
- The assembly leading-zero count that the repository enables for 32 bits: only its specification is used, in `CountZeros.AsmFormAgrees`.
- The configuration switches that remove one of the two timestamps: both are modelled as enabled.
- Timer frequency queries and the conversions of timestamps to microseconds, which the board package supplies.
- Interrupt numbers below -12: their index lies outside the priority bytes, and the header says that not every core interrupt has a priority.
- A PLL division factor M of 0: the C division is undefined, so `SystemClock.Rcc.Update` asks for a positive M when the PLL is the source.
- The rounding macros on signed operands or on operands wider than 32 bits, and with an increment of 0.
- The CPU name functions (the string functions they call are not part of this model), cache management, null-pointer checks and the software-exception loop.
- The character classification and conversion of lib_ascii, the single-bit macros and the minimum and maximum checks of lib_def.h: members that would only add easy cases.
