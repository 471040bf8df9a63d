# Verification of GapMiner's search core

GapMiner looks for long gaps between consecutive primes. This project models the parts of it
that carry its correctness, and proves what they promise for all inputs, all runs and all
failure patterns.

| Part | Modules | Main results |
|---|---|---|
| Gap walk | GapChain, Merit, JumpScan, GapReport, QuarterJump, QuarterInstances | over all classes the interleaved jump scan reports the gaps of the full scan; over filtered classes under an exact condition |
| Driver | Walk, History, FlightFill | no window and no gap lost, no window processed twice in a run, over whole histories; an undisturbed run reaches its limit; completed flights are well formed, and prefetched ones end as serial ones |
| Limb arithmetic | NumberTheory, Bits, Limbs, Montgomery, Mont64, WindowPow | CIOS multiplication and windowed powers refine plain modular arithmetic |
| Probable primes | Fermat, Bpsw, PrimeLucas | exact verdicts; primes never fail the Fermat, Euler, Miller-Rabin, strong Lucas and Baillie-PSW tests |
| Consensus arithmetic | Q48Log, Q48, LnTwo | bounds of the truncated logarithm and of the merit; a sound and tight rejection certificate |
| Two-pass class scan | Marking, HalfClass, HiddenPrimes | the two-pass scan branch reports the full report between the first and the last found prime |
| Covers and CRT | Crt, Cover, Template, Covering, RunPolish, CoverSearch | both solvers agree; template and cover agree end to end; the search never gets worse |
| Merkle root | Merkle | the in-place reduction computes the recursive root |

`dafny verify dfyconfig.toml` checks everything.

## How the model is set up

- Loops that update arrays or fields are methods over arrays and classes with the same loops.
  Each is proved against a function of its inputs or of the old state.
- A primality oracle is a fixed function from numbers to verdicts, the natural logarithm a
  positive monotone function into the reals, the pair hash and the Jacobi symbol are function
  parameters. Big integers are mathematical integers.
- Device calls, writes, signals and kills are answers of an environment that is arbitrary. A
  kill is an early end between any two visible effects, also in the middle of a report.
- 64-bit limbs, carries and wraps are explicit. Bitmaps are arrays of booleans, class masks are
  sets of residues, parallel per-window arrays are one array of records.
- Values under the class scan lie above 100000: a smaller prime would be sifted by itself. Found
  offsets lie below 2^32, as the 32-bit pair records presume.
- The device tests and the big-integer tests of a candidate give the same verdict, and the sieve
  never drops a number with a positive verdict. Both are premises; HalfClass.Covers
  states the second one.
- The walk of a window keeps one invariant, whatever its phase: the pairs recorded so far plus
  the pairs still to be found are the window's whole chain.
- The driver keeps books: each index between the start and the next one to reserve is either in
  the log, once, or owed by exactly one flight.

## What the proofs show about the code

- A flight without any candidate skips the scan (`new_src/gap_hunt.c:2328`) and with it the reset
  of the pair counters, so the report branch looks at the pairs of an earlier flight again. Over
  unfiltered candidates these all fail the final check, because the sieve drops composites only.
- The class filter and the jump walk can be switched on together. The filter drops primes as
  well, and the report branch of the jump walk does not resolve hidden classes. QuarterJump says
  exactly when a flight, scanned or not, still reports the true gaps. QuarterInstances gives a
  scanned window and an empty flight that each report a false gap.
- The single-limb Montgomery product wraps for some moduli above about 0.618 * 2^64. Mont64 gives
  the exact condition, and a modulus for which the strong test compares with a wrong constant.
- The template marks slots for odd primes with offset 0, which the alignment skips. Template
  proves that template and divisibility agree for all aligned values iff there is no such prime.
- A comment in align_anchor says that P is odd. P is even iff the prime 2 takes part
  (Template.ModulusParity); the anchor then still comes out even because the adjustment is 1.
- A comment in gh_fill_pair_step says that nothing has been extracted when it gives up. It may
  also give up after its first window was extracted (FlightFill.LateFailure). Slices stay
  disjoint; the flight is tightly packed iff no step lost room.
- The run estimate of run_polish sees the merge of one mark at a time. RunPolish proves when it
  is the true run and gives an instance where it is smaller.
- The bound of the random part of the difficulty starts from 1, the merit of a gap from 0. So the
  bound is the merit of a gap of 2 only while that merit is not 0, that is for starts of up to
  about 2^50 bits (Q48.MinGapIsMeritOfTwo, Q48.MinGapForSizes).
- The score of the blocks objective keeps only the low 32 bits of the cost. It ranks covers by
  their costs as long as they leave fewer than 4096 survivors, and no larger bound will do.

## Model

| member | source | states |
|---|---|---|
| GapChain.ChainIsExact | new_src/gap_hunt.c:1376-1513 | the reference chain of a window lists exactly the pairs of neighbouring probable primes at least thr apart, each once, left to right |
| GapChain.JumpLosesNothing | new_src/gap_hunt.c:1144-1162 | from a found prime, jumping to any found prime less than thr away skips no wide pair |
| GapChain.TailTooShort | new_src/gap_hunt.c:1124-1126 | once no offset reaches thr beyond the current prime, no wide pair is left |
| JumpScan.Scan.Run | new_src/gap_hunt.c:987-1236 | a successful scan leaves in every window exactly its own reference chain, whatever the other windows, slice widths, wave start and chunk cap; while no device round fails it succeeds iff there are at most 4096 windows and no window has a true chain of more than 128 pairs; it ends for every oracle |
| JumpScan.FindQ | new_src/gap_hunt.c:395-407 | the binary search returns the first later index whose offset is at least thr away, or none exactly when there is none |
| JumpScan.MissKeeps | new_src/gap_hunt.c:1118-1229 | a slice without a hit keeps the walk invariant in every phase (recorded pairs plus what is still to find is the whole chain) and lowers the termination rank |
| JumpScan.AimKeeps | new_src/gap_hunt.c:1123-1135 | starting the next backward search from a found prime keeps the walk invariant |
| JumpScan.AfterHitKeeps | new_src/gap_hunt.c:1118-1229 | a hit keeps the walk invariant in every phase and lowers the termination rank |
| JumpScan.HitKeeps | new_src/gap_hunt.c:1144-1209 | the pair recorded by a find-end hit is the next pair of the reference chain; a backward hit skips none |
| JumpScan.FullMeansTooMany | new_src/gap_hunt.c:1188-1199 | the fail-closed pair cap is hit only when the true chain is longer than the cap |
| JumpScan.Scan.Layout | new_src/gap_hunt.c:1038-1058 | the slices of all windows are packed disjointly into one batch that fits the flag buffer |
| JumpScan.Scan.Search | new_src/gap_hunt.c:1111-1187 | the first (or, backwards, the last) flagged candidate of a slice is found, or none exactly when the slice has none |
| Merit.QualifiesReachesStep | new_src/gap_hunt.c:1022-1025 | a gap that passes the exact merit gate at its own start also reaches the integer threshold computed from the window base |
| GapReport.JumpReportsTheFullScan | new_src/gap_hunt.c:1342-1370 | re-gating the jump chain reports the same gaps, in the same order, as gating every neighbouring pair |
| GapReport.ProcessFullScan | new_src/gap_hunt.c:1409-1454 | without the class filter, the scan branch appends exactly the gated neighbouring pairs of the window |
| GapReport.ProcessJump | new_src/gap_hunt.c:1342-1370 | the jump branch appends exactly the recorded pairs that pass the exact gate and the final check |
| GapReport.JumpFlight | new_src/gap_hunt.c:2328-2351 | a flight that succeeds appends its flight report: the chains of its windows, or, without a candidate and so without a scan, whatever was recorded before; over unfiltered candidates this is what the scan of all classes reports, for every total; it fails only where the scan does |
| GapReport.FlightReportExactlyWhen | new_src/gap_hunt.c:2328-2345 | a flight reports the pairs of its own candidates iff it was scanned, or no pair recorded before has both ends accepted over its new base and reaches the gate |
| GapReport.UnfilteredIsSilent | new_src/gap_hunt.c:1342-1370 | over unfiltered candidates such pairs never pass, because the sieve drops composites only |
| QuarterJump.JumpOverClasses | new_src/gap_hunt.c:1342-1370 | one scanned window: over class-filtered candidates the chain reports the true gaps between its first and last found prime iff no accepted offset lies strictly inside a qualifying recorded pair |
| QuarterJump.FilteredFlightExactlyWhen | new_src/gap_hunt.c:2328-2351 | a whole flight over class-filtered candidates reports the true gaps iff, scanned, none of its windows hides an accepted offset inside a qualifying recorded pair, or, not scanned, the pairs recorded before are silent |
| QuarterInstances.FilteredJumpInvents | new_src/gap_hunt.c:1342-1370 | a window where the filtered jump walk reports a gap between two primes that have a prime of a hidden class between them |
| QuarterInstances.EmptyFlightInvents | new_src/gap_hunt.c:2328-2345 | an empty flight over filtered candidates that reports the pair of that window again, over a base where it is a false gap |
| Walk.Settle | new_src/gap_hunt.c:2266-2274 | processing a reserved span moves exactly its indices into the log, none of them twice |
| Walk.WatermarkSafe | new_src/gap_hunt.c:2378-2412 | a watermark not above any reserved span claims only processed indices |
| Walk.Driver.PrefetchingTurn | new_src/gap_hunt.c:2288-2352 | one turn of the prefetching path keeps the books balanced, or leaves with a failure index that is not above the failed flight; it advances, or uses up the reservation, or stops; without a signal it stops only with the last index reserved and nothing in the air |
| Walk.Driver.PlainTurn | new_src/gap_hunt.c:2353-2376 | the same for the two-flights path |
| Walk.Driver.PrefetchStep | new_src/gap_hunt.c:949-978 | a step only advances the reserved flight, and finishes it, fails it or makes progress; it fails only when a call fails |
| Walk.Driver.Checkpoint | new_src/gap_hunt.c:2378-2426 | from 1024 windows after the last save on, and only then, the periodic save writes the oldest index that is not processed |
| Walk.Driver.Loop | new_src/gap_hunt.c:2253-2538 | the main loop ends for every environment; every way out leaves the books balanced or the process killed with a sound state file; without a signal it ends only with the last index reserved and no flight in the air or waiting; and while all calls work it fails only where the next index would overflow |
| Walk.Driver.ChooseSave | new_src/gap_hunt.c:2540-2544 | the checkpoint before the drain is the failed or the next index, or the reserved flight where that is lower |
| Walk.Driver.Drain | new_src/gap_hunt.c:2545-2569 | a flight in the air is processed, or the checkpoint moves to it where it is lower |
| Walk.Driver.Run | new_src/gap_hunt.c:2253-2577 | at every end, also a kill, no index was processed twice and everything below the saved index was processed; after a clean end the log is exactly the claimed range, and without a signal that range reaches the limit and passes it by less than a batch; a run with a limit that no call and no kill disturbs ends clean, unless the index range ends first |
| Walk.Campaign | new_src/gap_hunt.c:2253-2577 | over any number of runs and resumes, each under its own settings, and arbitrary failures, stops and kills, every index from the first to the saved one was processed by some run, and no run processed one twice; one undisturbed run brings the saved index to its limit for good |
| History.Hunt | new_src/gap_hunt.c:2253-2577 | over unfiltered candidates, every gap that the scan reports for a window from the first to the saved index, or to the limit of an undisturbed run, was written by some run, and no run wrote anything else |
| History.FlightWrites | new_src/gap_hunt.c:1335-1341 | what the indices of a flight write is what the flight report appends |
| Walk.CleanBooks | new_src/gap_hunt.c:2540-2544 | when only the prefetched flight is owed, the log ends exactly where that flight starts |
| FlightFill.FoldedResidues | new_src/gap_hunt.c:486-514 | folding m period steps onto the cached residues of window k gives the residues of window k + m |
| FlightFill.Filler.MarkCommit | new_src/gap_hunt.c:536-606 | in each of the modes 0, 1 and 2 a successful mark used the residues of its own window, and the cache stays consistent or is invalidated; when it succeeds is determined by the answers of the device |
| FlightFill.Filler.Extract | new_src/gap_hunt.c:610-694 | a placed window starts at the fill level and moves it by its count, or lies at its fixed stride; whether it is placed, and how far a failed extraction gets, is determined by the answers of the device |
| FlightFill.Filler.PairStep | new_src/gap_hunt.c:739-782 | two windows folded into one mark each get their own residues; the step ends as PairFill says, and a failure after some room was used adds exactly that room to the lost room |
| FlightFill.LateFailure | new_src/gap_hunt.c:779-793 | a pair step that gives up after its first window was placed: five places of the buffer are lost |
| FlightFill.Filler.Step | new_src/gap_hunt.c:787-797 | pair and fallback alike leave the windows in place and end as StepFill says: a pair that fails for whatever reason is filled window by window; only a pair that gives up loses room, and exactly the room it used |
| FlightFill.Filler.StepWorks | new_src/gap_hunt.c:787-797 | while every call works and the counts fit, a step over windows that fit succeeds, whether or not the device takes the pair |
| FlightFill.Filler.WholeExactlyWhen | new_src/gap_hunt.c:860-870 | while every call works and the counts fit, a flight is filled iff each of its windows fits the sieve |
| FlightFill.Filler.FillOnly | new_src/gap_hunt.c:860-870 | a filled flight has base_k[i] = k0 + i, the right base values and residues for every window, and pairwise disjoint slices inside the cap; without fixed strides it is tightly packed iff the pair steps that gave up used no room; it succeeds iff the answers of the device let it, on a working device iff all windows fit |
| FlightFill.Filler.FinishPrefetch | new_src/gap_hunt.c:949-978 | a prefetched flight, however its quanta are cut, is complete too and ends exactly as the serial fill from the same state: same success, fill level, answers asked for and anchor |
| FlightFill.StridesApart | new_src/gap_hunt.c:822-855 | deferred counts within their strides give disjoint slices |
| Limbs.Mac | new_src/primality_limbs.c:176-196 | multiply-add with carry: the two result limbs hold acc + a * b + carry exactly |
| Limbs.AddMulRow | new_src/primality_limbs.c:275-281 | a carry row adds x times a limb vector to a window of the accumulator and touches nothing else |
| Limbs.GteN | new_src/primality_limbs.c:199-206 | limb comparison decides the order of the values |
| Limbs.SubN | new_src/primality_limbs.c:209-222 | limb subtraction yields the difference plus a borrow of one whole modulus width |
| Limbs.ModDbl | new_src/primality_limbs.c:225-235 | doubles modulo n for every n of the width, including a carry out of the top limb |
| Montgomery.NewtonDoubles | new_src/primality_limbs.c:65-74 | one Newton step squares the modulus up to which the inverse is right |
| Montgomery.NinvCorrect | new_src/primality_limbs.c:65-74 | six steps from 1 give the negated inverse modulo 2^64 of every odd limb |
| Montgomery.RmodN | new_src/primality_limbs.c:246-261 | seeded with the top bit and doubled, the result is 2^(64 * limbs) mod n for every odd n with nonzero top limb |
| Montgomery.CiosRound | new_src/primality_limbs.c:275-295 | one round divides by 2^64 exactly, keeps the running value below b + n and loses no carry |
| Montgomery.MontMul | new_src/primality_limbs.c:265-301 | for all a, b below an odd n the result is below n and times R congruent to a * b; the result may overwrite an operand |
| Mont64.MontMul64ExactlyWhen | new_src/primality_limbs.c:77-89 | the single-limb product is right exactly when the unreduced quotient fits 64 bits; for a modulus n with (n - 1)^2 + (2^64 - 1) n below 2^128 it is right for all operands |
| Mont64.HalfNeverWraps | new_src/primality_limbs.c:77-89 | every modulus up to 2^63 is of that kind |
| Mont64.MinusOneWraps | new_src/primality_limbs.c:98-104 | a modulus for which the strong test computes a wrong Montgomery form of n - 1 |
| WindowPow.GetBits4 | new_src/primality_limbs.c:714-723 | four bits of a limb vector at any position, also across a limb border |
| WindowPow.GetBitsW | new_src/primality_limbs.c:726-736 | a bit field of any width and position, zero beyond the top |
| WindowPow.WindowSum | new_src/primality_limbs.c:802-840 | splitting a window value into an odd table index and trailing squarings preserves the exponent |
| WindowPow.Pow2Window | new_src/primality_limbs.c:802-840 | for every width the window loop turns the table of odd powers into the Montgomery form of 2^exponent |
| WindowPow.PrecompInit | new_src/primality_limbs.c:842-887 | accepts exactly odd multi-limb numbers under the default window width and then prepares a valid state |
| WindowPow.Precomp.Fermat | new_src/primality_limbs.c:889-905 | 1 iff 2^(n-1) mod n is 1 |
| WindowPow.Precomp.Euler | new_src/primality_limbs.c:907-932 | 1 iff 2^((n-1)/2) mod n is 1 or n - 1 |
| WindowPow.FermatDynwin | new_src/primality_limbs.c:934-1002 | the same verdict as the precomputed path for every supported size and window width, also for one limb and even n |
| WindowPow.EulerDynwin | new_src/primality_limbs.c:1004-1087 | the same for the Euler test |
| WindowPow.FermatU64 | new_src/primality_limbs.c:666-681 | the single-limb Fermat verdict without any size limit |
| WindowPow.EulerU64 | new_src/primality_limbs.c:684-696 | the single-limb Euler verdict |
| Fermat.FermatLittle | new_src/primality_bpsw.c:27-81 | 2^(p-1) mod p is 1 for every odd prime |
| Fermat.SquareRootsOfOne | new_src/primality_bpsw.c:27-81 | a prime has no square roots of 1 besides 1 and -1 |
| Bpsw.MillerRabinBase2 | new_src/primality_bpsw.c:27-81 | returns 1 iff n is 2 or an odd strong probable prime to base 2 |
| Bpsw.PrimesAreStrong | new_src/primality_bpsw.c:27-81 | every prime passes the base-2 Miller-Rabin test |
| Bpsw.PrimesPassFermatAndEuler | new_src/primality_limbs.c:889-932 | every odd prime passes the Fermat and the Euler test |
| Bpsw.DiscriminantIsOneMod4 | new_src/primality_bpsw.c:101-128 | every discriminant tried is 1 modulo 4, so the division that gives Q is exact |
| Bpsw.Selfridge | new_src/primality_bpsw.c:101-122 | the search ends for every odd n from 3 on, at the first discriminant whose Jacobi symbol is not 1 |
| Bpsw.HalfMod | new_src/primality_bpsw.c:17-24 | halving modulo an odd n |
| Bpsw.LucasDouble | new_src/primality_bpsw.c:136-155 | the doubling identities follow from the defining recurrences |
| Bpsw.LucasAdd | new_src/primality_bpsw.c:136-168 | the addition identities of U and V |
| Bpsw.LucasAt | new_src/primality_bpsw.c:130-168 | the bit loop ends with U_d, V_d and Q^d modulo n |
| Bpsw.LucasDecide | new_src/primality_bpsw.c:170-184 | the final squarings decide exactly the strong Lucas condition |
| Bpsw.LucasTest | new_src/primality_bpsw.c:84-190 | early exits and the strong Lucas-Selfridge verdict for the first useful discriminant D; where its Jacobi symbol is 0, accepted iff |D| = n |
| Bpsw.BailliePsw | new_src/primality_bpsw.c:192-206 | both tests together; where the Jacobi symbol of the first useful D is 0, accepted iff Miller-Rabin accepts and |D| = n |
| PrimeLucas.SumsAreLucas | new_src/primality_bpsw.c:84-190 | the even and odd parts of (1 + sqrt D)^n are 2^(n-1) times V_n and U_n |
| PrimeLucas.LucasAtPrime | new_src/primality_bpsw.c:84-190 | modulo an odd prime, V_p is 1 and U_p is D^((p-1)/2) |
| PrimeLucas.PrimesAreStrongLucas | new_src/primality_bpsw.c:84-190 | every odd prime gets the verdict prime from the strong Lucas-Selfridge test |
| PrimeLucas.PrimesPassBailliePsw | new_src/primality_bpsw.c:192-206 | the Baillie-PSW test accepts every prime |
| Q48Log.Log2Loop | new_src/pow_q48.c:46-84 | the squaring loop computes the bitwise logarithm and ends after accuracy + 1 squarings |
| Q48Log.Log2NeverExceeds | new_src/pow_q48.c:46-84 | 2^out never exceeds src^(2^accuracy) |
| Q48Log.Log2AlmostReaches | new_src/pow_q48.c:46-84 | truncation loses less than two units: src^(2^accuracy) is below 2^(out + 2) for src from 4 on |
| Q48Log.Log2Monotone | new_src/pow_q48.c:46-84 | a larger argument has no smaller logarithm |
| Q48.Low64Bytes | new_src/pow_q48.c:98-119 | the byte loop gives the low 64 bits, or the given default when these are 0 |
| Q48.MinGapShrinks | new_src/pow_q48.c:173-194 | the random part shrinks with the start and stays between 1 and 2^64 |
| Q48.MinGapIsMeritOfTwo | new_src/pow_q48.c:147-194 | the bound of the random part is the merit of a gap of 2, or 1 where that merit is 0; the two agree iff the logarithm does not exceed 2 log2(e) 2^112 |
| Q48.MinGapForSizes | new_src/pow_q48.c:173-194 | they agree for every start of up to 2^49 bits, and for no start of more than 2^50 bits |
| Q48.LogRange | new_src/pow_q48.c:46-84 | the whole part of the logarithm is the bit length less one |
| LnTwo.LogConstant | new_src/pow_q48.c:24-25 | the constant is 2^112 / ln 2 rounded down, with ln 2 given by its series |
| LnTwo.MeritBrackets | new_src/pow_q48.c:147-171 | the merit is gap / ln(start) in units of 2^-48 rounded down, up to the rounding of the constant and of the logarithm |
| Q48.CertificateIsSound | new_src/pow_q48.c:306-351 | with the bound computed at one start, every later start and every gap from 2 below the bound is rejected for every hash value, truncation and wrap included |
| Q48.CertificateIsTight | new_src/pow_q48.c:306-335 | without truncation or wrap a gap can be accepted for some hash value iff it reaches the bound |
| Q48.TopRandomAccepts | new_src/pow_q48.c:243-256 | the largest random part accepts every gap from the bound on |
| Q48.RejectedSpansHideNothing | new_src/pow_q48.c:353-368 | a skipped span contains no acceptable gap |
| Q48.SkippedExactlyWhen | new_src/pow_q48.c:337-368 | without truncation or wrap a span is skipped iff no gap inside it is acceptable at its start |
| HalfClass.ClassesComplete | new_src/halfclass.c:32-48 | every number coprime to 60 is in exactly one of the visible and the hidden classes, in both modes |
| HalfClass.VisibleClasses | new_src/halfclass.c:32-48 | visible are exactly the classes without a factor 2, 3 or 5 below 15 (quarter mode) or 30, hidden the others |
| HalfClass.FilterRegion | new_src/halfclass.c:78-94 | compaction in place, the rest of the buffer untouched |
| HalfClass.KeptExactly | new_src/halfclass.c:78-94 | compaction keeps order and keeps exactly the offsets below the region start or in a visible class |
| HalfClass.CountBound | new_src/halfclass.c:175-186 | the candidate buffer is never too small |
| HalfClass.MiniSieve | new_src/halfclass.c:155-173 | a bit is set iff a table prime divides the value |
| HalfClass.CandidateList | new_src/halfclass.c:187-198 | the candidates are exactly the hidden-class offsets that neither sieve nor template proves composite, ascending |
| HalfClass.CollectCandidates | new_src/halfclass.c:145-199 | with or without the bitmap the method collects that list |
| HalfClass.CollectHidden | new_src/halfclass.c:216-256 | exactly the accepted hidden-class offsets of the interval, ascending |
| HalfClass.EmitChain | new_src/halfclass.c:260-298 | exactly the ascending links of a chain that are owned and reach the merit bound |
| HalfClass.LinksAreTruePairs | new_src/halfclass.c:310-332 | a chain that misses no accepted offset has the true neighbouring pairs as links, also when its first entry stands twice |
| HalfClass.ResolveGap | new_src/halfclass.c:334-365 | resolving a found pair emits exactly the qualifying true pairs inside it, also when its left end is itself in a hidden class |
| HalfClass.InnerPairsFail | new_src/gap_hunt.c:1424-1431 | a found pair below the merit bound contains no qualifying true pair |
| HalfClass.ReportPair | new_src/gap_hunt.c:1424-1512 | each found pair reports exactly the true pairs inside it, with and without the class filter |
| HalfClass.ProcessClasses | new_src/gap_hunt.c:1371-1513 | with and without the class filter a window reports exactly the true gaps between its first and last found prime, and nothing else even when resolutions fail |
| HalfClass.TwoPassEqualsFullScan | new_src/gap_hunt.c:1424-1513 | the full report is the two-pass report plus the pairs outside the first and last found prime; none when both bands hold a prime |
| HalfClass.VerifyPrefix | new_src/halfclass.c:374-413 | the prefix check emits exactly the qualifying true pairs before the first visible prime |
| HalfClass.PrefixCompletesTheFront | new_src/halfclass.c:374-413 | prefix report and two-pass report together are the full report up to the last found prime |
| HiddenPrimes.InitHiddenPrimes | new_src/halfclass.c:102-121 | the odd-only sieve lists the odd primes up to the limit, ascending, as many as the table holds |
| HiddenPrimes.CompositeBringsNothing | new_src/halfclass.c:107-108 | skipping a marked number loses no mark |
| HiddenPrimes.Table | new_src/halfclass.c:98-121 | the table fits what the mini-sieve relies on |
| Crt.Align | new_src/crt_runtime.c:175-209 | the incremental solver returns a value below the product that meets every congruence with nonzero offset |
| Crt.AlignedUnique | new_src/crt_runtime.c:175-209 | and there is only one such value |
| Crt.Solve | new_src/gap_target.c:11-36 | the direct solver returns the value below the product with the given residues |
| Crt.SolversAgree | new_src/gap_target.c:11-36 | both solvers return the same number |
| Template.AlignAnchor | new_src/gap_hunt.c:48-91 | the anchor is the smallest even value from the target on with the wanted congruences |
| Template.Translates | new_src/gap_hunt.c:450-452 | every window value b0 + k * P keeps the congruences |
| Template.BuildTemplate | new_src/crt_runtime.c:120-171 | slot s is marked iff some odd prime has offset + adj congruent to 2 s + 1; the survivor count is right; adj is the parity of the solution over base 0, and 1 when the prime 2 takes part |
| Template.TemplateSurvivors | new_src/crt_runtime.c:231-242 | the listed positions are the unmarked ones |
| Template.UnmarkedMembers | new_src/crt_runtime.c:231-242 | the list is ascending and complete |
| Template.CandidateParity | new_src/crt_runtime.c:124-138 | with the prime 2 in the cover every candidate over an even base is even and keeps the congruences |
| Template.MarkedMeansDivisible | new_src/crt_runtime.c:147-163 | a slot is marked iff an odd cover prime divides the aligned candidate plus the odd offset |
| Template.TemplateRightExactlyWhen | new_src/crt_runtime.c:182-186 | this holds for all aligned values iff no odd prime of the cover has offset 0 |
| Template.TemplateIsSound | new_src/halfclass.c:131-140 | what the template calls composite has a factor up to 100000, over an even aligned value |
| Template.WalkTemplateIsSound | new_src/gap_hunt.c:450-460 | so the prefilter is sound for every window of the walk whose base is even |
| Template.ModulusParity | new_src/gap_hunt.c:82-85 | the period P is even iff the prime 2 takes part |
| Template.TemplateMatchesCover | new_src/gen_crt_main.c:240-246 | for a generated cover a position survives iff it is even and the template keeps the next odd position |
| Template.SurvivorListsAgree | new_src/covering.c:327-344 | the survivor list of the cover is the survivor list of the template, cut to the gap and shifted by 1 |
| Cover.MarkCover | new_src/covering.c:52-56 | marks exactly the covered positions from 1 on |
| Cover.UncoveredMembers | new_src/covering.c:327-344 | the survivor list is ascending and holds exactly the uncovered positions |
| Cover.Survivors | new_src/covering.c:327-344 | covering_survivors returns that list |
| Cover.GapTargetBuild | new_src/gap_target.c:38-83 | gap_target_build returns the same list from its own table |
| Cover.GapTargetCheck | new_src/gap_target.c:92-115 | base passes the test and no survivor does; over a base with the residues of the cover and above its primes, for every test that accepts no proper multiple of these, then nothing inside the gap passes |
| Covering.CountCover | new_src/covering.c:42-50 | counts the free positions a residue would cover |
| Covering.CoveredStats | new_src/covering.c:67-86 | the longest covered run and the survivor count |
| Covering.BlocksCost | new_src/covering.c:105-130 | the penalties of the survivors, each by the covered run after it |
| Covering.EvalSolution | new_src/covering.c:133-157 | the score of the residues, in every objective, as the encoding of what they cover |
| Covering.ScoreIsPreference | new_src/covering.c:92-99 | outside the blocks objective a score is no larger iff the vector is no worse: longer run first and fewer survivors next in the run mode, fewer survivors first and the longer run next in the lexicographic mode, fewer survivors in the classic one |
| Covering.LowCostsRanked | new_src/covering.c:146-149 | residue vectors with costs below 2^32 are ranked by their costs |
| Covering.BlocksRankExactlyWhen | new_src/covering.c:146-149 | the score ranks all covers with fewer than a given number of survivors by their costs iff that number is at most 4096 |
| Covering.BlocksPreferCostlier | new_src/covering.c:146-149 | two residue vectors of one cover, with 4096 and 4095 survivors: the costlier one gets the lower score |
| Covering.CostBound | new_src/covering.c:105-130 | below 4096 survivors the cost stays below 2^32 |
| Covering.Replacement | new_src/covering.c:284-310 | survivors after replacing one residue are the free positions without that prime less the gain |
| Covering.LocalSweep | new_src/covering.c:284-310 | prime by prime, from the first that is not fixed, a residue that leaves the fewest survivors while the others stay, the current one where none is better; fixed ones stay, survivors never rise |
| Covering.BestReplacement | new_src/covering.c:294-306 | the chosen residue is optimal for its prime while the others stay |
| RunPolish.Boundaries | new_src/covering.c:189-211 | each covered position gets the ends of its covered run, and the base run is the longest one |
| RunPolish.Trial | new_src/covering.c:217-232 | the gain of a residue and its run estimate |
| RunPolish.EstimateExactlyWhen | new_src/covering.c:217-232 | the estimate never exceeds the longest run the residue leads to, and is that run iff some longest run needs at most one new mark |
| RunPolish.EstimateMissesDoubleJoin | new_src/covering.c:217-232 | an instance: two marks around one run, estimate 3, run 4 |
| RunPolish.Polish | new_src/covering.c:172-257 | each prime takes a preferred residue in turn, by gain or by estimated run; in the lexicographic mode survivors never rise |
| RunPolish.StepKeepsRun | new_src/covering.c:216-251 | in the run mode a step leads at least to the estimate of the residue it replaces, so the run does not fall where that estimate was exact |
| Covering.ScoreRanksSurvivors | new_src/covering.c:92-99 | in the classic and the lexicographic mode a score no larger means no more survivors |
| CoverSearch.Search.GreedyPass | new_src/covering.c:262-280 | in the given order each prime takes a residue in 1 to p - 1 that covers the most of what its predecessors leave |
| CoverSearch.Search.Optimize | new_src/covering.c:346-407 | every restart is a greedy vector after the given number of sweeps; in every objective the chosen restart has the lowest score, so in the run mode none covers a longer run; it is returned as it is or polished; where survivors come first no restart leaves fewer than the result; in the blocks objective none costs less than the chosen one when all costs stay below 2^32 |
| CoverSearch.Search.Generation | new_src/covering.c:511-538 | no score in the population rises, and nothing evaluated beats the best member |
| CoverSearch.Search.Evolve | new_src/covering.c:445-580 | the same over everything evaluated in the population, as a child or in the iterated local search |
| Merkle.ReduceLevel | new_src/gapcoin_work.c:222-231 | the in-place pass computes the next level: no node of the level is overwritten before it is read |
| Merkle.Reduce | new_src/gapcoin_work.c:222-233 | the loop over levels leaves the recursive Merkle root in the first slot |
| Merkle.RootIsTopNode | new_src/gapcoin_work.c:222-233 | level by level and top-down define the same root |
| Merkle.BuildMerkleRoot | new_src/gapcoin_work.c:187-237 | a root exactly when the coinbase and all transactions are usable |

## Left out

- Base modulo 60 from the header bytes, limb export and import, and other straight conversions.
- GPU kernels: marking, extraction, gathering and primality testing enter as device answers and an oracle.
- Fill contents: FlightFill proves which residues a window is sieved with and where its survivors lie, not the sieving kernel itself.
- ADX assembly and its exact-limb copies, and the non-x86 squaring: the portable multiplication stands for them.
- Miller-Rabin over a single limb (bases 2 and 3, and the seven-base variant): only its Montgomery product is modelled.
- Floating-point rounding of logarithms and merits: the gates are stated over reals.
- The exponential in the penalties of the blocks objective: the penalty is any function of the covered run. Health statistics.
- Jacobi symbols: a function that vanishes on multiples of n and, over a prime, obeys Euler's criterion.
- The serial GPU jump walk: a flight that is scanned synchronously and reported at once covers it in Walk.
- State-file syntax, record logs, RPC, stratum, command line, timing counters and the capacity advisory.
- The walk index limit of the sieve tables (`new_src/gap_hunt.c:1775`): indices are limited by 64 bits only.
- Population rows that cannot be allocated in the evolutionary search: every row exists.
- The worker and farm protocols.
- Q48.Low64Bytes: takes initial values below 256; the program passes 0 and 1.
- Crt.Align: takes cover primes below 2^32, where the 64-bit product of two residues does not wrap.
- HiddenPrimes.Table: inherits the limit of HiddenPrimes.InitHiddenPrimes.
- HiddenPrimes.InitHiddenPrimes: does not count the primes below 100000; a full table would hold the smallest ones.
- Walk.Driver.FillOnly: abstracts a fill to its success, its first index and its survivor count, because FlightFill.Filler.FillOnly proves the rest.
