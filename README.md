# Elemental core: distribution indexing, AED control, submatrix conjugation and Mehrotra's LP method

This project models four pieces of the Elemental distributed dense linear-algebra
library in Dafny and proves properties of them.

- **Indexing** (`Indexing.dfy`). This is the index arithmetic of Elemental's element-wise (cyclic)
  and block-cyclic matrix distributions:
  - how many of a dimension's indices a process owns (`Length`, `BlockedLength`) and the largest
    such count (`MaxLength`, `MaxBlockedLength`);
  - the map from a local index to a global one (`GlobalIndex`, `GlobalBlockedIndex`);
  - `Mod`, `Shift`, `LastOffset` and `DiagonalLength`;
  - Euclid's `GCD`, the `PowerOfTwo` bit test and `FlooredLog2`.

  Each checked routine and its unchecked twin (`Length`/`Length_`, `Mod`/`Mod_`, ...) is one
  function here. The checks of the debug build are its preconditions.
- **Aed** (`Aed.dfy`). This is the integer control logic of the aggressive-early-deflation (AED)
  Hessenberg QR driver:
  - the parameter heuristics `NumShifts`, `DeflationSize`, `SufficientDeflation` and `MinSize`;
  - the choice of the deflation window, with its doubling and decrease levels;
  - the choice, sorting and narrowing of the shifts;
  - the sweep test, the iteration cap, the stale-iteration counter and the final count of
    unconverged eigenvalues.

  The numerical kernels are inputs of the model: the deflation step, the sweep, and the extra QR
  run that computes shifts.
- **Conjugate** (`Conjugate.dfy`). This is the sequential `ConjugateSubmatrix`, which conjugates
  the entries A(I[s], J[t]) of a local matrix in place. The matrix is an `array2` of complex
  numbers over exact reals.
- **Mehrotra** (`Mehrotra.dfy`). This is the sequential dense primal Mehrotra predictor-corrector
  loop for a linear program in standard form:
  - the shape of one iteration: the cone check, the convergence test before the iteration cap,
    the affine step lengths, mu, muAff, sigma and the corrector residual;
  - the combined direction, the backed-off step lengths and the in-place update of x, y and z;
  - the sparse sequential stub and the regularisation candidates of the sparse solves.

  The linear algebra (KKT build/factor/solve, residual norms) is given as oracle functions.

- **Helper modules.** `CppInt.dfy` states C++'s truncating `/` and `%` on unbounded integers.
  `Sums.dfy` holds finite sums for the counting lemmas. `Scalars.dfy` holds the complex scalars.

Arithmetic is over `int` and exact `real`. Elemental's `Int` is 64-bit, but none of the modelled
routines depends on wrap-around.

## Model

| member | source | states |
|---|---|---|
| CppInt.Div | include/El/core/indexing/impl.hpp:33 | for a >= 0 and b > 0 the C++ quotient is the mathematical one; see DivTruncates for all signs |
| CppInt.DivTruncates | include/El/core/indexing/impl.hpp:33 | C++ `/` is the quotient truncated toward zero: its magnitude is the floor of \|a\|/\|b\|, and it is negative only for operands of opposite sign |
| CppInt.Rem | include/El/core/indexing/impl.hpp:181 | for a >= 0 and b > 0 the C++ remainder is the mathematical one; see RemTruncates for all signs |
| CppInt.RemTruncates | include/El/core/indexing/impl.hpp:181 | C++ `%` satisfies a == b*(a/b) + a%b, is smaller than \|b\| and takes the dividend's sign |
| Indexing.Mod | include/El/core/indexing/impl.hpp:169-183 | for b > 0 the adjusted remainder lies in [0, b) and is the true residue of a modulo b, also for negative a |
| Indexing.Shift | include/El/core/indexing/impl.hpp:219-234 | the shift lies in [0, stride) and is rank-align, or rank-align+stride when align > rank |
| Indexing.Length | include/El/core/indexing/impl.hpp:17-34 | a local length lies in [0, n] |
| Indexing.RankLength | include/El/core/indexing/impl.hpp:36-49 | the rank/alignment length lies in [0, n] |
| Indexing.MaxLength | include/El/core/indexing/impl.hpp:51-64 | MaxLength is the length of the process with shift 0 |
| Indexing.LengthStep | include/El/core/indexing/impl.hpp:31-34 | growing n by one adds one to exactly the owner of index n-1 |
| Indexing.LengthCountsResidues | include/El/core/indexing/impl.hpp:31-34 | Length counts exactly the indices i in [0, n) with i mod stride == shift, and is 0 when n <= shift |
| Indexing.LengthsPartition | include/El/core/indexing/impl.hpp:31-34 | the local lengths of all stride processes add up to n |
| Indexing.RankLengthsPartition | include/El/core/indexing/impl.hpp:44-49 | for any alignment, the lengths of all ranks add up to n |
| Indexing.MaxLengthIsMaximal | include/El/core/indexing/impl.hpp:63-64 | no process owns more than MaxLength indices |
| Indexing.GlobalIndex | include/El/core/indexing/impl.hpp:66-67 | for 0 <= shift < numProcs the global index has residue shift modulo numProcs and the quotient is the local index |
| Indexing.GlobalIndexOwned | include/El/core/indexing/impl.hpp:66-67 | each local entry maps to a global index in [0, n) that is congruent to the shift |
| Indexing.GlobalIndexOnto | include/El/core/indexing/impl.hpp:66-67 | every owned global index is the image of the local index i/stride, which is within the local length |
| Indexing.BlockedLength | include/El/core/indexing/impl.hpp:87-116 | with 0 <= cut <= bsize a blocked length is nonnegative |
| Indexing.ComputeBlockedLength | include/El/core/indexing/impl.hpp:87-116 | the step-by-step computation returns BlockedLength, which lies in [0, n] for 0 <= cut <= bsize |
| Indexing.RankBlockedLength | include/El/core/indexing/impl.hpp:118-131 | the rank/alignment blocked length is nonnegative for a proper cut |
| Indexing.BlockedLengthSplit | include/El/core/indexing/impl.hpp:90-115 | a blocked length is the first-block part, plus bsize times the middle-block count, plus the last-block remainder for its owner |
| Indexing.BlockedLengthsPartition | include/El/core/indexing/impl.hpp:87-116 | for any block size and cut, the blocked lengths of all processes add up to n |
| Indexing.BlockedLengthBounded | include/El/core/indexing/impl.hpp:87-116 | with 0 <= cut <= bsize no process owns more than n indices |
| Indexing.RankBlockedLengthsPartition | include/El/core/indexing/impl.hpp:126-131 | for any alignment, the blocked lengths of all ranks add up to n |
| Indexing.MaxBlockedLength | include/El/core/indexing/impl.hpp:133-147 | MaxBlockedLength is the blocked length of shift 0; with no cut it bounds the blocked length of every shift |
| Indexing.UncutBlockedLengthAtMostFirst | include/El/core/indexing/impl.hpp:87-116 | with no cut, no process owns more blocked indices than the process with shift 0 |
| Indexing.LengthByQuotient | include/El/core/indexing/impl.hpp:31-34 | Length(n, k, stride) is n/stride plus one when k is below the remainder n mod stride |
| Indexing.MaxBlockedLengthUndercounts | include/El/core/indexing/impl.hpp:145-147 | as written, MaxBlockedLength(3, 2, 1, 2) is 1, but process 1 owns 2 indices |
| Indexing.LargestBlockedLength | include/El/core/indexing/impl.hpp:145-147 | the largest blocked length among shifts [0, k) bounds each of them and is attained |
| Indexing.MaxBlockedLengthOverProcesses | include/El/core/indexing/impl.hpp:145-147 | the corrected maximum bounds every process's blocked length, is attained by one, and is at least the as-written value |
| Indexing.GlobalBlockedIndex | include/El/core/indexing/impl.hpp:149-164 | see GlobalBlockedIndexStep, GlobalBlockedIndexIncreasing and GlobalBlockedIndexOwned: increasing in the local index and landing in the process's own blocks |
| Indexing.GlobalBlockedIndexStep | include/El/core/indexing/impl.hpp:149-164 | consecutive local entries map to increasing global indices |
| Indexing.GlobalBlockedIndexIncreasing | include/El/core/indexing/impl.hpp:149-164 | GlobalBlockedIndex is strictly increasing in the local index |
| Indexing.GlobalBlockedIndexUnitBlocks | include/El/core/indexing/impl.hpp:149-164 | with bsize 1 and no cut, GlobalBlockedIndex is GlobalIndex |
| Indexing.GlobalBlockedIndexOwned | include/El/core/indexing/impl.hpp:149-164 | counting blocks from the cut-shortened first one, a local entry's global index lies in a block whose number is congruent to the shift modulo numProcs |
| Indexing.LastOffset | include/El/core/indexing/impl.hpp:237-238 | LastOffset is a multiple of bsize, and for n > 0 it leaves between 1 and bsize indices after it |
| Indexing.DiagonalLength | include/El/core/indexing/impl.hpp:240-253 | for nonnegative dimensions the diagonal length lies in [0, Min(height, width)] |
| Indexing.DiagonalLengthCountsCells | include/El/core/indexing/impl.hpp:240-253 | DiagonalLength is the number of cells (i, j) of the height x width matrix with j-i == offset, hence at most Min(height, width) |
| Indexing.GCD | include/El/core/indexing/impl.hpp:255-271 | for a, b >= 0 Euclid's recursion with the C++ remainder terminates with a nonnegative result |
| Indexing.EuclidStep | include/El/core/indexing/impl.hpp:270 | for a >= 0 and b > 0 the C++ remainder a-b*(a/b) lies in [0, b), so the recursion shrinks its second argument and keeps the GCD |
| Indexing.GCDDividesBoth | include/El/core/indexing/impl.hpp:265-271 | GCD(a, b) divides a and b |
| Indexing.GCDDividedByCommonDivisors | include/El/core/indexing/impl.hpp:265-271 | every common divisor of a and b divides GCD(a, b) |
| Indexing.GCDPositive | include/El/core/indexing/impl.hpp:265-271 | GCD(a, b) > 0 unless a == b == 0 |
| Indexing.GCDIsGreatestCommonDivisor | include/El/core/indexing/impl.hpp:255-271 | GCD(a, b) is a common divisor that every common divisor divides, and it is positive unless both are 0 |
| Indexing.GCDIsLargest | include/El/core/indexing/impl.hpp:255-271 | no positive common divisor exceeds GCD(a, b) |
| Indexing.BitAnd | include/El/core/indexing/impl.hpp:320 | bitwise and is at most either operand |
| Indexing.PowerOfTwo | include/El/core/indexing/impl.hpp:319-320 | see PowerOfTwoIff: holds exactly of the powers of two |
| Indexing.PowerOfTwoIff | include/El/core/indexing/impl.hpp:319-320 | n && !(n & (n-1)) holds exactly when n == 2^k for some k |
| Indexing.Log2Floor | include/El/core/indexing/impl.hpp:322-328 | see Log2FloorBounds: for n >= 1 the k with 2^k <= n < 2^(k+1) |
| Indexing.Log2FloorBounds | include/El/core/indexing/impl.hpp:322-328 | for n >= 1, 2^Log2Floor(n) <= n < 2^(Log2Floor(n)+1) |
| Indexing.FlooredLog2 | include/El/core/indexing/impl.hpp:322-328 | the shifting loop returns Log2Floor(n): 0 for n == 0, and for n >= 1 the k with 2^k <= n < 2^(k+1) |
| Aed.ShiftTable | tests/lapack_like/HessenbergEig/AED.hpp:49-65 | the tabulated shift count is at least 2 |
| Aed.EvenAtLeastTwo | tests/lapack_like/HessenbergEig/AED.hpp:69 | Max(2, t - Mod(t,2)) is even, at least 2, and the largest even number not above t when t >= 2 |
| Aed.NumShifts | tests/lapack_like/HessenbergEig/AED.hpp:49-72 | the shift count is even and >= 2; it does not exceed the window size or (n+6)/9 unless it is 2; it is the largest such even number below the clamped table value |
| Aed.DeflationSize | tests/lapack_like/HessenbergEig/AED.hpp:75-88 | the deflation size is even and >= 2; it does not exceed the window size or (n-1)/3 unless it is 2; it is the clamped numShifts (or 3*numShifts/2 beyond 500) rounded down to even |
| Aed.SufficientDeflation | tests/lapack_like/HessenbergEig/AED.hpp:92-96 | the threshold lies in [0, deflationSize] and is the floor of 14% of it |
| Aed.SufficientDeflationIsFourteenPercent | tests/lapack_like/HessenbergEig/AED.hpp:90-96 | a deflation count is at most the threshold iff it is at most 14% of the window |
| Aed.MinSize | tests/lapack_like/HessenbergEig/AED.hpp:100-103 | the AED minimum size is 75 |
| Aed.MaxIterations | tests/lapack_like/HessenbergEig/AED.hpp:149-152 | the iteration cap is 30 * Max(10, winSize), at least 300 |
| Aed.GrownDeflationSize | tests/lapack_like/HessenbergEig/AED.hpp:179-203 | the deflation window is the recommendation (or twice the previous size after 5 stale iterations) within the irreducible window; it is the full window when within one of it, and otherwise grows by exactly one precisely when the subdiagonal entry at its top exceeds the one above |
| Aed.SelectDeflationWindow | tests/lapack_like/HessenbergEig/AED.hpp:179-214 | the window lies in [1, iterWinSize]; the decrease level resets to -1 before 5 stale iterations, otherwise it grows by one (or resets to 0 rather than leave fewer than 2 rows) and is subtracted; a decreased window keeps at least 2 rows |
| Aed.SweepNeededIff | tests/lapack_like/HessenbergEig/AED.hpp:224-227 | a sweep follows iff nothing deflated, or at most 14% deflated and the remaining window has at least 75 rows |
| Aed.SweepNumShifts | tests/lapack_like/HessenbergEig/AED.hpp:229-230 | the sweep's shift count is even, in [2, numShiftsRec], at most Max(2, newIterWinSize-1), and the largest such even number |
| Aed.ShiftsBegin | tests/lapack_like/HessenbergEig/AED.hpp:232-289 | exceptional shifts start numShifts from the bottom; enough candidates are kept as they are; otherwise the shifts start within the trailing numShifts, at least 2 from the bottom |
| Aed.FinalShifts | tests/lapack_like/HessenbergEig/AED.hpp:332-335 | the final count is even, at most numShifts and the available shifts, the largest such, and is taken from the bottom of the window |
| Aed.ShiftsInsideWindow | tests/lapack_like/HessenbergEig/AED.hpp:222-289 | the shifts stay inside the window left after deflation, and go one row above it only when that window has one row |
| Aed.SingleShiftTestAsWrittenNeverHolds | tests/lapack_like/HessenbergEig/AED.hpp:313 | as written, winBeg-shiftBeg == 2 never holds, because shiftBeg is never two rows above winBeg |
| Aed.TwoShiftsRemainCanHold | tests/lapack_like/HessenbergEig/AED.hpp:313 | the intended test winEnd-shiftBeg == 2 is reachable (four shifts wanted, two candidates left, two converged) |
| Aed.ChooseSingleShift | tests/lapack_like/HessenbergEig/AED.hpp:318-329 | complex shifts are kept; for a real last shift both become one of the two, at least as close to the bottom-right entry h as either |
| Aed.ApplySingleShift | tests/lapack_like/HessenbergEig/AED.hpp:313-330 | when two shifts do not remain, or the last is complex, both shifts are kept; when two remain and the last is real, both become the same one of the two, the closer to h, taking the second-to-last on a tie |
| Aed.RowSwap | tests/lapack_like/HessenbergEig/AED.hpp:303 | exchanges entries i and i+1 and nothing else |
| Aed.BubblePass | tests/lapack_like/HessenbergEig/AED.hpp:298-305 | one pass moves the smallest entry of [shiftBeg, k] to k by adjacent swaps, changes nothing outside, keeps a lower bound, and swaps nothing iff the range was already sorted |
| Aed.SortPass | tests/lapack_like/HessenbergEig/AED.hpp:293-306 | one outer pass keeps the sort invariant with k one smaller |
| Aed.SortShifts | tests/lapack_like/HessenbergEig/AED.hpp:290-307 | [shiftBeg, winEnd) ends sorted by decreasing OneAbs and is a permutation of the old entries; nothing outside changes; at most winEnd-shiftBeg-1 passes, and one pass with no change for sorted input |
| Aed.TrailingZeros | tests/lapack_like/HessenbergEig/AED.hpp:346-350 | the stale-iteration counter is the number of trailing iterations that deflated nothing |
| Aed.IrreducibleStart | tests/lapack_like/HessenbergEig/AED.hpp:164-169 | the irreducible window starts in [winBeg, i]; H(r, r-1) is zero there unless r is winBeg, and no subdiagonal entry below r is zero |
| Aed.FindIrreducibleWindow | tests/lapack_like/HessenbergEig/AED.hpp:164-169 | the upward search returns IrreducibleStart(winBeg, winEnd-1): iterBeg is in [winBeg, winEnd), has a zero subdiagonal unless it is winBeg, and no subdiagonal below it is zero |
| Aed.AedStep | tests/lapack_like/HessenbergEig/AED.hpp:164-220 | one iteration's irreducible window has the IrreducibleStart facts; its deflation window has size in [1, winEnd-iterBeg] and level >= -1; the deflation step deflates at most the window |
| Aed.AedIterationStep | tests/lapack_like/HessenbergEig/AED.hpp:164-220 | the imperative iteration returns iterBeg = IrreducibleStart, the deflation window SelectDeflationWindow picks on [iterBeg, winEnd) with the growth test of that iteration, and the numDeflated the deflation step reports on exactly that window; this is AedStep |
| Aed.AedRun | tests/lapack_like/HessenbergEig/AED.hpp:154-351 | the AED loop as a recursive function: stop when the window is empty, stop or fail at the iteration cap by demandConverged, otherwise one AedStep, winEnd moved up by its deflation count and the stale counter reset on deflation; see AedRunOutcome, AedLoop and AedIteration for what it promises |
| Aed.AedRunOutcome | tests/lapack_like/HessenbergEig/AED.hpp:148-353 | the AED loop (AedRun: window shrinks by each step's deflation, stale counter reset on deflation) never delegates; its count lies in [it, maxIter]; rows remain unconverged only after maxIter iterations without demandConverged; stopping early means everything converged; failure only when convergence is demanded |
| Aed.AedLoopBody | tests/lapack_like/HessenbergEig/AED.hpp:164-221 | one loop body deflates numDeflated >= 0 rows, moves winEnd up by them within [winBeg, winEnd], resets the stale counter iff numDeflated > 0 (else adds one), and leaves AedRun's result unchanged |
| Aed.AedLoop | tests/lapack_like/HessenbergEig/AED.hpp:148-353 | the imperative loop returns AedRun from the initial state (iteration 0, no stale iterations, the recommended deflation size, decrease level -1); numUnconverged is the window minus the deflated rows; NotConverged exactly at maxIter iterations when convergence is demanded |
| Aed.WindowSize | tests/lapack_like/HessenbergEig/AED.hpp:117-119 | for bounds 0 <= winBeg <= winEnd <= n the window size (END resolved to n) lies in [0, n] |
| Aed.AedIteration | tests/lapack_like/HessenbergEig/AED.hpp:107-354 | delegates exactly when n < 75; otherwise returns AedRun from winBeg, winEnd (END resolved to n), the recommended deflation size and the cap 30*Max(10, winSize), with the unconverged-row and cap facts above |
| Aed.SweepNeeded | tests/lapack_like/HessenbergEig/AED.hpp:224-227 | see SweepNeededIff: a sweep follows iff nothing deflated, or at most 14% deflated in a window of at least 75 rows |
| Aed.UseExceptionalShifts | tests/lapack_like/HessenbergEig/AED.hpp:232-233 | see ShiftsBegin: exceptional shifts (on every fifth stale iteration) start numShifts rows from the bottom |
| Aed.ShiftsNeedSorting | tests/lapack_like/HessenbergEig/AED.hpp:290 | see SortShifts: the shifts are sorted only when more remain than numShifts |
| Aed.SingleShiftTestAsWritten | tests/lapack_like/HessenbergEig/AED.hpp:313 | see SingleShiftTestAsWrittenNeverHolds: the test as written is never true |
| Aed.TwoShiftsRemain | tests/lapack_like/HessenbergEig/AED.hpp:313 | see TwoShiftsRemainCanHold and ApplySingleShift: the intended test holds in reachable states and selects the single-shift choice |
| Aed.ResolveBound | tests/lapack_like/HessenbergEig/AED.hpp:117-118 | see WindowSize and AedIteration: END resolves to n, an explicit bound to itself |
| Scalars.Conj | src/blas_like/level1/ConjugateSubmatrix.cpp:28 | conjugation keeps the real part and negates the imaginary part |
| Scalars.ConjInvolutive | src/blas_like/level1/ConjugateSubmatrix.cpp:28 | conjugating twice gives the entry back |
| Scalars.OneAbs | tests/lapack_like/HessenbergEig/AED.hpp:300 | the one-norm magnitude is nonnegative |
| Conjugate.ConjTimes | src/blas_like/level1/ConjugateSubmatrix.cpp:28 | an entry conjugated k times is itself for even k and its conjugate for odd k |
| Conjugate.ConjugatedEntry | src/blas_like/level1/ConjugateSubmatrix.cpp:22-30 | an entry whose row occurs rowCount times in I and column colCount times in J is conjugated rowCount*colCount times, so it is unchanged if either count is 0 |
| Conjugate.ConjugateTwiceIsIdentity | src/blas_like/level1/ConjugateSubmatrix.cpp:13-31 | two calls with the same index lists restore every entry |
| Conjugate.RealEntriesUnchanged | src/blas_like/level1/ConjugateSubmatrix.cpp:13-15 | entries with zero imaginary part (a real scalar type) are unchanged |
| Conjugate.DistinctListsConjugateOnce | src/blas_like/level1/ConjugateSubmatrix.cpp:22-30 | with duplicate-free I and J every addressed entry A(I[s], J[t]) ends as its conjugate |
| Conjugate.ConjugateColumn | src/blas_like/level1/ConjugateSubmatrix.cpp:25-29 | the inner loop conjugates column j at row r iff r occurs an odd number of times in I, and changes no other column |
| Conjugate.ConjugateSubmatrix | src/blas_like/level1/ConjugateSubmatrix.cpp:13-31 | every entry ends as ConjugatedEntry of its old value and its row and column multiplicities; entries outside I x J are unchanged |
| Mehrotra.NumNonPositive | src/optimization/LP/primal/IPM/Mehrotra.cpp:60-62 | the count is at most the length and is 0 iff every entry is positive |
| Mehrotra.Dot | src/optimization/LP/primal/IPM/Mehrotra.cpp:211 | see DotPositive and DotNonnegative |
| Mehrotra.DotPositive | src/optimization/LP/primal/IPM/Mehrotra.cpp:211 | the dot product of two positive nonempty vectors is positive |
| Mehrotra.DotNonnegative | src/optimization/LP/primal/IPM/Mehrotra.cpp:217 | the dot product of two nonnegative vectors is nonnegative |
| Mehrotra.AxpyVec | src/optimization/LP/primal/IPM/Mehrotra.cpp:305-307 | the result has y's length; the in-place Axpy computes it |
| Mehrotra.Axpy | src/optimization/LP/primal/IPM/Mehrotra.cpp:305-307 | y is replaced in place by alpha*x + y |
| Mehrotra.Ratio | src/optimization/LP/primal/IPM/Mehrotra.cpp:195 | for dxi < 0, -xi/dxi is positive when xi > 0 and nonnegative when xi >= 0 |
| Mehrotra.MaxStepPrefix | src/optimization/LP/primal/IPM/Mehrotra.cpp:189-196 | the step after k entries is at most the initial bound |
| Mehrotra.MaxStepBelowRatio | src/optimization/LP/primal/IPM/Mehrotra.cpp:189-196 | the step is at most -x_i/dx_i for each decreasing entry i seen |
| Mehrotra.MaxStepAttained | src/optimization/LP/primal/IPM/Mehrotra.cpp:189-196 | a step below the bound equals the ratio of some decreasing entry |
| Mehrotra.MaxStepPositive | src/optimization/LP/primal/IPM/Mehrotra.cpp:189-196 | for positive x and a positive bound the step is positive |
| Mehrotra.MaxStepUnconstrained | src/optimization/LP/primal/IPM/Mehrotra.cpp:189-196 | with no decreasing entry the step is the bound |
| Mehrotra.MaxStep | src/optimization/LP/primal/IPM/Mehrotra.cpp:189-196 | see MaxStepIsLargestFeasible |
| Mehrotra.MaxStepIsLargestFeasible | src/optimization/LP/primal/IPM/Mehrotra.cpp:187-204 | the step lies in [0, bound]; every alpha in [0, step] keeps x + alpha*dx >= 0; every alpha in (step, bound] violates it; it is the bound when no dx_i < 0 |
| Mehrotra.MaxStepFeasible | src/optimization/LP/primal/IPM/Mehrotra.cpp:187-204 | every alpha in [0, step] keeps x + alpha*dx nonnegative |
| Mehrotra.MaxStepMaximal | src/optimization/LP/primal/IPM/Mehrotra.cpp:187-204 | every alpha in (step, bound] makes some entry negative |
| Mehrotra.AffineStepInUnitInterval | src/optimization/LP/primal/IPM/Mehrotra.cpp:189-204 | from a positive point the affine step lies in (0, 1] |
| Mehrotra.StepLength | src/optimization/LP/primal/IPM/Mehrotra.cpp:189-204 | the accumulator loop returns MaxStep, the largest feasible step up to the bound |
| Mehrotra.Backoff | src/optimization/LP/primal/IPM/Mehrotra.cpp:279-298 | see BackoffKeepsPositive |
| Mehrotra.BackoffKeepsPositive | src/optimization/LP/primal/IPM/Mehrotra.cpp:279-307 | with 0 < maxStepRatio < 1 the backed-off step lies in (0, 1] and the update keeps the vector positive |
| Mehrotra.Mu | src/optimization/LP/primal/IPM/Mehrotra.cpp:211 | see MuPositive and MuNonnegative |
| Mehrotra.MuPositive | src/optimization/LP/primal/IPM/Mehrotra.cpp:211 | mu = x.z/n is positive inside the cone |
| Mehrotra.MuNonnegative | src/optimization/LP/primal/IPM/Mehrotra.cpp:217 | muAff is nonnegative at nonnegative trial points |
| Mehrotra.Sigma | src/optimization/LP/primal/IPM/Mehrotra.cpp:222 | see SigmaNonnegative |
| Mehrotra.SigmaNonnegative | src/optimization/LP/primal/IPM/Mehrotra.cpp:222 | sigma = (muAff/mu)^3 is nonnegative for muAff >= 0 and mu > 0 |
| Mehrotra.Hadamard | src/optimization/LP/primal/IPM/Mehrotra.cpp:234-235 | `DiagonalScale` of rmu by dxAff keeps the length; CorrectorResidual states each entry of the result |
| Mehrotra.ShiftAll | src/optimization/LP/primal/IPM/Mehrotra.cpp:236 | `Shift` keeps the length; CorrectorResidual states each entry of the result |
| Mehrotra.CorrectorResidual | src/optimization/LP/primal/IPM/Mehrotra.cpp:232-236 | entry i of the corrector residual is dxAff_i*dzAff_i - sigma*mu |
| Mehrotra.SearchDirection | src/optimization/LP/primal/IPM/Mehrotra.cpp:187-277 | the combined direction has the iterate's shape |
| Mehrotra.TrialPointNonnegative | src/optimization/LP/primal/IPM/Mehrotra.cpp:212-217 | the affine trial point x + alphaAff*dxAff lies in the closed cone |
| Mehrotra.CentringNonnegative | src/optimization/LP/primal/IPM/Mehrotra.cpp:209-222 | inside the cone mu > 0, muAff >= 0 and sigma >= 0 |
| Mehrotra.Step | src/optimization/LP/primal/IPM/Mehrotra.cpp:279-307 | one iteration keeps the dimensions of x, y and z |
| Mehrotra.StepKeepsCone | src/optimization/LP/primal/IPM/Mehrotra.cpp:279-307 | with 0 < maxStepRatio < 1 a step from inside the cone stays inside it |
| Mehrotra.StepMovesAlongDirection | src/optimization/LP/primal/IPM/Mehrotra.cpp:273-307 | x moves by some alphaPri in (0, 1] along dx; y and z move by one shared alphaDual in (0, 1] along dy and dz |
| Mehrotra.Run | src/optimization/LP/primal/IPM/Mehrotra.cpp:56-308 | the loop stops at a numIts <= maxIts; LogicError iff the final point leaves the cone (with the counts); a normal return only when converged; RuntimeError exactly at numIts == maxIts and only when not converged |
| Mehrotra.ConeViolationOnlyAtStart | src/optimization/LP/primal/IPM/Mehrotra.cpp:58-65 | with 0 < maxStepRatio < 1 the LogicError is raised iff the starting point is outside the cone |
| Mehrotra.ConvergenceTestedBeforeCap | src/optimization/LP/primal/IPM/Mehrotra.cpp:88-105 | at numIts == maxIts a converged point returns normally and any other point raises the RuntimeError |
| Mehrotra.ComputeSearchDirection | src/optimization/LP/primal/IPM/Mehrotra.cpp:187-277 | the predictor-corrector computation returns SearchDirection |
| Mehrotra.BackoffStepLength | src/optimization/LP/primal/IPM/Mehrotra.cpp:281-298 | the step length is Min(maxStepRatio * the largest feasible step up to 1/maxStepRatio, 1) |
| Mehrotra.Iteration | src/optimization/LP/primal/IPM/Mehrotra.cpp:187-307 | x, y and z are updated in place to Step of the old iterate |
| Mehrotra.Solve | src/optimization/LP/primal/IPM/Mehrotra.cpp:29-309 | the in-place loop returns the outcome, iteration count and final x, y, z that Run predicts |
| Mehrotra.SolveSparseSequential | src/optimization/LP/primal/IPM/Mehrotra.cpp:636-646 | the sequential sparse overload always fails as not supported |
| Mehrotra.FullRegCandidates | src/optimization/LP/primal/IPM/Mehrotra.cpp:776-786 | regCand has length m+2n: regMagPrimal on the first n entries, -regMagLagrange on the next m, -regMagDual on the last n; with positive magnitudes, an entry is positive iff its index is below n |
| Mehrotra.AugmentedRegCandidates | src/optimization/LP/primal/IPM/Mehrotra.cpp:824-832 | regCand has length n+m: regMagPrimal on the first n entries and -regMagLagrange on the rest; with positive magnitudes, an entry is positive iff its index is below n |

The members above follow the real-Hessenberg overload of AED
(tests/lapack_like/HessenbergEig/AED.hpp:107-354). The complex overload (356-599) shares its
window choice, sweep test, shift count, shift start, sort (538-556), single-shift test (558),
narrowing (577-580), counters (591-595) and final count (597), so those members describe it as
well. It differs in these steps:
- below the minimum AED size it falls back to `SingleShift` (381), not `DoubleShift` (129);
  `AedIteration` reports only the real overload's `DoubleShiftDelegated`;
- it uses one exceptional shift, 4/3 (374, 484-493), for every pair of rows down to
  shiftBeg+1, with no special case for shiftBeg == winBeg;
- its 2 x 2 fallback computes the eigenvalues directly (514-536) instead of calling
  `TwoByTwoSchur`;
- it does not pair real shifts: the real overload's `PairShifts` call (309-310) is absent.

## Left out

- Numerical kernels of AED. The deflation step `aed::Nibble`, `aed::Sweep`, `aed::PairShifts`,
  `lapack::TwoByTwoSchur`, the recursive `HessenbergQR` run on a trailing submatrix, the
  exceptional-shift values and the 2 x 2 eigenvalue formula are floating-point numerics. The
  model takes their results as inputs: the deflation count and shift candidates, the number of
  unconverged small-QR eigenvalues, and the zero and growth tests on subdiagonal entries of H.
  Every AED loop member assumes of the deflation step (`NibbleBounded`) that it reports
  `0 <= numDeflated <= deflationSize` and at most `deflationSize - numDeflated` shift
  candidates; `winBeg <= winEnd` in AedRun and the nonnegative unconverged count of
  AedRunOutcome rest on that assumption.
- AED's `DoubleShift` fallback is not modelled; the model only reports that it is taken.
- AED complex overload. Its `SingleShift` fallback and its steps that differ from the real
  overload (one exceptional shift, the direct 2 x 2 eigenvalues, no `PairShifts`) are not modelled
  as separate members. They change shift values or delegate, not the loop counters.
- AED sweep gate. The sweep happens or not according to `SweepNeeded`. Narrowing the shift vector
  and pairing real shifts change only entries of w, not the loop counters.
- AED logarithms. `Int(Log2(double(w)))` is modelled as the exact floor of log2 w, and
  `Int(2*Log2(double(w)))` as the floor of log2 (w*w). Double rounding is not modelled.
- Mehrotra initial point. `lp::primal::Initialize`, used when `ctrl.initialized` is false, is
  left out: `Solve` starts from the x, y and z it is given.
- Mehrotra KKT systems. Building, factoring and solving the FULL, AUGMENTED and NORMAL KKT
  systems (`KKT`, `KKTRHS`, `ldl::SolveAfter`, the `Expand*Solution` routines) are oracles:
  `affine` gives the affine direction of an iterate, and `corrector` the direction for a given
  corrector residual. The choice among the three systems therefore does not appear.
- Mehrotra convergence test. The three relative-error tests (objective gap and the two residual
  norms via `Gemv`, `Nrm2`, `Dot`) form one boolean oracle, `converged`.
- Mehrotra.Solve: requires x and z to have n > 0 entries. For n == 0 the source divides 0 by 0
  when it computes mu.
- Mehrotra.Solve: requires maxStepRatio > 0. The source divides by it without a check.
- Mehrotra.Solve: takes maxIts as a natural number. A negative `ctrl.maxIts` makes the source
  loop until convergence or a cone violation.
- Mehrotra regularisation magnitudes. The values `Pow(epsilon, 0.75)` and `Pow(epsilon, 0.5)` are
  parameters of `FullRegCandidates` and `AugmentedRegCandidates`. The regularised LDL
  factorisation they feed is left out.
- Mehrotra.FullRegCandidates: models the filling of the whole vector by one process; the
  `FirstLocalRow` offset of a distributed vector is left out.
- Mehrotra debug output. The debug-build residual checks on the affine direction and all
  `ctrl.print` output are left out.
- The distributed overloads are not part of this model. These are the distributed dense and
  distributed sparse Mehrotra, and the distributed `ConjugateSubmatrix` with its ownership
  queries.
- Conjugate.ConjugateSubmatrix: entries are complex only. A real scalar type corresponds to
  entries with zero imaginary part (see `RealEntriesUnchanged`).
- Conjugate.ConjugateSubmatrix: index bounds are a precondition. `Matrix::Conjugate` checks them
  only in the debug build.
- Indexing.BlockedLength: requires bsize > 0. The source leaves the checks of bsize and cut as a
  TODO and divides by bsize.
- Indexing.GlobalBlockedIndex: has no postcondition of its own. What it promises is stated by the
  lemmas about it (GlobalBlockedIndexStep, GlobalBlockedIndexIncreasing, GlobalBlockedIndexOwned).
- Indexing.PowerOfTwo and Indexing.FlooredLog2: work on unbounded natural numbers. The 64-bit
  `Unsigned` does not matter to them: `n-1` is only evaluated for n != 0, and a right shift
  cannot overflow.
- BigInt and GMP routines, `SqrtRem` and `IsPerfectSquare` are not part of this model. They are
  foreign calls or floating-point code.

## Findings

| source | as written | input that shows it | evidently intended | confidence | as-written member | corrected member |
|---|---|---|---|---|---|---|
| include/El/core/indexing/impl.hpp:145-147 | MaxBlockedLength_ returns the blocked length of shift 0, which owns the cut-shortened first block; this is the maximum when cut is 0 (MaxBlockedLength), but not with a cut | n = 3, bsize = 2, cut = 1, stride = 2: the result is 1, while the process with shift 1 owns indices 1 and 2 | the largest blocked length over all processes | likely; not executed | Indexing.MaxBlockedLengthUndercounts | Indexing.MaxBlockedLengthOverProcesses |
| tests/lapack_like/HessenbergEig/AED.hpp:313 (and 558) | single-shift test `winBeg-shiftBeg == 2` | any reachable state: shiftBeg >= winBeg - 1 always, so the test never fires (SingleShiftTestAsWrittenNeverHolds) | `winEnd-shiftBeg == 2`, i.e. exactly two shifts remain (LAPACK's DLAQR0 tests KBOT-KS+1 == 2) | high; not executed | Aed.SingleShiftTestAsWrittenNeverHolds | Aed.ApplySingleShift |
