/**
 * The integer control logic of Elemental's aggressive-early-deflation (AED)
 * Hessenberg QR driver (tests/lapack_like/HessenbergEig/AED.hpp): the
 * parameter heuristics of the `aed` namespace (after LAPACK's IPARMQ), the
 * choice of the deflation window, the choice and ordering of the shifts, and
 * the outer iteration with its stale-iteration counter and iteration cap.
 *
 * The numerical kernels (the deflation step aed::Nibble, the small-bulge
 * sweep, the small QR algorithm that computes extra shifts) are not part of
 * this model; where the control logic reads their results or an entry of H,
 * the value is an input of the model.
 *
 * Elemental's Mod(a, b) with b > 0 is Dafny's a % b (Indexing.Mod states
 * so), and the heuristics below write it that way.
 */
module Aed {
  import opened CppInt
  import opened Indexing
  import opened Scalars

  // ---------------------------------------------------------------------
  // Parameter heuristics (the aed namespace)
  // ---------------------------------------------------------------------

  /**
   * The number of shifts before clamping, by window size.  Int(Log2(w)) is the
   * truncated base-2 logarithm of w, and Int(2*Log2(w)) that of w*w.
   */
  function ShiftTable(winSize: int): (r: int)
    ensures r >= 2
  {
    if winSize < 30 then 2
    else if winSize < 60 then 4
    else if winSize < 150 then 10
    else if winSize < 590 then Max(10, winSize / Log2Floor(winSize))
    else if winSize < 3000 then 64
    else if winSize < 6000 then 128
    else Max(256, winSize / Log2Floor(winSize * winSize))
  }

  /** The largest even number not above t, but at least two. */
  function EvenAtLeastTwo(t: int): (r: int)
    ensures r >= 2 && r % 2 == 0
    ensures t >= 2 ==> r <= t < r + 2
    ensures t < 2 ==> r == 2
  {
    Max(2, t - t % 2)
  }

  /**
   * aed::NumShifts: the table value clamped to the window size and to
   * (n+6)/9, then rounded down to an even number of at least two.
   */
  function NumShifts(n: int, winSize: int): (r: int)
    ensures r >= 2 && r % 2 == 0
    ensures r <= Max(2, Min(winSize, Div(n + 6, 9)))
    ensures var t := Min(Min(ShiftTable(winSize), winSize), Div(n + 6, 9));
            (t >= 2 ==> r <= t < r + 2) && (t < 2 ==> r == 2)
  {
    var numShifts := Min(ShiftTable(winSize), winSize);
    EvenAtLeastTwo(Min(numShifts, Div(n + 6, 9)))
  }

  /**
   * aed::DeflationSize: numShifts for windows of at most 500, otherwise
   * 3*numShifts/2; clamped to the window size and to (n-1)/3, then rounded
   * down to an even number of at least two.
   */
  function DeflationSize(n: int, winSize: int, numShifts: int): (r: int)
    ensures r >= 2 && r % 2 == 0
    ensures r <= Max(2, Min(winSize, Div(n - 1, 3)))
    ensures var base := if winSize <= 500 then numShifts else Div(3 * numShifts, 2);
            var t := Min(Min(base, winSize), Div(n - 1, 3));
            (t >= 2 ==> r <= t < r + 2) && (t < 2 ==> r == 2)
  {
    var base := if winSize <= 500 then numShifts else Div(3 * numShifts, 2);
    var deflationSize := Min(base, winSize);
    EvenAtLeastTwo(Min(deflationSize, Div(n - 1, 3)))
  }

  /** aed::SufficientDeflation: 14 percent of the deflation window, rounded down. */
  function SufficientDeflation(deflationSize: int): (r: int)
    ensures deflationSize >= 0 ==> 0 <= r <= deflationSize
    ensures deflationSize >= 0 ==> 100 * r <= 14 * deflationSize < 100 * (r + 1)
  {
    Div(14 * deflationSize, 100)
  }

  /** A deflation count is sufficient exactly when it is at most 14 percent of the window. */
  lemma SufficientDeflationIsFourteenPercent(numDeflated: int, deflationSize: int)
    requires deflationSize >= 0
    ensures numDeflated <= SufficientDeflation(deflationSize) <==> 100 * numDeflated <= 14 * deflationSize
  {
    var r := SufficientDeflation(deflationSize);
    assert 100 * r <= 14 * deflationSize < 100 * (r + 1);
  }

  /** aed::MinSize: below this matrix size AED hands over to the double-shift algorithm. */
  function MinSize(): (r: int)
    ensures r == 75
  {
    75
  }

  /** The number of stale iterations after which the deflation window grows and exceptional shifts are used. */
  const StaleIterationsBeforeExceptional := 5

  /** The iteration cap, after LAPACK's DLAQR0: Max(30, 2*5) * Max(10, winSize). */
  function MaxIterations(winSize: int): (r: int)
    ensures r >= 300 && r == 30 * Max(10, winSize)
  {
    Max(30, 2 * StaleIterationsBeforeExceptional) * Max(10, winSize)
  }

  // ---------------------------------------------------------------------
  // The deflation window
  // ---------------------------------------------------------------------

  /**
   * The deflation window before any decrease: the recommended size (or
   * twice the previous size after five stale iterations) within the
   * irreducible window, widened to the full window when it is within one of
   * it, or by one when the subdiagonal entry at its top is larger than the
   * one above it (`subdiagonalGrows(deflationBeg)`).
   */
  function GrownDeflationSize(iterWinSize: int, winEnd: int, deflationSizeRec: int, deflationSize: int,
                              numIterSinceDeflation: int, subdiagonalGrows: int -> bool): (r: int)
    requires iterWinSize >= 1 && deflationSizeRec >= 1 && deflationSize >= 1
    ensures var base := if numIterSinceDeflation < StaleIterationsBeforeExceptional
                        then Min(iterWinSize, deflationSizeRec)
                        else Min(iterWinSize, 2 * deflationSize);
            1 <= base <= r <= iterWinSize && r <= base + 1
            && (base >= iterWinSize - 1 ==> r == iterWinSize)
            && (base < iterWinSize - 1 ==> (r == base + 1 <==> subdiagonalGrows(winEnd - base)))
  {
    var base := if numIterSinceDeflation < StaleIterationsBeforeExceptional
                then Min(iterWinSize, deflationSizeRec)
                else Min(iterWinSize, 2 * deflationSize);
    if base >= iterWinSize - 1 then iterWinSize
    else if subdiagonalGrows(winEnd - base) then base + 1
    else base
  }

  datatype DeflationWindow = DeflationWindow(deflationSize: int, decreaseLevel: int)

  /**
   * The deflation window of one AED iteration and the new decrease level.
   * After five stale iterations a window that already covers the whole
   * irreducible window (or that is already being decreased) shrinks by a
   * growing amount; the decrease resets to zero rather than leave fewer than
   * two rows.
   */
  function SelectDeflationWindow(iterWinSize: int, winEnd: int, deflationSizeRec: int, deflationSize: int,
                                 numIterSinceDeflation: int, decreaseLevel: int,
                                 subdiagonalGrows: int -> bool): (r: DeflationWindow)
    requires iterWinSize >= 1 && deflationSizeRec >= 1 && deflationSize >= 1 && decreaseLevel >= -1
    ensures 1 <= r.deflationSize <= iterWinSize && r.decreaseLevel >= -1
    ensures var grown := GrownDeflationSize(iterWinSize, winEnd, deflationSizeRec, deflationSize,
                                            numIterSinceDeflation, subdiagonalGrows);
            if numIterSinceDeflation < StaleIterationsBeforeExceptional then
              r == DeflationWindow(grown, -1)
            else if decreaseLevel >= 0 || grown == iterWinSize then
              r.deflationSize == grown - r.decreaseLevel
              && (grown - (decreaseLevel + 1) >= 2 ==> r.decreaseLevel == decreaseLevel + 1)
              && (grown - (decreaseLevel + 1) < 2 ==> r.decreaseLevel == 0)
            else
              r == DeflationWindow(grown, decreaseLevel)
    ensures r.deflationSize < GrownDeflationSize(iterWinSize, winEnd, deflationSizeRec, deflationSize,
                                                 numIterSinceDeflation, subdiagonalGrows)
            ==> r.deflationSize >= 2
  {
    var grown := GrownDeflationSize(iterWinSize, winEnd, deflationSizeRec, deflationSize,
                                    numIterSinceDeflation, subdiagonalGrows);
    if numIterSinceDeflation < StaleIterationsBeforeExceptional then
      DeflationWindow(grown, -1)
    else if decreaseLevel >= 0 || grown == iterWinSize then
      var level := if grown - (decreaseLevel + 1) < 2 then 0 else decreaseLevel + 1;
      DeflationWindow(grown - level, level)
    else
      DeflationWindow(grown, decreaseLevel)
  }

  /** Whether a QR sweep follows the deflation step: nothing deflated, or too little in a window still large enough for AED. */
  predicate SweepNeeded(numDeflated: int, deflationSize: int, newIterWinSize: int)
  {
    numDeflated == 0
    || (numDeflated <= SufficientDeflation(deflationSize) && newIterWinSize >= MinSize())
  }

  /** The sweep test in percentages. */
  lemma SweepNeededIff(numDeflated: int, deflationSize: int, newIterWinSize: int)
    requires deflationSize >= 0
    ensures SweepNeeded(numDeflated, deflationSize, newIterWinSize)
            <==> numDeflated == 0 || (100 * numDeflated <= 14 * deflationSize && newIterWinSize >= 75)
  {
    SufficientDeflationIsFourteenPercent(numDeflated, deflationSize);
  }

  // ---------------------------------------------------------------------
  // The shifts of a sweep
  // ---------------------------------------------------------------------

  /** The shift count for a sweep of the window left after deflation: even, at most the recommendation. */
  function SweepNumShifts(numShiftsRec: int, newIterWinSize: int): (r: int)
    requires numShiftsRec >= 2 && numShiftsRec % 2 == 0
    ensures 2 <= r <= numShiftsRec && r % 2 == 0
    ensures r <= Max(2, newIterWinSize - 1)
    ensures Min(numShiftsRec, Max(2, newIterWinSize - 1)) < r + 2
  {
    var numShifts := Min(numShiftsRec, Max(2, newIterWinSize - 1));
    numShifts - numShifts % 2
  }

  /** Exceptional shifts are used on every fifth stale iteration. */
  predicate UseExceptionalShifts(numIterSinceDeflation: int)
  {
    numIterSinceDeflation > 0 && numIterSinceDeflation % StaleIterationsBeforeExceptional == 0
  }

  /**
   * The first shift before the narrowing at the end: the trailing numShifts
   * entries for exceptional shifts; otherwise the shift candidates the
   * deflation step left, replaced by the converged eigenvalues of a trailing
   * submatrix of order numShifts when there are at most numShifts/2
   * candidates (numUnconvergedShifts of that small QR run did not converge),
   * and by the two trailing entries when fewer than two of those converged.
   */
  function ShiftsBegin(numShifts: int, winEnd: int, candidatesBeg: int, numIterSinceDeflation: int,
                       numUnconvergedShifts: int): (r: int)
    requires numShifts >= 2
    requires 0 <= numUnconvergedShifts <= numShifts
    ensures UseExceptionalShifts(numIterSinceDeflation) ==> r == winEnd - numShifts
    ensures !UseExceptionalShifts(numIterSinceDeflation) && winEnd - candidatesBeg > Div(numShifts, 2) ==> r == candidatesBeg
    ensures !UseExceptionalShifts(numIterSinceDeflation) && winEnd - candidatesBeg <= Div(numShifts, 2)
            ==> winEnd - numShifts <= r <= winEnd - 2
  {
    if UseExceptionalShifts(numIterSinceDeflation) then
      winEnd - numShifts
    else if winEnd - candidatesBeg <= Div(numShifts, 2) then
      var grabbed := winEnd - numShifts + numUnconvergedShifts;
      if grabbed >= winEnd - 1 then winEnd - 2 else grabbed
    else
      candidatesBeg
  }

  /** Whether the shifts must be sorted: more of them than will be used. */
  predicate ShiftsNeedSorting(numShifts: int, winEnd: int, shiftBeg: int)
  {
    winEnd - shiftBeg > numShifts
  }

  /** The final shift count and first shift: at most the available shifts, rounded down to even, taken from the bottom. */
  function FinalShifts(numShifts: int, winEnd: int, shiftBeg: int): (r: (int, int))
    requires numShifts >= 0 && shiftBeg <= winEnd
    ensures var (ns, beg) := r;
            0 <= ns <= numShifts && ns <= winEnd - shiftBeg && ns % 2 == 0
            && beg == winEnd - ns && shiftBeg <= beg
            && Min(numShifts, winEnd - shiftBeg) < ns + 2
  {
    var ns := Min(numShifts, winEnd - shiftBeg);
    var ns' := ns - ns % 2;
    (ns', winEnd - ns')
  }

  /**
   * The shifts of a sweep stay inside the window left after deflation (one
   * row above it only when that window has a single row), provided the
   * deflation step reports no more shift candidates than the rows it did not
   * deflate.
   */
  lemma ShiftsInsideWindow(numShiftsRec: int, iterBeg: int, winEnd: int, candidatesBeg: int,
                           numIterSinceDeflation: int, numUnconvergedShifts: int)
    requires numShiftsRec >= 2 && numShiftsRec % 2 == 0
    requires iterBeg < winEnd && iterBeg <= candidatesBeg <= winEnd
    requires 0 <= numUnconvergedShifts <= SweepNumShifts(numShiftsRec, winEnd - iterBeg)
    ensures var ns := SweepNumShifts(numShiftsRec, winEnd - iterBeg);
            var beg := ShiftsBegin(ns, winEnd, candidatesBeg, numIterSinceDeflation, numUnconvergedShifts);
            iterBeg - 1 <= beg <= winEnd
            && (winEnd - iterBeg >= 2 ==> iterBeg <= beg)
            && iterBeg - 1 <= FinalShifts(ns, winEnd, beg).1 <= winEnd
  {
  }

  /** As written, the single-shift test compares winBeg, not winEnd, with shiftBeg. */
  predicate SingleShiftTestAsWritten(winBeg: int, shiftBeg: int)
  {
    winBeg - shiftBeg == 2
  }

  /** The test as intended: exactly two shifts remain, [shiftBeg, winEnd) has two entries. */
  predicate TwoShiftsRemain(winEnd: int, shiftBeg: int)
  {
    winEnd - shiftBeg == 2
  }

  /**
   * The single-shift test as written never holds: shiftBeg is never more
   * than one row above the irreducible window, which starts at or below
   * winBeg.
   */
  lemma SingleShiftTestAsWrittenNeverHolds(numShiftsRec: int, winBeg: int, iterBeg: int, winEnd: int,
                                           candidatesBeg: int, numIterSinceDeflation: int,
                                           numUnconvergedShifts: int)
    requires numShiftsRec >= 2 && numShiftsRec % 2 == 0
    requires winBeg <= iterBeg < winEnd && iterBeg <= candidatesBeg <= winEnd
    requires 0 <= numUnconvergedShifts <= SweepNumShifts(numShiftsRec, winEnd - iterBeg)
    ensures var ns := SweepNumShifts(numShiftsRec, winEnd - iterBeg);
            !SingleShiftTestAsWritten(winBeg, ShiftsBegin(ns, winEnd, candidatesBeg, numIterSinceDeflation, numUnconvergedShifts))
  {
    ShiftsInsideWindow(numShiftsRec, iterBeg, winEnd, candidatesBeg, numIterSinceDeflation, numUnconvergedShifts);
  }

  /**
   * The intended test does fire: four shifts wanted, two candidates left, and
   * two of the four eigenvalues of the trailing 4 x 4 submatrix converged.
   */
  lemma TwoShiftsRemainCanHold()
    ensures var ns := SweepNumShifts(4, 100);
            TwoShiftsRemain(100, ShiftsBegin(ns, 100, 98, 1, 2))
  {
    assert SweepNumShifts(4, 100) == 4;
    assert Div(4, 2) == 2;
    assert !UseExceptionalShifts(1);
  }

  /**
   * With two real shifts left, use the one closer to the bottom-right entry h
   * of H twice; complex shifts stay as they are.
   */
  function ChooseSingleShift(second: Complex, last: Complex, h: real): (r: (Complex, Complex))
    ensures last.im != 0.0 ==> r == (second, last)
    ensures last.im == 0.0 ==> r.0 == r.1 && (r.1 == second || r.1 == last)
    ensures last.im == 0.0 ==> AbsReal(r.1.re - h) <= AbsReal(second.re - h)
                               && AbsReal(r.1.re - h) <= AbsReal(last.re - h)
  {
    if last.im == 0.0 then
      if AbsReal(last.re - h) < AbsReal(second.re - h) then (last, last) else (second, second)
    else
      (second, last)
  }

  /**
   * The last two shifts actually used: when exactly two shifts remain and
   * the last is real, one of them is used twice, namely one at least as
   * close to h as either (the second-to-last on a tie); otherwise both stay
   * as they are.
   */
  function ApplySingleShift(winEnd: int, shiftBeg: int, second: Complex, last: Complex, h: real): (r: (Complex, Complex))
    ensures !TwoShiftsRemain(winEnd, shiftBeg) || last.im != 0.0 ==> r == (second, last)
    ensures TwoShiftsRemain(winEnd, shiftBeg) && last.im == 0.0 ==>
              r.0 == r.1 && (r.0 == second || r.0 == last)
              && AbsReal(r.0.re - h) <= AbsReal(second.re - h) && AbsReal(r.0.re - h) <= AbsReal(last.re - h)
              && (AbsReal(second.re - h) <= AbsReal(last.re - h) ==> r.0 == second)
  {
    if TwoShiftsRemain(winEnd, shiftBeg) then ChooseSingleShift(second, last, h) else (second, last)
  }

  // ---------------------------------------------------------------------
  // Sorting the shifts by magnitude
  // ---------------------------------------------------------------------

  /** Every entry of s[lo..hi) is at least as large as every later one, by OneAbs. */
  ghost predicate SortedByMagnitude(s: seq<Complex>, lo: int, hi: int)
    requires 0 <= lo && hi <= |s|
  {
    forall i, j :: lo <= i < j < hi ==> OneAbs(s[i]) >= OneAbs(s[j])
  }

  /** Every entry of s[lo..hi) has magnitude at least floor. */
  ghost predicate AtLeast(s: seq<Complex>, lo: int, hi: int, floor: real)
    requires 0 <= lo && hi <= |s|
  {
    forall j :: lo <= j < hi ==> OneAbs(s[j]) >= floor
  }

  /** a and b have the same length and agree outside [lo, hi). */
  ghost predicate SameOutside(a: seq<Complex>, b: seq<Complex>, lo: int, hi: int)
  {
    |a| == |b| && forall j :: 0 <= j < |a| && !(lo <= j < hi) ==> a[j] == b[j]
  }

  /** Swaps the adjacent entries i and i+1 of s; any other i leaves s as it is. */
  function SwapAdjacent(s: seq<Complex>, i: int): (r: seq<Complex>)
    ensures |r| == |s|
  {
    if 0 <= i && i + 1 < |s| then s[i := s[i + 1]][i + 1 := s[i]] else s
  }

  /** The adjacent swaps `swaps`, applied to s in order. */
  function ApplySwaps(s: seq<Complex>, swaps: seq<int>): (r: seq<Complex>)
    ensures |r| == |s|
    decreases |swaps|
  {
    if |swaps| == 0 then s else SwapAdjacent(ApplySwaps(s, swaps[..|swaps| - 1]), swaps[|swaps| - 1])
  }

  /** Elemental's RowSwap on a column vector: exchanges entries i and i+1 of w. */
  method RowSwap(w: array<Complex>, i: int)
    requires 0 <= i && i + 1 < w.Length
    modifies w
    ensures w[..] == SwapAdjacent(old(w[..]), i)
  {
    w[i], w[i + 1] := w[i + 1], w[i];
  }

  /**
   * One pass of the bubble sort over [shiftBeg, k]: each entry smaller than
   * its right neighbour is swapped with it, so the smallest entry of the
   * range ends at k.  When `bounded`, `floor` is a lower bound of the range
   * that the pass keeps.  The pass reports whether it swapped anything, and
   * `swaps` records the swaps it made.
   */
  method BubblePass(w: array<Complex>, shiftBeg: int, k: int,
                    ghost bounded: bool, ghost floor: real) returns (swapped: bool, ghost swaps: seq<int>)
    requires 0 <= shiftBeg <= k < w.Length
    requires bounded ==> AtLeast(w[..], shiftBeg, k + 1, floor)
    modifies w
    ensures w[..] == ApplySwaps(old(w[..]), swaps)
    ensures SameOutside(old(w[..]), w[..], shiftBeg, k + 1)
    ensures AtLeast(w[..], shiftBeg, k + 1, OneAbs(w[k]))
    ensures bounded ==> AtLeast(w[..], shiftBeg, k + 1, floor)
    ensures !swapped ==> w[..] == old(w[..]) && SortedByMagnitude(old(w[..]), shiftBeg, k + 1)
    ensures SortedByMagnitude(old(w[..]), shiftBeg, k + 1) ==> !swapped
  {
    ghost var orig := w[..];
    swaps := [];
    swapped := false;
    var i := shiftBeg;
    while i < k
      invariant shiftBeg <= i <= k
      invariant w[..] == ApplySwaps(orig, swaps)
      invariant SameOutside(orig, w[..], shiftBeg, k + 1)
      invariant AtLeast(w[..], shiftBeg, i + 1, OneAbs(w[i]))
      invariant bounded ==> AtLeast(w[..], shiftBeg, k + 1, floor)
      invariant swapped == (|swaps| > 0)
      invariant !swapped ==> SortedByMagnitude(orig, shiftBeg, i + 1)
      invariant SortedByMagnitude(orig, shiftBeg, k + 1) ==> !swapped
      decreases k - i
    {
      ghost var before := w[..];
      if OneAbs(w[i]) < OneAbs(w[i + 1]) {
        assert !SortedByMagnitude(orig, shiftBeg, k + 1) by {
          if !swapped {
            assert before == orig;
          }
        }
        swapped := true;
        RowSwap(w, i);
        SwapStep(before, shiftBeg, i, k, bounded, floor);
        SameOutsideTrans(orig, before, w[..], shiftBeg, k + 1);
        swaps := swaps + [i];
      } else {
        KeepStep(before, orig, shiftBeg, i, !swapped);
      }
      i := i + 1;
    }
    assert !swapped ==> swaps == [];
  }

  /** The step of a pass that swaps entries i and i+1. */
  lemma SwapStep(s: seq<Complex>, shiftBeg: int, i: int, k: int, bounded: bool, floor: real)
    requires 0 <= shiftBeg <= i < k < |s|
    requires OneAbs(s[i]) < OneAbs(s[i + 1])
    requires AtLeast(s, shiftBeg, i + 1, OneAbs(s[i]))
    requires bounded ==> AtLeast(s, shiftBeg, k + 1, floor)
    ensures SameOutside(s, SwapAdjacent(s, i), shiftBeg, k + 1)
    ensures AtLeast(SwapAdjacent(s, i), shiftBeg, i + 2, OneAbs(SwapAdjacent(s, i)[i + 1]))
    ensures bounded ==> AtLeast(SwapAdjacent(s, i), shiftBeg, k + 1, floor)
  {
    var t := SwapAdjacent(s, i);
    assert t[i] == s[i + 1] && t[i + 1] == s[i];
    assert forall j :: 0 <= j < |s| && j != i && j != i + 1 ==> t[j] == s[j];
    if bounded {
      forall j | shiftBeg <= j < k + 1 ensures OneAbs(t[j]) >= floor {
        if j == i {
          assert OneAbs(s[i + 1]) >= floor;
        }
      }
    }
  }

  /** The step of a pass that keeps entries i and i+1 in place. */
  lemma KeepStep(s: seq<Complex>, orig: seq<Complex>, shiftBeg: int, i: int, inPlace: bool)
    requires 0 <= shiftBeg <= i && i + 1 < |s|
    requires AtLeast(s, shiftBeg, i + 1, OneAbs(s[i]))
    requires OneAbs(s[i]) >= OneAbs(s[i + 1])
    requires inPlace ==> s == orig && SortedByMagnitude(orig, shiftBeg, i + 1)
    ensures AtLeast(s, shiftBeg, i + 2, OneAbs(s[i + 1]))
    ensures inPlace ==> SortedByMagnitude(orig, shiftBeg, i + 2)
  {
    if inPlace {
      forall a, b | shiftBeg <= a < b < i + 2 ensures OneAbs(orig[a]) >= OneAbs(orig[b]) {
        if b == i + 1 && a < i {
          assert OneAbs(orig[a]) >= OneAbs(orig[i]);
        }
      }
    }
  }

  lemma SameOutsideTrans(a: seq<Complex>, b: seq<Complex>, c: seq<Complex>, lo: int, hi: int)
    requires SameOutside(a, b, lo, hi) && SameOutside(b, c, lo, hi)
    ensures SameOutside(a, c, lo, hi)
  {
  }

  lemma SameOutsideWiden(a: seq<Complex>, b: seq<Complex>, lo: int, mid: int, hi: int)
    requires lo <= mid <= hi
    requires SameOutside(a, b, lo, mid)
    ensures SameOutside(a, b, lo, hi)
  {
  }

  /**
   * One pass of SortShifts at index k, as seen from the sequences before and
   * after it: the sorted tail grows by one entry and still bounds the rest.
   */
  lemma PassAdvance(before: seq<Complex>, after: seq<Complex>,
                    shiftBeg: int, k: int, winEnd: int, swapped: bool)
    requires 0 <= shiftBeg < k < winEnd <= |before|
    requires SortedByMagnitude(before, k + 1, winEnd)
    requires k + 1 < winEnd ==> AtLeast(before, shiftBeg, k + 1, OneAbs(before[k + 1]))
    requires SameOutside(before, after, shiftBeg, k + 1)
    requires AtLeast(after, shiftBeg, k + 1, OneAbs(after[k]))
    requires k + 1 < winEnd ==> AtLeast(after, shiftBeg, k + 1, OneAbs(before[k + 1]))
    requires !swapped ==> SortedByMagnitude(before, shiftBeg, k + 1) && after == before
    ensures SortedByMagnitude(after, k, winEnd)
    ensures AtLeast(after, shiftBeg, k, OneAbs(after[k]))
    ensures !swapped ==> SortedByMagnitude(after, shiftBeg, k + 1)
  {
    forall a, b | k <= a < b < winEnd ensures OneAbs(after[a]) >= OneAbs(after[b]) {
      assert after[b] == before[b];
      if a > k {
        assert after[a] == before[a];
      } else {
        assert OneAbs(after[k]) >= OneAbs(before[k + 1]);
        assert OneAbs(before[k + 1]) >= OneAbs(before[b]);
      }
    }
  }

  /** Two sorted ranges that share the entry at mid form one sorted range. */
  lemma SortedJoin(s: seq<Complex>, lo: int, mid: int, hi: int)
    requires 0 <= lo <= mid < hi <= |s|
    requires SortedByMagnitude(s, lo, mid + 1) && SortedByMagnitude(s, mid, hi)
    ensures SortedByMagnitude(s, lo, hi)
  {
    forall i, j | lo <= i < j < hi ensures OneAbs(s[i]) >= OneAbs(s[j]) {
      if i < mid < j {
        assert OneAbs(s[i]) >= OneAbs(s[mid]);
      }
    }
  }

  lemma SortedSub(s: seq<Complex>, lo: int, mid: int, hi: int)
    requires 0 <= lo <= mid <= hi <= |s|
    requires SortedByMagnitude(s, lo, hi)
    ensures SortedByMagnitude(s, lo, mid)
  {
  }

  lemma SwapPreservesMultiset(s: seq<Complex>, i: int)
    requires 0 <= i && i + 1 < |s|
    ensures multiset(s[i := s[i + 1]][i + 1 := s[i]]) == multiset(s)
  {
    var t := s[i := s[i + 1]][i + 1 := s[i]];
    assert s == s[..i] + [s[i], s[i + 1]] + s[i + 2..];
    assert t == s[..i] + [s[i + 1], s[i]] + s[i + 2..];
  }

  lemma {:induction false} ApplySwapsAppend(s: seq<Complex>, a: seq<int>, b: seq<int>)
    ensures ApplySwaps(ApplySwaps(s, a), b) == ApplySwaps(s, a + b)
    decreases |b|
  {
    if |b| > 0 {
      ApplySwapsAppend(s, a, b[..|b| - 1]);
      assert (a + b)[..|a + b| - 1] == a + b[..|b| - 1];
    } else {
      assert a + b == a;
    }
  }

  /** Adjacent swaps permute the sequence. */
  lemma {:induction false} ApplySwapsPermutes(s: seq<Complex>, swaps: seq<int>)
    ensures multiset(ApplySwaps(s, swaps)) == multiset(s)
    decreases |swaps|
  {
    if |swaps| > 0 {
      var t := ApplySwaps(s, swaps[..|swaps| - 1]);
      ApplySwapsPermutes(s, swaps[..|swaps| - 1]);
      var i := swaps[|swaps| - 1];
      if 0 <= i && i + 1 < |t| {
        SwapPreservesMultiset(t, i);
      }
    }
  }

  /** b is obtained from a by a sequence of adjacent swaps. */
  ghost predicate ReachableBySwaps(a: seq<Complex>, b: seq<Complex>)
  {
    exists swaps :: b == ApplySwaps(a, swaps)
  }

  /**
   * The state of SortShifts after the passes that left k: the tail
   * (k, winEnd) holds its final, sorted entries, each no larger than any entry
   * before it, and the array is the start permuted by adjacent swaps within
   * [shiftBeg, winEnd).
   */
  ghost predicate SortInvariant(s: seq<Complex>, start: seq<Complex>,
                                shiftBeg: int, k: int, winEnd: int, sorted: bool, wasSorted: bool, passes: int)
  {
    0 <= shiftBeg && winEnd <= |s| &&
    shiftBeg - 1 <= k <= winEnd - 1 &&
    (shiftBeg < winEnd ==> shiftBeg <= k) &&
    passes == winEnd - 1 - k &&
    ReachableBySwaps(start, s) &&
    SameOutside(start, s, shiftBeg, winEnd) &&
    SortedByMagnitude(s, k + 1, winEnd) &&
    (k + 1 < winEnd ==> AtLeast(s, shiftBeg, k + 1, OneAbs(s[k + 1]))) &&
    (sorted ==> k + 2 <= winEnd && SortedByMagnitude(s, shiftBeg, k + 2)) &&
    (wasSorted ==> s == start && passes <= 1 && (passes == 1 ==> sorted))
  }

  /** One pass of SortShifts keeps SortInvariant, with k one smaller. */
  lemma SortStep(before: seq<Complex>, after: seq<Complex>, start: seq<Complex>,
                 passSwaps: seq<int>, shiftBeg: int, k: int, winEnd: int,
                 swapped: bool, sorted: bool, wasSorted: bool, passes: int)
    requires shiftBeg < k && !sorted
    requires SortInvariant(before, start, shiftBeg, k, winEnd, sorted, wasSorted, passes)
    requires wasSorted == SortedByMagnitude(start, shiftBeg, winEnd)
    requires after == ApplySwaps(before, passSwaps)
    requires SameOutside(before, after, shiftBeg, k + 1)
    requires AtLeast(after, shiftBeg, k + 1, OneAbs(after[k]))
    requires k + 1 < winEnd ==> AtLeast(after, shiftBeg, k + 1, OneAbs(before[k + 1]))
    requires !swapped ==> after == before && SortedByMagnitude(before, shiftBeg, k + 1)
    requires SortedByMagnitude(before, shiftBeg, k + 1) ==> !swapped
    ensures SortInvariant(after, start, shiftBeg, k - 1, winEnd, !swapped, wasSorted, passes + 1)
  {
    if wasSorted {
      SortedSub(before, shiftBeg, k + 1, winEnd);
    }
    PassAdvance(before, after, shiftBeg, k, winEnd, swapped);
    SameOutsideWiden(before, after, shiftBeg, k + 1, winEnd);
    SameOutsideTrans(start, before, after, shiftBeg, winEnd);
    var swaps :| before == ApplySwaps(start, swaps);
    ApplySwapsAppend(start, swaps, passSwaps);
  }

  /** One pass of SortShifts, with the swaps it made: it keeps SortInvariant, with k one smaller. */
  method SortPass(w: array<Complex>, shiftBeg: int, k: int, winEnd: int, ghost start: seq<Complex>,
                  ghost sorted: bool, ghost wasSorted: bool, ghost passes: int) returns (swapped: bool, ghost passSwaps: seq<int>)
    requires shiftBeg < k && winEnd <= w.Length && !sorted
    requires SortInvariant(w[..], start, shiftBeg, k, winEnd, sorted, wasSorted, passes)
    requires wasSorted == SortedByMagnitude(start, shiftBeg, winEnd)
    modifies w
    ensures SortInvariant(w[..], start, shiftBeg, k - 1, winEnd, !swapped, wasSorted, passes + 1)
  {
    ghost var before := w[..];
    ghost var floor := if k + 1 < winEnd then OneAbs(before[k + 1]) else 0.0;
    swapped, passSwaps := BubblePass(w, shiftBeg, k, k + 1 < winEnd, floor);
    SortStep(before, w[..], start, passSwaps, shiftBeg, k, winEnd, swapped, sorted, wasSorted, passes);
  }

  /**
   * The bubble sort of the shifts [shiftBeg, winEnd) by decreasing OneAbs, as
   * AED orders them before pairing, which stops after the first pass
   * without a swap.  `passes` counts the passes, so an already sorted range
   * costs one pass.
   */
  method SortShifts(w: array<Complex>, shiftBeg: int, winEnd: int) returns (ghost passes: int)
    requires 0 <= shiftBeg <= winEnd <= w.Length
    modifies w
    ensures SortedByMagnitude(w[..], shiftBeg, winEnd)
    ensures multiset(w[shiftBeg..winEnd]) == multiset(old(w[shiftBeg..winEnd]))
    ensures SameOutside(old(w[..]), w[..], shiftBeg, winEnd)
    ensures 0 <= passes <= Max(0, winEnd - shiftBeg - 1)
    ensures SortedByMagnitude(old(w[..]), shiftBeg, winEnd) ==> passes <= 1 && w[..] == old(w[..])
  {
    ghost var start := w[..];
    assert start[shiftBeg..winEnd] == w[shiftBeg..winEnd];
    ghost var wasSorted := SortedByMagnitude(start, shiftBeg, winEnd);
    passes := 0;
    var sorted := false;
    var k := winEnd - 1;
    SortInit(start, shiftBeg, winEnd);
    while k > shiftBeg
      invariant SortInvariant(w[..], start, shiftBeg, k, winEnd, sorted, wasSorted, passes)
      decreases k
    {
      if sorted {
        break;
      }
      var swapped, passSwaps := SortPass(w, shiftBeg, k, winEnd, start, sorted, wasSorted, passes);
      sorted := !swapped;
      passes := passes + 1;
      k := k - 1;
    }
    SortFinish(w[..], start, shiftBeg, k, winEnd, sorted, wasSorted, passes);
    assert w[..][shiftBeg..winEnd] == w[shiftBeg..winEnd];
  }

  /** Before the first pass the tail is empty and nothing has moved. */
  lemma SortInit(start: seq<Complex>, shiftBeg: int, winEnd: int)
    requires 0 <= shiftBeg <= winEnd <= |start|
    ensures SortInvariant(start, start, shiftBeg, winEnd - 1, winEnd, false,
                          SortedByMagnitude(start, shiftBeg, winEnd), 0)
  {
    assert start == ApplySwaps(start, []);
  }

  /** When SortShifts stops, the whole range is sorted and is a permutation of the start. */
  lemma SortFinish(s: seq<Complex>, start: seq<Complex>,
                   shiftBeg: int, k: int, winEnd: int, sorted: bool, wasSorted: bool, passes: int)
    requires SortInvariant(s, start, shiftBeg, k, winEnd, sorted, wasSorted, passes)
    requires sorted || k <= shiftBeg
    ensures SortedByMagnitude(s, shiftBeg, winEnd)
    ensures multiset(s[shiftBeg..winEnd]) == multiset(start[shiftBeg..winEnd])
    ensures SameOutside(start, s, shiftBeg, winEnd)
    ensures 0 <= passes <= Max(0, winEnd - shiftBeg - 1)
    ensures wasSorted ==> passes <= 1 && s == start
  {
    if shiftBeg < winEnd {
      if sorted {
        SortedJoin(s, shiftBeg, k + 1, winEnd);
      } else if k + 1 < winEnd {
        SortedJoin(s, shiftBeg, k + 1, winEnd);
      }
    }
    var swaps :| s == ApplySwaps(start, swaps);
    ApplySwapsPermutes(start, swaps);
    SegmentMultiset(start, s, shiftBeg, winEnd);
  }

  /** Two sequences that agree outside [lo, hi) and are permutations of each other permute [lo, hi). */
  lemma SegmentMultiset(a: seq<Complex>, b: seq<Complex>, lo: int, hi: int)
    requires 0 <= lo <= hi <= |a|
    requires multiset(a) == multiset(b)
    requires SameOutside(a, b, lo, hi)
    ensures multiset(a[lo..hi]) == multiset(b[lo..hi])
  {
    SplitMultiset(a, lo, hi);
    SplitMultiset(b, lo, hi);
    assert a[..lo] == b[..lo];
    assert a[hi..] == b[hi..];
    CancelMultiset(multiset(a[..lo]), multiset(a[lo..hi]), multiset(b[lo..hi]), multiset(a[hi..]));
  }

  lemma SplitMultiset(a: seq<Complex>, lo: int, hi: int)
    requires 0 <= lo <= hi <= |a|
    ensures multiset(a) == multiset(a[..lo]) + multiset(a[lo..hi]) + multiset(a[hi..])
  {
    assert a == a[..lo] + a[lo..hi] + a[hi..];
  }

  lemma CancelMultiset(p: multiset<Complex>, x: multiset<Complex>, y: multiset<Complex>, q: multiset<Complex>)
    requires p + x + q == p + y + q
    ensures x == y
  {
    forall e ensures x[e] == y[e] {
      assert (p + x + q)[e] == p[e] + x[e] + q[e];
      assert (p + y + q)[e] == p[e] + y[e] + q[e];
    }
  }

  // ---------------------------------------------------------------------
  // The AED iteration
  // ---------------------------------------------------------------------

  /** A window bound of the control structure: END or an explicit index. */
  datatype Bound = End | At(index: int)

  function ResolveBound(b: Bound, n: int): int
  {
    match b
    case End => n
    case At(i) => i
  }

  /** What the deflation step reports: rows deflated at the bottom, and undeflated eigenvalues usable as shifts. */
  datatype NibbleInfo = NibbleInfo(numDeflated: int, numShiftCandidates: int)

  /** A deflation step never deflates more than its window, and offers at most the remaining rows as shifts. */
  ghost predicate NibbleBounded(nibble: (nat, int, int, int) -> NibbleInfo)
  {
    forall it: nat, iterBeg: int, winEnd: int, deflationSize: int
      {:trigger nibble(it, iterBeg, winEnd, deflationSize)} ::
      0 <= nibble(it, iterBeg, winEnd, deflationSize).numDeflated <= Max(0, deflationSize)
      && 0 <= nibble(it, iterBeg, winEnd, deflationSize).numShiftCandidates
         <= Max(0, deflationSize) - nibble(it, iterBeg, winEnd, deflationSize).numDeflated
  }

  datatype AedResult =
    | DoubleShiftDelegated
    | Info(numIterations: int, numUnconverged: int)
    | NotConverged

  function SumSeq(s: seq<int>): int
  {
    if |s| == 0 then 0 else SumSeq(s[..|s| - 1]) + s[|s| - 1]
  }

  /** The number of trailing iterations that deflated nothing. */
  function TrailingZeros(s: seq<int>): (r: nat)
    ensures r <= |s|
    ensures forall j :: |s| - r <= j < |s| ==> s[j] == 0
    ensures r < |s| ==> s[|s| - 1 - r] != 0
  {
    if |s| == 0 || s[|s| - 1] != 0 then 0 else TrailingZeros(s[..|s| - 1]) + 1
  }

  lemma SumSeqAppend(s: seq<int>, x: int)
    ensures SumSeq(s + [x]) == SumSeq(s) + x
    ensures TrailingZeros(s + [x]) == if x == 0 then TrailingZeros(s) + 1 else 0
  {
    assert (s + [x])[..|s|] == s;
  }

  /**
   * The state of H between iterations, which the model leaves abstract: at
   * iteration `it`, `subdiagonalIsZero(it)(i)` tells whether H(i, i-1) is
   * zero, `subdiagonalGrows(it)(b)` whether |H(b, b-1)| > |H(b-1, b-2)|,
   * and `nibble(it, iterBeg, winEnd, deflationSize)` what the deflation step
   * on the trailing deflationSize rows of [iterBeg, winEnd) reports.
   */
  datatype AedOracles = AedOracles(subdiagonalIsZero: nat -> int -> bool,
                                   subdiagonalGrows: nat -> int -> bool,
                                   nibble: (nat, int, int, int) -> NibbleInfo)

  /**
   * The start of the irreducible window whose last row is i: the nearest
   * row r at or above i with a zero subdiagonal entry H(r, r-1), or winBeg
   * when there is none below winBeg.
   */
  function IrreducibleStart(winBeg: int, i: int, subdiagonalIsZero: int -> bool): (r: int)
    requires winBeg <= i
    ensures winBeg <= r <= i
    ensures r > winBeg ==> subdiagonalIsZero(r)
    ensures forall j :: r < j <= i ==> !subdiagonalIsZero(j)
    decreases i - winBeg
  {
    if i == winBeg || subdiagonalIsZero(i) then i else IrreducibleStart(winBeg, i - 1, subdiagonalIsZero)
  }

  /**
   * The search for the start of the irreducible window [iterBeg, winEnd):
   * upwards from the bottom row to the first zero subdiagonal entry
   * H(iterBeg, iterBeg-1) strictly below winBeg.
   */
  method FindIrreducibleWindow(winBeg: int, winEnd: int, subdiagonalIsZero: int -> bool) returns (iterBeg: int)
    requires winBeg < winEnd
    ensures iterBeg == IrreducibleStart(winBeg, winEnd - 1, subdiagonalIsZero)
    ensures winBeg <= iterBeg < winEnd
    ensures iterBeg > winBeg ==> subdiagonalIsZero(iterBeg)
    ensures forall i :: iterBeg < i < winEnd ==> !subdiagonalIsZero(i)
  {
    iterBeg := winEnd - 1;
    while iterBeg > winBeg
      invariant winBeg <= iterBeg < winEnd
      invariant IrreducibleStart(winBeg, winEnd - 1, subdiagonalIsZero) == IrreducibleStart(winBeg, iterBeg, subdiagonalIsZero)
      decreases iterBeg - winBeg
    {
      if subdiagonalIsZero(iterBeg) {
        break;
      }
      iterBeg := iterBeg - 1;
    }
  }

  /** What one AED iteration determines: the irreducible window's start, the deflation window, and the rows deflated. */
  datatype AedStepResult = AedStepResult(iterBeg: int, window: DeflationWindow, numDeflated: int)

  /**
   * The AED iteration number `it` on [winBeg, winEnd): the irreducible
   * window [iterBeg, winEnd), the deflation window chosen within it, and the
   * number of rows the deflation step on that window reports.
   */
  function AedStep(it: nat, winBeg: int, winEnd: int, deflationSizeRec: int, deflationSize: int,
                   numIterSinceDeflation: int, decreaseLevel: int, o: AedOracles): (r: AedStepResult)
    requires winBeg < winEnd && deflationSizeRec >= 1 && deflationSize >= 1 && decreaseLevel >= -1
    requires NibbleBounded(o.nibble)
    ensures winBeg <= r.iterBeg < winEnd
    ensures r.iterBeg > winBeg ==> o.subdiagonalIsZero(it)(r.iterBeg)
    ensures forall i :: r.iterBeg < i < winEnd ==> !o.subdiagonalIsZero(it)(i)
    ensures 0 <= r.numDeflated <= r.window.deflationSize <= winEnd - r.iterBeg
    ensures r.window.deflationSize >= 1 && r.window.decreaseLevel >= -1
  {
    var iterBeg := IrreducibleStart(winBeg, winEnd - 1, o.subdiagonalIsZero(it));
    var window := SelectDeflationWindow(winEnd - iterBeg, winEnd, deflationSizeRec, deflationSize,
                                        numIterSinceDeflation, decreaseLevel, o.subdiagonalGrows(it));
    AedStepResult(iterBeg, window, o.nibble(it, iterBeg, winEnd, window.deflationSize).numDeflated)
  }

  /**
   * One AED iteration on the window [winBeg, winEnd): find the irreducible
   * window [iterBeg, winEnd), choose the deflation window within it, and run
   * the deflation step on it.  Returns iterBeg, the number of rows deflated
   * and the new deflation-window state.
   */
  method AedIterationStep(it: nat, winBeg: int, winEnd: int, deflationSizeRec: int, deflationSize: int,
                          numIterSinceDeflation: int, decreaseLevel: int, o: AedOracles)
    returns (iterBeg: int, numDeflated: int, newDeflationSize: int, newDecreaseLevel: int)
    requires winBeg < winEnd && deflationSizeRec >= 1 && deflationSize >= 1 && numIterSinceDeflation >= 0
    requires decreaseLevel >= -1
    requires NibbleBounded(o.nibble)
    ensures AedStepResult(iterBeg, DeflationWindow(newDeflationSize, newDecreaseLevel), numDeflated)
            == AedStep(it, winBeg, winEnd, deflationSizeRec, deflationSize, numIterSinceDeflation, decreaseLevel, o)
    ensures iterBeg == IrreducibleStart(winBeg, winEnd - 1, o.subdiagonalIsZero(it))
    ensures winBeg <= iterBeg < winEnd
    ensures iterBeg > winBeg ==> o.subdiagonalIsZero(it)(iterBeg)
    ensures forall i :: iterBeg < i < winEnd ==> !o.subdiagonalIsZero(it)(i)
    ensures DeflationWindow(newDeflationSize, newDecreaseLevel)
            == SelectDeflationWindow(winEnd - iterBeg, winEnd, deflationSizeRec, deflationSize,
                                     numIterSinceDeflation, decreaseLevel, o.subdiagonalGrows(it))
    ensures numDeflated == o.nibble(it, iterBeg, winEnd, newDeflationSize).numDeflated
    ensures 0 <= numDeflated <= newDeflationSize <= winEnd - iterBeg
    ensures newDeflationSize >= 1 && newDecreaseLevel >= -1
  {
    iterBeg := FindIrreducibleWindow(winBeg, winEnd, o.subdiagonalIsZero(it));
    var iterWinSize := winEnd - iterBeg;
    var window := SelectDeflationWindow(iterWinSize, winEnd, deflationSizeRec, deflationSize,
                                        numIterSinceDeflation, decreaseLevel, o.subdiagonalGrows(it));
    newDeflationSize, newDecreaseLevel := window.deflationSize, window.decreaseLevel;
    var deflateInfo := o.nibble(it, iterBeg, winEnd, newDeflationSize);
    numDeflated := deflateInfo.numDeflated;
  }

  /**
   * The AED loop from iteration `it` with active window [winBeg, winEnd),
   * `numIterSinceDeflation` iterations since the last deflation and the
   * given deflation-window state.  The loop runs while the window is
   * non-empty; at maxIter iterations it fails when convergence is demanded
   * and stops otherwise.  Each iteration moves winEnd up by the rows the
   * deflation step deflated and resets the stale counter when that is
   * positive.
   */
  function AedRun(winBeg: int, deflationSizeRec: int, maxIter: int, demandConverged: bool, o: AedOracles,
                  it: nat, winEnd: int, numIterSinceDeflation: nat, deflationSize: int, decreaseLevel: int): (r: AedResult)
    requires winBeg <= winEnd && it <= maxIter
    requires deflationSizeRec >= 1 && deflationSize >= 1 && decreaseLevel >= -1
    requires NibbleBounded(o.nibble)
    decreases maxIter - it
  {
    if winEnd <= winBeg then
      Info(it, winEnd - winBeg)
    else if it >= maxIter then
      if demandConverged then NotConverged else Info(it, winEnd - winBeg)
    else
      var step := AedStep(it, winBeg, winEnd, deflationSizeRec, deflationSize, numIterSinceDeflation, decreaseLevel, o);
      AedRun(winBeg, deflationSizeRec, maxIter, demandConverged, o, it + 1, winEnd - step.numDeflated,
             if step.numDeflated > 0 then 0 else numIterSinceDeflation + 1,
             step.window.deflationSize, step.window.decreaseLevel)
  }

  /**
   * What the AED loop reports: the iteration count, the rows still
   * unconverged, and the cap: rows stay unconverged only when maxIter
   * iterations ran, and then it fails exactly when convergence is demanded.
   */
  lemma {:induction false} AedRunOutcome(winBeg: int, deflationSizeRec: int, maxIter: int, demandConverged: bool,
                                         o: AedOracles, it: nat, winEnd: int, numIterSinceDeflation: nat,
                                         deflationSize: int, decreaseLevel: int)
    requires winBeg <= winEnd && it <= maxIter
    requires deflationSizeRec >= 1 && deflationSize >= 1 && decreaseLevel >= -1
    requires NibbleBounded(o.nibble)
    ensures var r := AedRun(winBeg, deflationSizeRec, maxIter, demandConverged, o,
                            it, winEnd, numIterSinceDeflation, deflationSize, decreaseLevel);
            !r.DoubleShiftDelegated?
            && (r.Info? ==> it <= r.numIterations <= maxIter && 0 <= r.numUnconverged <= winEnd - winBeg)
            && (r.Info? && r.numUnconverged > 0 ==> !demandConverged && r.numIterations == maxIter)
            && (r.Info? && r.numIterations < maxIter ==> r.numUnconverged == 0)
            && (r.NotConverged? ==> demandConverged)
    decreases maxIter - it
  {
    if winEnd > winBeg && it < maxIter {
      var step := AedStep(it, winBeg, winEnd, deflationSizeRec, deflationSize, numIterSinceDeflation, decreaseLevel, o);
      AedRunOutcome(winBeg, deflationSizeRec, maxIter, demandConverged, o, it + 1, winEnd - step.numDeflated,
                    if step.numDeflated > 0 then 0 else numIterSinceDeflation + 1,
                    step.window.deflationSize, step.window.decreaseLevel);
    }
  }

  /** The size of the active window [winBeg, winEnd) that the control structure selects. */
  function WindowSize(n: int, ctrlWinBeg: Bound, ctrlWinEnd: Bound): (r: int)
    ensures 0 <= ResolveBound(ctrlWinBeg, n) <= ResolveBound(ctrlWinEnd, n) <= n ==> 0 <= r <= n
  {
    ResolveBound(ctrlWinEnd, n) - ResolveBound(ctrlWinBeg, n)
  }

  /**
   * The AED iteration on the active window of an n x n Hessenberg matrix:
   * below the minimum AED size it delegates to the double-shift QR
   * algorithm; otherwise it runs the AED loop from the recommended
   * deflation size.  `deflated` records the rows deflated by each iteration.
   */
  method AedIteration(n: int, ctrlWinBeg: Bound, ctrlWinEnd: Bound, demandConverged: bool, o: AedOracles)
    returns (result: AedResult, ghost deflated: seq<int>)
    requires 0 <= ResolveBound(ctrlWinBeg, n) <= ResolveBound(ctrlWinEnd, n) <= n
    requires NibbleBounded(o.nibble)
    ensures n < MinSize() <==> result == DoubleShiftDelegated
    ensures n >= MinSize() ==>
              var winSize := WindowSize(n, ctrlWinBeg, ctrlWinEnd);
              var deflationSizeRec := DeflationSize(n, winSize, NumShifts(n, winSize));
              result == AedRun(ResolveBound(ctrlWinBeg, n), deflationSizeRec, MaxIterations(winSize), demandConverged,
                               o, 0, ResolveBound(ctrlWinEnd, n), 0, deflationSizeRec, -1)
    ensures result.Info? ==> result.numIterations == |deflated| <= MaxIterations(WindowSize(n, ctrlWinBeg, ctrlWinEnd))
    ensures result.Info? ==> result.numUnconverged == WindowSize(n, ctrlWinBeg, ctrlWinEnd) - SumSeq(deflated)
    ensures result.Info? ==> 0 <= result.numUnconverged <= WindowSize(n, ctrlWinBeg, ctrlWinEnd)
    ensures result.Info? && result.numUnconverged > 0
            ==> !demandConverged && result.numIterations == MaxIterations(WindowSize(n, ctrlWinBeg, ctrlWinEnd))
    ensures result.NotConverged? ==> demandConverged && |deflated| == MaxIterations(WindowSize(n, ctrlWinBeg, ctrlWinEnd))
    ensures result.NotConverged? ==> SumSeq(deflated) < WindowSize(n, ctrlWinBeg, ctrlWinEnd)
  {
    var winBeg := ResolveBound(ctrlWinBeg, n);
    var winEnd := ResolveBound(ctrlWinEnd, n);
    var winSize := winEnd - winBeg;
    if n < MinSize() {
      return DoubleShiftDelegated, [];
    }
    var numShiftsRec := NumShifts(n, winSize);
    var deflationSizeRec := DeflationSize(n, winSize, numShiftsRec);
    result, deflated := AedLoop(winBeg, winEnd, deflationSizeRec, MaxIterations(winSize), demandConverged, o);
  }

  /** AedRun from a non-empty window below the cap is AedRun after its first step. */
  lemma AedRunUnfold(winBeg: int, deflationSizeRec: int, maxIter: int, demandConverged: bool, o: AedOracles,
                     it: nat, winEnd: int, numIterSinceDeflation: nat, deflationSize: int, decreaseLevel: int,
                     step: AedStepResult, newWinEnd: int, newStale: nat, newDeflationSize: int, newDecreaseLevel: int)
    requires winBeg < winEnd && it < maxIter
    requires deflationSizeRec >= 1 && deflationSize >= 1 && decreaseLevel >= -1
    requires NibbleBounded(o.nibble)
    requires step == AedStep(it, winBeg, winEnd, deflationSizeRec, deflationSize, numIterSinceDeflation, decreaseLevel, o)
    requires newWinEnd == winEnd - step.numDeflated
    requires newStale == if step.numDeflated > 0 then 0 else numIterSinceDeflation + 1
    requires newDeflationSize == step.window.deflationSize && newDecreaseLevel == step.window.decreaseLevel
    ensures winBeg <= newWinEnd && newDeflationSize >= 1 && newDecreaseLevel >= -1
    ensures AedRun(winBeg, deflationSizeRec, maxIter, demandConverged, o,
                   it, winEnd, numIterSinceDeflation, deflationSize, decreaseLevel)
            == AedRun(winBeg, deflationSizeRec, maxIter, demandConverged, o,
                      it + 1, newWinEnd, newStale, newDeflationSize, newDecreaseLevel)
  {
  }

  /**
   * The body of the AED loop at iteration `it`: one AED iteration, then the
   * window shrinks by the rows deflated and the stale counter is reset or
   * incremented.  The run from the new state is the run from the old one.
   */
  method AedLoopBody(winBeg: int, deflationSizeRec: int, maxIter: int, demandConverged: bool, o: AedOracles,
                     it: nat, winEnd: int, numIterSinceDeflation: nat, deflationSize: int, decreaseLevel: int)
    returns (numDeflated: int, newWinEnd: int, newStale: nat, newDeflationSize: int, newDecreaseLevel: int)
    requires winBeg < winEnd && it < maxIter
    requires deflationSizeRec >= 1 && deflationSize >= 1 && decreaseLevel >= -1
    requires NibbleBounded(o.nibble)
    ensures 0 <= numDeflated && newWinEnd == winEnd - numDeflated && winBeg <= newWinEnd
    ensures newStale == if numDeflated > 0 then 0 else numIterSinceDeflation + 1
    ensures newDeflationSize >= 1 && newDecreaseLevel >= -1
    ensures AedRun(winBeg, deflationSizeRec, maxIter, demandConverged, o,
                   it, winEnd, numIterSinceDeflation, deflationSize, decreaseLevel)
            == AedRun(winBeg, deflationSizeRec, maxIter, demandConverged, o,
                      it + 1, newWinEnd, newStale, newDeflationSize, newDecreaseLevel)
  {
    var iterBeg;
    iterBeg, numDeflated, newDeflationSize, newDecreaseLevel :=
      AedIterationStep(it, winBeg, winEnd, deflationSizeRec, deflationSize, numIterSinceDeflation, decreaseLevel, o);
    newWinEnd := winEnd - numDeflated;
    newStale := if numDeflated > 0 then 0 else numIterSinceDeflation + 1;
    AedRunUnfold(winBeg, deflationSizeRec, maxIter, demandConverged, o, it, winEnd, numIterSinceDeflation,
                 deflationSize, decreaseLevel, AedStepResult(iterBeg, DeflationWindow(newDeflationSize, newDecreaseLevel), numDeflated),
                 newWinEnd, newStale, newDeflationSize, newDecreaseLevel);
  }

  /**
   * The loop of AedIteration over [winBeg, winEnd0), starting from the
   * recommended deflation size: it computes AedRun from the initial state.
   */
  method AedLoop(winBeg: int, winEnd0: int, deflationSizeRec: int, maxIter: int, demandConverged: bool,
                 o: AedOracles)
    returns (result: AedResult, ghost deflated: seq<int>)
    requires winBeg <= winEnd0 && deflationSizeRec >= 1 && maxIter >= 0
    requires NibbleBounded(o.nibble)
    ensures result == AedRun(winBeg, deflationSizeRec, maxIter, demandConverged, o, 0, winEnd0, 0, deflationSizeRec, -1)
    ensures !result.DoubleShiftDelegated?
    ensures result.Info? ==> result.numIterations == |deflated| <= maxIter
    ensures result.Info? ==> result.numUnconverged == winEnd0 - winBeg - SumSeq(deflated)
    ensures result.Info? ==> 0 <= result.numUnconverged <= winEnd0 - winBeg
    ensures result.Info? && result.numUnconverged > 0 ==> !demandConverged && result.numIterations == maxIter
    ensures result.NotConverged? ==> demandConverged && |deflated| == maxIter
    ensures result.NotConverged? ==> SumSeq(deflated) < winEnd0 - winBeg
  {
    var winEnd := winEnd0;
    deflated := [];
    var deflationSize := deflationSizeRec;
    var numIterSinceDeflation: nat := 0;
    var decreaseLevel := -1;
    var numIterations: nat := 0;
    ghost var run := AedRun(winBeg, deflationSizeRec, maxIter, demandConverged, o, 0, winEnd0, 0, deflationSizeRec, -1);
    while winBeg < winEnd
      invariant winEnd == winEnd0 - SumSeq(deflated) && 0 <= SumSeq(deflated) <= winEnd0 - winBeg
      invariant numIterations == |deflated| <= maxIter
      invariant numIterSinceDeflation == TrailingZeros(deflated)
      invariant deflationSize >= 1 && decreaseLevel >= -1
      invariant run == AedRun(winBeg, deflationSizeRec, maxIter, demandConverged, o,
                              numIterations, winEnd, numIterSinceDeflation, deflationSize, decreaseLevel)
      decreases maxIter - numIterations
    {
      if numIterations >= maxIter {
        if demandConverged {
          return NotConverged, deflated;
        } else {
          break;
        }
      }
      var numDeflated, newWinEnd, stale, newDeflationSize, newDecreaseLevel :=
        AedLoopBody(winBeg, deflationSizeRec, maxIter, demandConverged, o, numIterations, winEnd,
                    numIterSinceDeflation, deflationSize, decreaseLevel);
      SumSeqAppend(deflated, numDeflated);
      winEnd := newWinEnd;
      numIterations := numIterations + 1;
      deflated := deflated + [numDeflated];
      deflationSize, decreaseLevel := newDeflationSize, newDecreaseLevel;
      numIterSinceDeflation := stale;
    }
    result := Info(numIterations, winEnd - winBeg);
  }
}
