/**
 * Index arithmetic of Elemental's element-wise (cyclic) and block-cyclic
 * distributions, and the small number-theory helpers that sit beside it
 * (include/El/core/indexing/impl.hpp).
 *
 * A matrix dimension of size n is dealt out over `stride` processes.  In the
 * element-wise distribution global index i belongs to the process whose shift
 * is i mod stride; in the block distribution the indices are cut into blocks
 * of `bsize` (the first one shortened by `cut`) and the blocks are dealt out
 * cyclically.  Each checked routine (`Length`) and its unchecked twin
 * (`Length_`) compute the same value; here they are one function and the
 * checks of the debug build are its preconditions.
 */
module Indexing {
  import opened CppInt
  import opened Sums

  function Indicator(b: bool): int
  {
    if b then 1 else 0
  }

  // ---------------------------------------------------------------------
  // Mod and Shift
  // ---------------------------------------------------------------------

  lemma MulAtLeast(b: int, k: int)
    requires b > 0 && k >= 1
    ensures b * k >= b
  {
  }

  /** Uniqueness of Euclidean division: any decomposition a == b*q + r with 0 <= r < b is the one. */
  lemma ModUnique(a: int, b: int, q: int, r: int)
    requires b > 0 && a == b * q + r && 0 <= r < b
    ensures a / b == q && a % b == r
  {
    var q', r' := a / b, a % b;
    assert a == b * q' + r' && 0 <= r' < b;
    var d := q - q';
    assert b * q - b * q' == b * d;
    if d >= 1 {
      MulAtLeast(b, d);
      assert false;
    } else if d <= -1 {
      MulAtLeast(b, -d);
      assert false;
    }
  }

  /** Division of a nonnegative number by a positive one lands in [0, a]. */
  lemma DivBetween(a: int, b: int)
    requires a >= 0 && b > 0
    ensures 0 <= a / b <= a
  {
    var q := a / b;
    assert a == b * q + a % b;
    if q < 0 {
      MulAtLeast(b, -q);
      assert false;
    } else if q > a {
      MulAtLeast(q, b);
      assert false;
    }
  }

  lemma DivModSplit(a: int, b: int)
    requires b > 0
    ensures a == b * (a / b) + a % b && 0 <= a % b < b
  {
  }

  lemma MulNonnegative(a: int, b: int)
    requires a >= 0 && b >= 0
    ensures a * b >= 0
  {
  }

  /** Whole blocks of size b in a >= 0 leave a remainder in [0, b). */
  lemma BlockRemainder(a: int, b: int)
    requires a >= 0 && b > 0
    ensures Div(a, b) >= 0 && 0 <= a - Div(a, b) * b < b
  {
    var q := Div(a, b);
    DivModSplit(a, b);
    DivBetween(a, b);
    assert q * b == b * q;
  }

  lemma ModAddMultiple(a: int, b: int, k: int)
    requires b > 0
    ensures (a + b * k) % b == a % b
  {
    ModUnique(a + b * k, b, a / b + k, a % b);
  }

  /**
   * Mod and Mod_: the C++ remainder moved into [0, b).  The result is the
   * Euclidean residue of a, also when a is negative and C++ `%` is negative.
   */
  function Mod(a: int, b: int): (r: int)
    requires b > 0
    ensures 0 <= r < b
    ensures r == a % b
  {
    var rem := Rem(a, b);
    RemTruncates(a, b);
    if rem >= 0 then
      ModUnique(a, b, Div(a, b), rem);
      rem
    else
      ModUnique(a, b, Div(a, b) - 1, rem + b);
      rem + b
  }

  /**
   * Shift and Shift_: the first global index that process `rank` owns when the
   * distribution is aligned with process `align`; the cyclic distance from
   * align to rank.
   */
  function Shift(rank: int, align: int, stride: int): (r: int)
    requires 0 <= rank < stride && 0 <= align < stride
    ensures 0 <= r < stride
    ensures r == if align <= rank then rank - align else rank - align + stride
  {
    var d := rank - align;
    if d >= 0 then ModUnique(d, stride, 0, d); Mod(d, stride)
    else ModUnique(d, stride, -1, d + stride); Mod(d, stride)
  }

  // ---------------------------------------------------------------------
  // Element-wise (cyclic) distributions
  // ---------------------------------------------------------------------

  /** Length and Length_: how many of the indices [0, n) the process with this shift owns. */
  function Length(n: int, shift: int, stride: int): (r: int)
    requires n >= 0 && 0 <= shift < stride
    ensures 0 <= r <= n
  {
    if n > shift then DivBetween(n - shift - 1, stride); Div(n - shift - 1, stride) + 1 else 0
  }

  /** Length with the rank/alignment arguments: the length for Shift(rank, align, stride). */
  function RankLength(n: int, rank: int, align: int, stride: int): (r: int)
    requires n >= 0 && 0 <= rank < stride && 0 <= align < stride
    ensures 0 <= r <= n
  {
    Length(n, Shift(rank, align, stride), stride)
  }

  /** MaxLength and MaxLength_: the largest local length, that of shift 0. */
  function MaxLength(n: int, stride: int): (r: int)
    requires n >= 0 && stride > 0
    ensures r == Length(n, 0, stride)
  {
    if n > 0 then Div(n - 1, stride) + 1 else 0
  }

  /**
   * GlobalIndex: the global index of local entry iLoc of the process with this
   * shift.  For a shift in [0, numProcs) the global index has residue shift,
   * and dividing by numProcs gives back the local index.
   */
  function GlobalIndex(iLoc: int, shift: int, numProcs: int): (g: int)
    ensures 0 <= shift < numProcs ==> g % numProcs == shift && g / numProcs == iLoc
  {
    if 0 <= shift < numProcs then
      ModUnique(shift + iLoc * numProcs, numProcs, iLoc, shift);
      shift + iLoc * numProcs
    else
      shift + iLoc * numProcs
  }

  /** The number of indices i in [0, n) with i mod stride == shift, counted one at a time. */
  function CountResidue(n: int, shift: int, stride: int): int
    requires stride > 0
  {
    Sum(i => Indicator(i % stride == shift), 0, n)
  }

  /** The local lengths of all processes, as a function of the shift (zero outside [0, stride)). */
  function Lengths(n: int, stride: int): int -> int
    requires n >= 0 && stride > 0
  {
    s => if 0 <= s < stride then Length(n, s, stride) else 0
  }

  lemma DivMonotone(a: int, b: int, d: int)
    requires 0 <= a <= b && d > 0
    ensures a / d <= b / d
  {
    var qa, qb := a / d, b / d;
    assert a == d * qa + a % d && b == d * qb + b % d;
    if qa > qb {
      assert d * qa - d * qb == d * (qa - qb);
      MulAtLeast(d, qa - qb);
      assert false;
    }
  }

  /** Adding index n - 1 to the range adds one to the length of exactly the owner of n - 1. */
  lemma LengthStep(n: int, shift: int, stride: int)
    requires n >= 1 && 0 <= shift < stride
    ensures Length(n, shift, stride) == Length(n - 1, shift, stride) + Indicator((n - 1) % stride == shift)
  {
    var t := n - 1 - shift;
    if t < 0 {
      ModUnique(n - 1, stride, 0, n - 1);
    } else if t == 0 {
      ModUnique(n - 1, stride, 0, n - 1);
    } else {
      var q, r := t / stride, t % stride;
      ModUnique(t, stride, q, r);
      if r == 0 {
        ModUnique(t - 1, stride, q - 1, stride - 1);
        ModUnique(n - 1, stride, q, shift);
      } else {
        ModUnique(t - 1, stride, q, r - 1);
        if r + shift < stride {
          ModUnique(n - 1, stride, q, r + shift);
        } else {
          ModUnique(n - 1, stride, q + 1, r + shift - stride);
        }
      }
    }
  }

  /** Length counts exactly the indices of [0, n) congruent to shift modulo stride. */
  lemma {:induction false} LengthCountsResidues(n: int, shift: int, stride: int)
    requires n >= 0 && 0 <= shift < stride
    ensures Length(n, shift, stride) == CountResidue(n, shift, stride)
    ensures n <= shift ==> Length(n, shift, stride) == 0
    decreases n
  {
    if n > 0 {
      LengthCountsResidues(n - 1, shift, stride);
      LengthStep(n, shift, stride);
      SumLast(i => Indicator(i % stride == shift), 0, n);
    }
  }

  /** The local lengths of all stride processes add up to n: every index has exactly one owner. */
  lemma {:induction false} LengthsPartition(n: int, stride: int)
    requires n >= 0 && stride > 0
    ensures Sum(Lengths(n, stride), 0, stride) == n
    decreases n
  {
    if n == 0 {
      SumSingle(Lengths(n, stride), -1, 0, stride);
    } else {
      LengthsPartition(n - 1, stride);
      var owner := (n - 1) % stride;
      var step := (s: int) => if s == owner then 1 else 0;
      forall s | 0 <= s < stride
        ensures Lengths(n, stride)(s) == Lengths(n - 1, stride)(s) + step(s)
      {
        LengthStep(n, s, stride);
      }
      SumAdd(Lengths(n - 1, stride), step, Lengths(n, stride), 0, stride);
      SumSingle(step, owner, 0, stride);
    }
  }

  /** MaxLength bounds every local length. */
  lemma MaxLengthIsMaximal(n: int, shift: int, stride: int)
    requires n >= 0 && 0 <= shift < stride
    ensures Length(n, shift, stride) <= MaxLength(n, stride)
  {
    if n > shift {
      DivMonotone(n - shift - 1, n - 1, stride);
    }
  }

  /** Every local entry of a process maps to an index in [0, n) that the process owns. */
  lemma GlobalIndexOwned(n: int, iLoc: int, shift: int, stride: int)
    requires n >= 0 && 0 <= shift < stride
    requires 0 <= iLoc < Length(n, shift, stride)
    ensures 0 <= GlobalIndex(iLoc, shift, stride) < n
    ensures GlobalIndex(iLoc, shift, stride) % stride == shift
  {
    var last := (n - shift - 1) / stride;
    assert iLoc <= last;
    assert iLoc * stride <= last * stride;
    assert last * stride <= n - shift - 1 by {
      ModUnique(n - shift - 1, stride, last, (n - shift - 1) % stride);
    }
    ModUnique(shift + iLoc * stride, stride, iLoc, shift);
  }

  /** Conversely, every owned index of [0, n) is the image of a local entry. */
  lemma GlobalIndexOnto(n: int, i: int, shift: int, stride: int)
    requires n >= 0 && 0 <= shift < stride
    requires 0 <= i < n && i % stride == shift
    ensures 0 <= i / stride < Length(n, shift, stride)
    ensures GlobalIndex(i / stride, shift, stride) == i
  {
    var q := i / stride;
    ModUnique(i, stride, q, shift);
    assert stride * q <= n - 1 - shift;
    ModUnique(stride * q, stride, q, 0);
    DivMonotone(stride * q, n - 1 - shift, stride);
  }

  /** Over all ranks, the rank/alignment lengths also cover [0, n) exactly once. */
  lemma RankLengthsPartition(n: int, align: int, stride: int)
    requires n >= 0 && 0 <= align < stride
    ensures Sum(r => if 0 <= r < stride then RankLength(n, r, align, stride) else 0, 0, stride) == n
  {
    var f := Lengths(n, stride);
    var g := (r: int) => if 0 <= r < stride then RankLength(n, r, align, stride) else 0;
    RotateMod(f, align, stride);
    SumExt(g, (r: int) => f(Mod(r - align, stride)), 0, stride);
    LengthsPartition(n, stride);
  }

  /** Summing f over the residues shifted by c is summing f over [0, p). */
  lemma {:induction false} RotateMod(f: int -> int, c: int, p: int)
    requires p > 0 && c >= 0
    ensures Sum((r: int) => f(Mod(r - c, p)), 0, p) == Sum(f, 0, p)
    decreases c
  {
    if c == 0 {
      forall r | 0 <= r < p ensures f(Mod(r - c, p)) == f(r) {
        ModUnique(r, p, 0, r);
      }
      SumExt((r: int) => f(Mod(r - c, p)), f, 0, p);
    } else {
      var prev := (r: int) => f(Mod(r - (c - 1), p));
      var g := (r: int) => f(Mod(r - c, p));
      ModAddMultiple(-c, p, 1);
      assert g(0) == f(Mod(-c, p));
      assert prev(p - 1) == f(Mod(p - 1 - (c - 1), p));
      assert Mod(-c, p) == Mod(p - 1 - (c - 1), p);
      forall i | 1 <= i < p ensures g(i) == prev(i - 1) {
        assert i - c == (i - 1) - (c - 1);
      }
      RotateByOne(prev, g, p);
      RotateMod(f, c - 1, p);
    }
  }

  // ---------------------------------------------------------------------
  // Block-cyclic distributions
  // ---------------------------------------------------------------------

  /**
   * BlockedLength and BlockedLength_: how many of the indices [0, n) that are
   * grouped into blocks of bsize (the first one shortened by cut) the process
   * with this shift owns.  The three steps are the source's: the first block,
   * the whole middle blocks, and the possibly partial last block.
   */
  function BlockedLength(n: int, shift: int, bsize: int, cut: int, stride: int): (r: int)
    requires n >= 0 && 0 <= shift < stride && bsize > 0
    ensures 0 <= cut <= bsize ==> r >= 0
  {
    var firstLeftover := Min(n, bsize - cut);
    var length0 := if shift == 0 then firstLeftover else 0;
    var n1 := n - firstLeftover;
    var shift1 := Mod(shift - 1, stride);
    var nBlock := Div(n1, bsize);
    BlockRemainder(n1, bsize);
    var lengthBlock := Length(nBlock, shift1, stride);
    MulNonnegative(lengthBlock, bsize);
    var length1 := length0 + lengthBlock * bsize;
    var n2 := n1 - nBlock * bsize;
    var shift2 := Mod(shift1 - nBlock, stride);
    if shift2 == 0 then length1 + n2 else length1
  }

  /** BlockedLength with the rank/alignment arguments. */
  function RankBlockedLength(n: int, rank: int, align: int, bsize: int, cut: int, stride: int): (r: int)
    requires n >= 0 && 0 <= rank < stride && 0 <= align < stride && bsize > 0
    ensures 0 <= cut <= bsize ==> r >= 0
  {
    BlockedLength(n, Shift(rank, align, stride), bsize, cut, stride)
  }

  /**
   * MaxBlockedLength and MaxBlockedLength_: the blocked length of shift 0,
   * which is the largest blocked length of any process when there is no cut.
   */
  function MaxBlockedLength(n: int, bsize: int, cut: int, stride: int): (r: int)
    requires n >= 0 && stride > 0 && bsize > 0
    ensures r == BlockedLength(n, 0, bsize, cut, stride)
    ensures cut == 0 ==> forall s :: 0 <= s < stride ==> BlockedLength(n, s, bsize, cut, stride) <= r
  {
    forall s | 0 <= s < stride
      ensures BlockedLength(n, s, bsize, 0, stride) <= BlockedLength(n, 0, bsize, 0, stride)
    {
      UncutBlockedLengthAtMostFirst(n, s, bsize, stride);
    }
    BlockedLength(n, 0, bsize, cut, stride)
  }

  /** Length in terms of the quotient and remainder of n by the stride. */
  lemma LengthByQuotient(n: int, k: int, stride: int)
    requires n >= 0 && 0 <= k < stride
    ensures Length(n, k, stride) == n / stride + Indicator(n % stride > k)
  {
    var a, t := n / stride, n % stride;
    if n > k {
      if t > k {
        ModUnique(n - k - 1, stride, a, t - k - 1);
      } else {
        assert stride * (a - 1) == stride * a - stride;
        ModUnique(n - k - 1, stride, a - 1, stride + t - k - 1);
      }
    } else {
      ModUnique(n, stride, 0, n);
    }
  }

  lemma MulMonotone(b: int, x: int, y: int)
    requires b > 0 && x <= y
    ensures b * x <= b * y
  {
    if x < y {
      MulAtLeast(b, y - x);
      assert b * y - b * x == b * (y - x);
    }
  }

  lemma MulSucc(b: int, x: int)
    ensures b * (x + 1) == b * x + b
  {
  }

  /** What is left after the first block and the whole middle blocks lies in [0, bsize). */
  lemma TrailingPartialBlock(n: int, bsize: int, cut: int)
    requires n >= 0 && bsize > 0 && 0 <= cut <= bsize
    ensures var firstLeftover := Min(n, bsize - cut);
            var nBlock := Div(n - firstLeftover, bsize);
            0 <= nBlock && 0 <= n - firstLeftover - nBlock * bsize < bsize
  {
    var firstLeftover := Min(n, bsize - cut);
    var nBlock := Div(n - firstLeftover, bsize);
    DivBounds(n - firstLeftover, bsize);
    DivBetween(n - firstLeftover, bsize);
    assert bsize * (nBlock + 1) == bsize * nBlock + bsize;
  }

  /**
   * Of the nBlock whole blocks after the first, dealt out from the process
   * after shift 0, process s > 0 gets at most one more than process 0, and
   * when it does, the following partial block is not its own.
   */
  lemma MiddleBlocksEvenlyDealt(nBlock: int, s: int, stride: int)
    requires nBlock >= 0 && 0 < s < stride
    ensures Length(nBlock, Mod(s - 1, stride), stride) <= Length(nBlock, Mod(-1, stride), stride) + 1
    ensures Length(nBlock, Mod(s - 1, stride), stride) == Length(nBlock, Mod(-1, stride), stride) + 1
            ==> s != (1 + nBlock) % stride
  {
    ModUnique(s - 1, stride, 0, s - 1);
    ModUnique(-1, stride, -1, stride - 1);
    LengthByQuotient(nBlock, s - 1, stride);
    LengthByQuotient(nBlock, stride - 1, stride);
    var a, t := nBlock / stride, nBlock % stride;
    if t >= s {
      DivModSplit(nBlock, stride);
      if t + 1 < stride {
        ModUnique(1 + nBlock, stride, a, t + 1);
      } else {
        MulSucc(stride, a);
        ModUnique(1 + nBlock, stride, a + 1, 0);
      }
    }
  }

  /**
   * Without a cut, process 0 owns the first block and every stride-th block
   * after it, so no process owns more: another process owns at most one more
   * whole middle block, and then not the trailing partial block.
   */
  lemma UncutBlockedLengthAtMostFirst(n: int, s: int, bsize: int, stride: int)
    requires n >= 0 && bsize > 0 && 0 <= s < stride
    ensures BlockedLength(n, s, bsize, 0, stride) <= BlockedLength(n, 0, bsize, 0, stride)
  {
    if s > 0 {
      BlockedLengthSplit(n, s, bsize, 0, stride);
      BlockedLengthSplit(n, 0, bsize, 0, stride);
      TrailingPartialBlock(n, bsize, 0);
      var firstLeftover := Min(n, bsize);
      var nBlock := Div(n - firstLeftover, bsize);
      MiddleBlocksEvenlyDealt(nBlock, s, stride);
      var mine := Length(nBlock, Mod(s - 1, stride), stride);
      var first := Length(nBlock, Mod(-1, stride), stride);
      assert Mod(0 - 1, stride) == Mod(-1, stride);
      var rest := n - firstLeftover - nBlock * bsize;
      if n <= bsize {
        assert n - firstLeftover == 0;
        DivBetween(0, bsize);
        assert mine == 0 && rest == 0;
      } else if mine == first + 1 {
        MulSucc(bsize, first);
      } else {
        MulMonotone(bsize, mine, first);
      }
    }
  }

  /**
   * As written, MaxBlockedLength is the length of process 0, which holds the
   * cut-shortened first block; with a nonzero cut another process can own
   * more.  Three indices in blocks of two with a cut of one, over two
   * processes: process 0 owns index 0, process 1 owns indices 1 and 2.
   */
  lemma MaxBlockedLengthUndercounts()
    ensures MaxBlockedLength(3, 2, 1, 2) == 1
    ensures BlockedLength(3, 1, 2, 1, 2) == 2
    ensures MaxBlockedLength(3, 2, 1, 2) < BlockedLength(3, 1, 2, 1, 2)
  {
    assert Mod(-1, 2) == 1 by { ModUnique(-1, 2, -1, 1); }
    assert Mod(0, 2) == 0 by { ModUnique(0, 2, 0, 0); }
    assert Mod(1 - 1, 2) == 0;
    assert Div(2, 2) == 1 && Div(0, 2) == 0;
    assert Length(1, 1, 2) == 0 && Length(1, 0, 2) == 1;
    BlockedLengthSplit(3, 0, 2, 1, 2);
    BlockedLengthSplit(3, 1, 2, 1, 2);
  }

  /** The largest blocked length among the shifts [0, k). */
  function LargestBlockedLength(n: int, bsize: int, cut: int, stride: int, k: int): (r: int)
    requires n >= 0 && bsize > 0 && 1 <= k <= stride
    ensures forall s :: 0 <= s < k ==> BlockedLength(n, s, bsize, cut, stride) <= r
    ensures exists s :: 0 <= s < k && BlockedLength(n, s, bsize, cut, stride) == r
    decreases k
  {
    if k == 1 then BlockedLength(n, 0, bsize, cut, stride)
    else Max(LargestBlockedLength(n, bsize, cut, stride, k - 1), BlockedLength(n, k - 1, bsize, cut, stride))
  }

  /** The corrected maximum blocked length: the largest length of any process, whatever the cut. */
  function MaxBlockedLengthOverProcesses(n: int, bsize: int, cut: int, stride: int): (r: int)
    requires n >= 0 && bsize > 0 && stride > 0
    ensures forall s :: 0 <= s < stride ==> BlockedLength(n, s, bsize, cut, stride) <= r
    ensures exists s :: 0 <= s < stride && BlockedLength(n, s, bsize, cut, stride) == r
    ensures MaxBlockedLength(n, bsize, cut, stride) <= r
  {
    LargestBlockedLength(n, bsize, cut, stride, stride)
  }

  /** The blocked lengths of all processes, as a function of the shift. */
  function BlockedLengths(n: int, bsize: int, cut: int, stride: int): int -> int
    requires n >= 0 && bsize > 0 && stride > 0
  {
    s => if 0 <= s < stride then BlockedLength(n, s, bsize, cut, stride) else 0
  }

  /** (a - c) mod p vanishes at exactly one residue a in [0, p). */
  lemma ModSubZero(a: int, c: int, p: int)
    requires p > 0 && 0 <= a < p
    ensures Mod(a - c, p) == 0 <==> a == c % p
  {
    var q, r := c / p, c % p;
    ModUnique(c, p, q, r);
    if a >= r {
      ModUnique(a - c, p, -q, a - r);
    } else {
      ModUnique(a - c, p, -q - 1, a - r + p);
    }
  }

  lemma ModMod(a: int, c: int, p: int)
    requires p > 0
    ensures Mod(Mod(a, p) - c, p) == Mod(a - c, p)
  {
    ModUnique(a, p, a / p, a % p);
    ModAddMultiple(a % p - c, p, a / p);
  }

  /** The three parts of a blocked length: the first block, the whole middle blocks and the last block. */
  lemma BlockedLengthSplit(n: int, s: int, bsize: int, cut: int, stride: int)
    requires n >= 0 && 0 <= s < stride && bsize > 0
    ensures var firstLeftover := Min(n, bsize - cut);
            var nBlock := Div(n - firstLeftover, bsize);
            BlockedLength(n, s, bsize, cut, stride)
            == (if s == 0 then firstLeftover else 0)
             + bsize * Length(nBlock, Mod(s - 1, stride), stride)
             + (if s == (1 + nBlock) % stride then n - firstLeftover - nBlock * bsize else 0)
  {
    var firstLeftover := Min(n, bsize - cut);
    var n1 := n - firstLeftover;
    var nBlock := Div(n1, bsize);
    var shift1 := Mod(s - 1, stride);
    var shift2 := Mod(shift1 - nBlock, stride);
    var length0 := if s == 0 then firstLeftover else 0;
    var length1 := length0 + Length(nBlock, shift1, stride) * bsize;
    var n2 := n1 - nBlock * bsize;
    assert BlockedLength(n, s, bsize, cut, stride) == if shift2 == 0 then length1 + n2 else length1;
    ModMod(s - 1, nBlock, stride);
    ModSubZero(s, 1 + nBlock, stride);
    assert s - 1 - nBlock == s - (1 + nBlock);
    assert (shift2 == 0) <==> (s == (1 + nBlock) % stride);
  }

  /** BlockedLengthSplit read through BlockedLengths. */
  lemma BlockedLengthSplitAt(n: int, s: int, bsize: int, cut: int, stride: int)
    requires n >= 0 && 0 <= s < stride && bsize > 0
    ensures var firstLeftover := Min(n, bsize - cut);
            var nBlock := Div(n - firstLeftover, bsize);
            BlockedLengths(n, bsize, cut, stride)(s)
            == (if s == 0 then firstLeftover else 0)
             + bsize * (if 0 <= s < stride then Length(nBlock, Mod(s - 1, stride), stride) else 0)
             + (if s == (1 + nBlock) % stride then n - firstLeftover - nBlock * bsize else 0)
  {
    BlockedLengthSplit(n, s, bsize, cut, stride);
  }

  /** The whole middle blocks, dealt out from the process after shift 0, also cover nBlock blocks once. */
  lemma MiddleBlocksPartition(nBlock: int, stride: int)
    requires nBlock >= 0 && stride > 0
    ensures Sum(s => if 0 <= s < stride then Length(nBlock, Mod(s - 1, stride), stride) else 0, 0, stride) == nBlock
  {
    var middle := (s: int) => if 0 <= s < stride then Length(nBlock, Mod(s - 1, stride), stride) else 0;
    assert Mod(-1, stride) == stride - 1 by { ModUnique(-1, stride, -1, stride - 1); }
    forall t | 0 <= t < stride - 1 ensures Mod(t, stride) == t {
      ModUnique(t, stride, 0, t);
    }
    RotateByOne(Lengths(nBlock, stride), middle, stride);
    LengthsPartition(nBlock, stride);
  }

  /** The blocked lengths of all processes add up to n, whatever the block size and cut. */
  lemma BlockedLengthsPartition(n: int, bsize: int, cut: int, stride: int)
    requires n >= 0 && bsize > 0 && stride > 0
    ensures Sum(BlockedLengths(n, bsize, cut, stride), 0, stride) == n
  {
    var firstLeftover := Min(n, bsize - cut);
    var nBlock := Div(n - firstLeftover, bsize);
    var n2 := n - firstLeftover - nBlock * bsize;
    var owner := (1 + nBlock) % stride;
    var first := (s: int) => if s == 0 then firstLeftover else 0;
    var middle := (s: int) => if 0 <= s < stride then Length(nBlock, Mod(s - 1, stride), stride) else 0;
    var middleCells := (s: int) => bsize * middle(s);
    var last := (s: int) => if s == owner then n2 else 0;
    var firstAndMiddle := (s: int) => first(s) + middleCells(s);
    var f := BlockedLengths(n, bsize, cut, stride);
    assert Sum(f, 0, stride) == Sum(firstAndMiddle, 0, stride) + Sum(last, 0, stride) by {
      forall s | 0 <= s < stride
        ensures f(s) == firstAndMiddle(s) + last(s)
      {
        BlockedLengthSplitAt(n, s, bsize, cut, stride);
      }
      SumAdd(firstAndMiddle, last, f, 0, stride);
    }
    assert Sum(firstAndMiddle, 0, stride) == Sum(first, 0, stride) + Sum(middleCells, 0, stride) by {
      SumAdd(first, middleCells, firstAndMiddle, 0, stride);
    }
    assert Sum(first, 0, stride) == firstLeftover by {
      SumSingle(first, 0, 0, stride);
    }
    assert Sum(middleCells, 0, stride) == nBlock * bsize by {
      SumScale(middle, middleCells, bsize, 0, stride);
      MiddleBlocksPartition(nBlock, stride);
    }
    assert Sum(last, 0, stride) == n2 by {
      SumSingle(last, owner, 0, stride);
    }
  }

  /** With a proper cut, no process owns more than n indices. */
  lemma BlockedLengthBounded(n: int, shift: int, bsize: int, cut: int, stride: int)
    requires n >= 0 && 0 <= shift < stride && bsize > 0 && 0 <= cut <= bsize
    ensures 0 <= BlockedLength(n, shift, bsize, cut, stride) <= n
  {
    var f := BlockedLengths(n, bsize, cut, stride);
    var others := (s: int) => if s == shift then 0 else f(s);
    var mine := (s: int) => if s == shift then f(s) else 0;
    SumAdd(others, mine, f, 0, stride);
    SumSingle(mine, shift, 0, stride);
    SumNonNegative(others, 0, stride);
    BlockedLengthsPartition(n, bsize, cut, stride);
  }

  lemma {:induction false} SumNonNegative(f: int -> int, lo: int, hi: int)
    requires forall i :: lo <= i < hi ==> f(i) >= 0
    ensures Sum(f, lo, hi) >= 0
    decreases hi - lo
  {
    if lo < hi {
      SumNonNegative(f, lo + 1, hi);
    }
  }

  /** The blocked lengths of all ranks for one alignment, as a function of the rank (0 outside [0, stride)). */
  function RankBlockedLengths(n: int, align: int, bsize: int, cut: int, stride: int): int -> int
    requires n >= 0 && 0 <= align < stride && bsize > 0
  {
    r => if 0 <= r < stride then RankBlockedLength(n, r, align, bsize, cut, stride) else 0
  }

  /** Over all ranks, the rank/alignment blocked lengths cover [0, n) exactly once. */
  lemma RankBlockedLengthsPartition(n: int, align: int, bsize: int, cut: int, stride: int)
    requires n >= 0 && 0 <= align < stride && bsize > 0
    ensures Sum(RankBlockedLengths(n, align, bsize, cut, stride), 0, stride) == n
  {
    var f := BlockedLengths(n, bsize, cut, stride);
    var g := RankBlockedLengths(n, align, bsize, cut, stride);
    forall r | 0 <= r < stride ensures g(r) == f(Mod(r - align, stride)) {
      RankBlockedLengthRotated(n, r, align, bsize, cut, stride);
    }
    SumRotated(f, g, align, stride);
    BlockedLengthsPartition(n, bsize, cut, stride);
  }

  /** The blocked length of a rank is that of its shift, the rank rotated by the alignment. */
  lemma RankBlockedLengthRotated(n: int, r: int, align: int, bsize: int, cut: int, stride: int)
    requires n >= 0 && 0 <= r < stride && 0 <= align < stride && bsize > 0
    ensures RankBlockedLengths(n, align, bsize, cut, stride)(r) == BlockedLengths(n, bsize, cut, stride)(Mod(r - align, stride))
  {
    assert Shift(r, align, stride) == Mod(r - align, stride);
  }

  /** A function that is f rotated by c has the same sum over [0, p). */
  lemma SumRotated(f: int -> int, g: int -> int, c: int, p: int)
    requires p > 0 && c >= 0
    requires forall r :: 0 <= r < p ==> g(r) == f(Mod(r - c, p))
    ensures Sum(g, 0, p) == Sum(f, 0, p)
  {
    RotateMod(f, c, p);
    SumExt(g, (r: int) => f(Mod(r - c, p)), 0, p);
  }

  /**
   * BlockedLength_ as the source computes it, updating the running length,
   * the remaining count and the rotated shift block by block.
   */
  method ComputeBlockedLength(n: int, shift: int, bsize: int, cut: int, stride: int) returns (length: int)
    requires n >= 0 && 0 <= shift < stride && bsize > 0
    ensures length == BlockedLength(n, shift, bsize, cut, stride)
    ensures 0 <= cut <= bsize ==> 0 <= length <= n
  {
    var rest := n;
    var sh := shift;
    length := 0;
    // the cut-shortened block owned by shift 0
    var firstLeftover := Min(rest, bsize - cut);
    if sh == 0 {
      length := length + firstLeftover;
    }
    rest := rest - firstLeftover;
    sh := Mod(sh - 1, stride);
    // whole blocks dealt round-robin after the first
    var nBlock := Div(rest, bsize);
    var lengthBlock := Length(nBlock, sh, stride);
    length := length + lengthBlock * bsize;
    rest := rest - nBlock * bsize;
    sh := Mod(sh - nBlock, stride);
    // the partial block at the end, if any
    if sh == 0 {
      length := length + rest;
    }
    if 0 <= cut <= bsize {
      BlockedLengthBounded(n, shift, bsize, cut, stride);
    }
  }

  /**
   * GlobalBlockedIndex: the global index of local entry iLoc of the process
   * with this shift.  iBefore counts the global entries before the process's
   * first block (negative for shift 0 when the cut is nonzero).
   */
  function GlobalBlockedIndex(iLoc: int, shift: int, bsize: int, cut: int, numProcs: int): int
    requires bsize != 0
  {
    var iBefore := shift * bsize - cut;
    var iLocAdj := if shift == 0 then iLoc + cut else iLoc;
    var numFilledLocalBlocks := Div(iLocAdj, bsize);
    var iMid := numFilledLocalBlocks * bsize * numProcs;
    var iPost := iLocAdj - numFilledLocalBlocks * bsize;
    iBefore + iMid + iPost
  }

  /** Consecutive local entries map to increasing global indices. */
  lemma GlobalBlockedIndexStep(iLoc: int, shift: int, bsize: int, cut: int, numProcs: int)
    requires iLoc >= 0 && cut >= 0 && bsize > 0 && numProcs >= 1
    ensures GlobalBlockedIndex(iLoc, shift, bsize, cut, numProcs)
          < GlobalBlockedIndex(iLoc + 1, shift, bsize, cut, numProcs)
  {
    var a := if shift == 0 then iLoc + cut else iLoc;
    var q, r := a / bsize, a % bsize;
    DivModSplit(a, bsize);
    if r + 1 < bsize {
      ModUnique(a + 1, bsize, q, r + 1);
    } else {
      BlockProducts(q, bsize, numProcs);
      ModUnique(a + 1, bsize, q + 1, 0);
      MulAtLeast(bsize, numProcs);
    }
  }

  /** The products of GlobalBlockedIndex when the local block number grows by one. */
  lemma BlockProducts(q: int, bsize: int, numProcs: int)
    ensures (q + 1) * bsize * numProcs == q * bsize * numProcs + bsize * numProcs
    ensures bsize * (q + 1) == bsize * q + bsize && (q + 1) * bsize == q * bsize + bsize
  {
  }

  /** The offset of a local block, regrouped as a whole number of blocks. */
  lemma BlockOffsetRegroup(shift: int, q: int, bsize: int, numProcs: int)
    ensures shift * bsize + q * bsize * numProcs == (shift + q * numProcs) * bsize
  {
  }

  /** GlobalBlockedIndex is strictly increasing in the local index. */
  lemma {:induction false} GlobalBlockedIndexIncreasing(i: int, j: int, shift: int, bsize: int, cut: int, numProcs: int)
    requires 0 <= i < j && cut >= 0 && bsize > 0 && numProcs >= 1
    ensures GlobalBlockedIndex(i, shift, bsize, cut, numProcs) < GlobalBlockedIndex(j, shift, bsize, cut, numProcs)
    decreases j - i
  {
    GlobalBlockedIndexStep(j - 1, shift, bsize, cut, numProcs);
    if i < j - 1 {
      GlobalBlockedIndexIncreasing(i, j - 1, shift, bsize, cut, numProcs);
    }
  }

  /** With unit blocks and no cut the block distribution is the element-wise one. */
  lemma GlobalBlockedIndexUnitBlocks(iLoc: int, shift: int, numProcs: int)
    ensures GlobalBlockedIndex(iLoc, shift, 1, 0, numProcs) == GlobalIndex(iLoc, shift, numProcs)
  {
  }

  /**
   * The global index of a local entry lies in a block owned by the process:
   * counting blocks from the (cut-shortened) first one, its block number is
   * congruent to the shift modulo numProcs.
   */
  lemma GlobalBlockedIndexOwned(iLoc: int, shift: int, bsize: int, cut: int, numProcs: int)
    requires iLoc >= 0 && cut >= 0 && bsize > 0 && 0 <= shift < numProcs
    ensures GlobalBlockedIndex(iLoc, shift, bsize, cut, numProcs) + cut >= 0
    ensures ((GlobalBlockedIndex(iLoc, shift, bsize, cut, numProcs) + cut) / bsize) % numProcs == shift
  {
    var a := if shift == 0 then iLoc + cut else iLoc;
    var q, r := a / bsize, a % bsize;
    DivModSplit(a, bsize);
    var g := GlobalBlockedIndex(iLoc, shift, bsize, cut, numProcs);
    BlockOffsetRegroup(shift, q, bsize, numProcs);
    DivBetween(a, bsize);
    assert g + cut == (shift + q * numProcs) * bsize + r;
    ModUnique(g + cut, bsize, shift + q * numProcs, r);
    ModUnique(shift + q * numProcs, numProcs, q, shift);
  }

  // ---------------------------------------------------------------------
  // Last offset and diagonal length
  // ---------------------------------------------------------------------

  /** LastOffset: where the last block of a dimension of size n begins. */
  function LastOffset(n: int, bsize: int): (r: int)
    requires bsize > 0
    ensures r % bsize == 0
    ensures n > 0 ==> 0 < n - r <= bsize
  {
    var q := Div(n, bsize);
    var k := if Mod(n, bsize) != 0 then q else q - 1;
    ModUnique(bsize * k, bsize, k, 0);
    assert n > 0 ==> n == bsize * q + n % bsize;
    bsize * k
  }

  /** DiagonalLength: the length of the diagonal with this offset in a height x width matrix. */
  function DiagonalLength(height: int, width: int, offset: int): (r: int)
    ensures height >= 0 && width >= 0 ==> 0 <= r <= Min(height, width)
  {
    if offset > 0 then
      var remWidth := Max(width - offset, 0);
      Min(height, remWidth)
    else
      var remHeight := Max(height + offset, 0);
      Min(remHeight, width)
  }

  /** The cells (i, j) of row i that lie on the diagonal j - i == offset, as an indicator on j. */
  function OnDiagonal(i: int, offset: int): int -> int
  {
    j => Indicator(j - i == offset)
  }

  /** How many cells of each row of a matrix of this width lie on the diagonal. */
  function RowCells(width: int, offset: int): int -> int
  {
    i => Sum(OnDiagonal(i, offset), 0, width)
  }

  /** The number of cells (i, j) of [0, height) x [0, width) with j - i == offset. */
  function DiagonalCells(height: int, width: int, offset: int): int
  {
    Sum(RowCells(width, offset), 0, height)
  }

  /** DiagonalLength counts exactly the cells on its diagonal, hence never exceeds the smaller dimension. */
  lemma {:induction false} DiagonalLengthCountsCells(height: int, width: int, offset: int)
    requires height >= 0 && width >= 0
    ensures DiagonalLength(height, width, offset) == DiagonalCells(height, width, offset)
    ensures 0 <= DiagonalLength(height, width, offset) <= Min(height, width)
    decreases height
  {
    if height > 0 {
      DiagonalLengthCountsCells(height - 1, width, offset);
      SumLast(RowCells(width, offset), 0, height);
      var i := height - 1;
      forall j | 0 <= j < width && j != i + offset ensures OnDiagonal(i, offset)(j) == 0 {
        assert OnDiagonal(i, offset)(j) == Indicator(j - i == offset);
      }
      SumSingle(OnDiagonal(i, offset), i + offset, 0, width);
      assert RowCells(width, offset)(i) == Indicator(0 <= i + offset < width);
    }
  }

  // ---------------------------------------------------------------------
  // Number theory
  // ---------------------------------------------------------------------

  /** d divides x. */
  ghost predicate Divides(d: int, x: int)
  {
    exists k: int :: x == d * k
  }

  /** GCD and GCD_: Euclid's algorithm, with the C++ remainder a - b*(a/b). */
  function GCD(a: int, b: int): (g: int)
    requires a >= 0 && b >= 0
    ensures g >= 0
    decreases b
  {
    if b == 0 then a else GCD(b, a - b * Div(a, b))
  }

  /** A common divisor of x and y divides every x*c + y. */
  lemma DividesCombination(d: int, x: int, y: int, c: int)
    requires Divides(d, x) && Divides(d, y)
    ensures Divides(d, x * c + y)
  {
    var kx :| x == d * kx;
    var ky :| y == d * ky;
    assert x * c == d * (kx * c);
    assert x * c + y == d * (kx * c + ky);
  }

  /** A common divisor of x and y divides every y - x*c. */
  lemma DividesDifference(d: int, x: int, y: int, c: int)
    requires Divides(d, x) && Divides(d, y)
    ensures Divides(d, y - x * c)
  {
    var kx :| x == d * kx;
    var ky :| y == d * ky;
    assert x * c == d * (kx * c);
    assert y - x * c == d * (ky - kx * c);
  }

  /** The remainder step of Euclid's algorithm on nonnegative operands. */
  lemma EuclidStep(a: int, b: int)
    requires a >= 0 && b > 0
    ensures 0 <= a - b * Div(a, b) < b
    ensures GCD(a, b) == GCD(b, a - b * Div(a, b))
  {
    assert Div(a, b) == a / b;
    assert a - b * (a / b) == a % b;
  }

  lemma {:induction false} GCDDividesBoth(a: int, b: int)
    requires a >= 0 && b >= 0
    ensures Divides(GCD(a, b), a) && Divides(GCD(a, b), b)
    decreases b
  {
    var g := GCD(a, b);
    if b == 0 {
      assert a == g * 1;
      assert b == g * 0;
    } else {
      EuclidStep(a, b);
      var q := Div(a, b);
      var r := a - b * q;
      GCDDividesBoth(b, r);
      DividesCombination(g, b, r, q);
      assert b * q + r == a;
    }
  }

  lemma {:induction false} GCDDividedByCommonDivisors(a: int, b: int, d: int)
    requires a >= 0 && b >= 0
    requires Divides(d, a) && Divides(d, b)
    ensures Divides(d, GCD(a, b))
    decreases b
  {
    if b != 0 {
      EuclidStep(a, b);
      var q := Div(a, b);
      var r := a - b * q;
      DividesDifference(d, b, a, q);
      GCDDividedByCommonDivisors(b, r, d);
    }
  }

  lemma {:induction false} GCDPositive(a: int, b: int)
    requires a >= 0 && b >= 0 && (a != 0 || b != 0)
    ensures GCD(a, b) > 0
    decreases b
  {
    if b != 0 {
      EuclidStep(a, b);
      GCDPositive(b, a - b * Div(a, b));
    }
  }

  /** GCD returns the greatest common divisor of a and b. */
  lemma GCDIsGreatestCommonDivisor(a: int, b: int)
    requires a >= 0 && b >= 0
    ensures Divides(GCD(a, b), a) && Divides(GCD(a, b), b)
    ensures forall d :: Divides(d, a) && Divides(d, b) ==> Divides(d, GCD(a, b))
    ensures a != 0 || b != 0 ==> GCD(a, b) > 0
  {
    GCDDividesBoth(a, b);
    forall d | Divides(d, a) && Divides(d, b) ensures Divides(d, GCD(a, b)) {
      GCDDividedByCommonDivisors(a, b, d);
    }
    if a != 0 || b != 0 {
      GCDPositive(a, b);
    }
  }

  /** Among positive common divisors, GCD is also the largest in value. */
  lemma GCDIsLargest(a: int, b: int, d: int)
    requires a >= 0 && b >= 0 && (a != 0 || b != 0)
    requires d > 0 && Divides(d, a) && Divides(d, b)
    ensures d <= GCD(a, b)
  {
    GCDIsGreatestCommonDivisor(a, b);
    var k :| GCD(a, b) == d * k;
    assert k >= 1;
  }

  function Pow2(k: nat): (r: nat)
    ensures r >= 1
  {
    if k == 0 then 1 else 2 * Pow2(k - 1)
  }

  /** The C++ bitwise `&` of two unsigned integers, bit by bit from the lowest. */
  function BitAnd(a: nat, b: nat): (r: nat)
    ensures r <= a && r <= b
  {
    if a == 0 || b == 0 then 0
    else 2 * BitAnd(a / 2, b / 2) + (if a % 2 == 1 && b % 2 == 1 then 1 else 0)
  }

  /** PowerOfTwo: n && !(n & (n-1)). */
  predicate PowerOfTwo(n: nat)
  {
    n != 0 && BitAnd(n, n - 1) == 0
  }

  lemma {:induction false} BitAndSelf(a: nat)
    ensures BitAnd(a, a) == a
  {
    if a != 0 {
      BitAndSelf(a / 2);
    }
  }

  /** PowerOfTwo holds exactly of the powers of two. */
  lemma {:induction false} PowerOfTwoIff(n: nat)
    ensures PowerOfTwo(n) <==> exists k: nat :: Pow2(k) == n
    decreases n
  {
    if n == 0 {
    } else if n == 1 {
      assert Pow2(0) == 1;
    } else if n % 2 == 1 {
      var m := n / 2;
      assert BitAnd(n, n - 1) == 2 * BitAnd(m, m);
      BitAndSelf(m);
      forall k: nat ensures Pow2(k) != n {
        if k > 0 { assert Pow2(k) == 2 * Pow2(k - 1); }
      }
    } else {
      var m := n / 2;
      assert BitAnd(n, n - 1) == 2 * BitAnd(m, m - 1);
      assert PowerOfTwo(n) == PowerOfTwo(m);
      PowerOfTwoIff(m);
      if PowerOfTwo(m) {
        var k: nat :| Pow2(k) == m;
        assert Pow2(k + 1) == n;
      } else {
        forall k: nat ensures Pow2(k) != n {
          if k > 0 {
            assert Pow2(k) == 2 * Pow2(k - 1);
          }
        }
      }
    }
  }

  /** The floor of the base-2 logarithm, by halving. */
  function Log2Floor(n: nat): nat
  {
    if n < 2 then 0 else 1 + Log2Floor(n / 2)
  }

  lemma {:induction false} Log2FloorBounds(n: nat)
    requires n >= 1
    ensures Pow2(Log2Floor(n)) <= n < Pow2(Log2Floor(n) + 1)
    decreases n
  {
    if n >= 2 {
      Log2FloorBounds(n / 2);
    }
  }

  /** FlooredLog2: counts how often n can be shifted right before it reaches zero. */
  method FlooredLog2(n: nat) returns (result: nat)
    ensures result == Log2Floor(n)
    ensures n == 0 ==> result == 0
    ensures n >= 1 ==> Pow2(result) <= n < Pow2(result + 1)
  {
    result := 0;
    var m: nat := n / 2;
    while m != 0
      invariant m != 0 ==> Log2Floor(n) == result + 1 + Log2Floor(m)
      invariant m == 0 ==> Log2Floor(n) == result
      decreases m
    {
      result := result + 1;
      m := m / 2;
    }
    if n >= 1 {
      Log2FloorBounds(n);
    }
  }
}
