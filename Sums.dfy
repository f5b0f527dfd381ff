/**
 * Finite sums of integer-valued functions over a half-open range, with the
 * few laws the partition proofs of the distribution arithmetic need.
 */
module Sums {

  /** f(lo) + f(lo + 1) + ... + f(hi - 1); zero for an empty range. */
  function Sum(f: int -> int, lo: int, hi: int): int
    decreases hi - lo
  {
    if lo >= hi then 0 else f(lo) + Sum(f, lo + 1, hi)
  }

  lemma {:induction false} SumExt(f: int -> int, g: int -> int, lo: int, hi: int)
    requires forall i :: lo <= i < hi ==> f(i) == g(i)
    ensures Sum(f, lo, hi) == Sum(g, lo, hi)
    decreases hi - lo
  {
    if lo < hi {
      SumExt(f, g, lo + 1, hi);
    }
  }

  lemma {:induction false} SumAdd(f: int -> int, g: int -> int, h: int -> int, lo: int, hi: int)
    requires forall i :: lo <= i < hi ==> h(i) == f(i) + g(i)
    ensures Sum(h, lo, hi) == Sum(f, lo, hi) + Sum(g, lo, hi)
    decreases hi - lo
  {
    if lo < hi {
      SumAdd(f, g, h, lo + 1, hi);
    }
  }

  lemma {:induction false} SumScale(f: int -> int, h: int -> int, c: int, lo: int, hi: int)
    requires forall i :: lo <= i < hi ==> h(i) == c * f(i)
    ensures Sum(h, lo, hi) == c * Sum(f, lo, hi)
    decreases hi - lo
  {
    if lo < hi {
      SumScale(f, h, c, lo + 1, hi);
      assert Sum(h, lo, hi) == c * f(lo) + c * Sum(f, lo + 1, hi);
    }
  }

  /** Splits off the last term. */
  lemma {:induction false} SumLast(f: int -> int, lo: int, hi: int)
    requires lo < hi
    ensures Sum(f, lo, hi) == Sum(f, lo, hi - 1) + f(hi - 1)
    decreases hi - lo
  {
    if lo < hi - 1 {
      SumLast(f, lo + 1, hi);
    }
  }

  /** Reindexing: a sum over [lo, hi) of f equals a sum over [lo + d, hi + d) of g when g(i + d) == f(i). */
  lemma {:induction false} SumShift(f: int -> int, g: int -> int, d: int, lo: int, hi: int)
    requires forall i :: lo <= i < hi ==> g(i + d) == f(i)
    ensures Sum(f, lo, hi) == Sum(g, lo + d, hi + d)
    decreases hi - lo
  {
    if lo < hi {
      SumShift(f, g, d, lo + 1, hi);
    }
  }

  /** A sum of a function that is zero everywhere but at k. */
  lemma {:induction false} SumSingle(f: int -> int, k: int, lo: int, hi: int)
    requires forall i :: lo <= i < hi && i != k ==> f(i) == 0
    ensures Sum(f, lo, hi) == if lo <= k < hi then f(k) else 0
    decreases hi - lo
  {
    if lo < hi {
      SumSingle(f, k, lo + 1, hi);
    }
  }

  /** Rotating the summation range [0, p) by one place does not change the sum. */
  lemma RotateByOne(f: int -> int, g: int -> int, p: int)
    requires p > 0
    requires g(0) == f(p - 1)
    requires forall i :: 1 <= i < p ==> g(i) == f(i - 1)
    ensures Sum(g, 0, p) == Sum(f, 0, p)
  {
    SumShift(f, g, 1, 0, p - 1);
    SumLast(f, 0, p);
  }
}
