/**
 * ConjugateSubmatrix for a local (sequential) matrix: every entry A(I[s], J[t])
 * of the submatrix selected by the row list I and the column list J is
 * replaced by its complex conjugate, one entry at a time.  The lists may
 * repeat an index, in which case the entry is conjugated once per occurrence
 * of the pair, so an entry ends up conjugated exactly when its row occurs an
 * odd number of times in I and its column an odd number of times in J.
 */
module Conjugate {
  import opened Scalars

  /** z conjugated k times in a row. */
  function ConjTimes(z: Complex, k: nat): (r: Complex)
    ensures k % 2 == 0 ==> r == z
    ensures k % 2 == 1 ==> r == Conj(z)
    decreases k
  {
    if k == 0 then z else Conj(ConjTimes(z, k - 1))
  }

  /** A product of counts is odd exactly when both counts are odd. */
  lemma OddProduct(a: nat, b: nat)
    ensures (a * b) % 2 == 1 <==> a % 2 == 1 && b % 2 == 1
  {
    var a0, b0 := a % 2, b % 2;
    assert a == 2 * (a / 2) + a0;
    assert b == 2 * (b / 2) + b0;
    assert a * b == 2 * (2 * (a / 2) * (b / 2) + a0 * (b / 2) + b0 * (a / 2)) + a0 * b0;
  }

  /** Conjugating an entry twice the same number of times gives it back. */
  lemma ConjTimesTwice(z: Complex, k: nat)
    ensures ConjTimes(ConjTimes(z, k), k) == z
  {
    ConjInvolutive(z);
  }

  /** What one call leaves in an entry that started as z, given the multiplicities of its row and column. */
  function ConjugatedEntry(z: Complex, rowCount: nat, colCount: nat): (r: Complex)
    ensures rowCount == 0 || colCount == 0 ==> r == z
    ensures r == ConjTimes(z, rowCount * colCount)
  {
    OddProduct(rowCount, colCount);
    if rowCount % 2 == 1 && colCount % 2 == 1 then Conj(z) else z
  }

  /**
   * Applying ConjugateSubmatrix twice with the same index lists restores
   * every entry.
   */
  lemma ConjugateTwiceIsIdentity(z: Complex, rowCount: nat, colCount: nat)
    ensures ConjugatedEntry(ConjugatedEntry(z, rowCount, colCount), rowCount, colCount) == z
  {
    ConjTimesTwice(z, rowCount * colCount);
  }

  /** An entry whose imaginary part is zero (the case of a real scalar type) is left as it is. */
  lemma RealEntriesUnchanged(z: Complex, rowCount: nat, colCount: nat)
    requires z.im == 0.0
    ensures ConjugatedEntry(z, rowCount, colCount) == z
  {
  }

  /** A list without repeated entries holds each of its entries exactly once. */
  lemma {:induction false} DistinctCount(s: seq<int>, k: int)
    requires forall p, q :: 0 <= p < q < |s| ==> s[p] != s[q]
    requires 0 <= k < |s|
    ensures multiset(s)[s[k]] == 1
    decreases |s|
  {
    var last := |s| - 1;
    assert s == s[..last] + [s[last]];
    if k == last {
      assert s[k] !in s[..last];
    } else {
      DistinctCount(s[..last], k);
    }
  }

  /**
   * With index lists free of repeats, every addressed entry A(I[s], J[t]) ends
   * as the conjugate of its old value.
   */
  lemma DistinctListsConjugateOnce(z: Complex, I: seq<int>, J: seq<int>, s: int, t: int)
    requires forall p, q :: 0 <= p < q < |I| ==> I[p] != I[q]
    requires forall p, q :: 0 <= p < q < |J| ==> J[p] != J[q]
    requires 0 <= s < |I| && 0 <= t < |J|
    ensures ConjugatedEntry(z, multiset(I)[I[s]], multiset(J)[J[t]]) == Conj(z)
  {
    DistinctCount(I, s);
    DistinctCount(J, t);
  }

  /** Conjugates z when flip holds. */
  function Toggle(z: Complex, flip: bool): Complex
  {
    if flip then Conj(z) else z
  }

  lemma ToggleTwice(z: Complex, a: bool, b: bool)
    ensures Toggle(Toggle(z, a), b) == Toggle(z, a != b)
  {
    ConjInvolutive(z);
  }

  /** The parity bookkeeping of one pass of the outer loop, for one entry of column c. */
  lemma ColumnDone(z: Complex, rowCount: nat, J: seq<int>, jSub: int, c: int)
    requires 0 <= jSub < |J|
    ensures Toggle(Toggle(z, rowCount % 2 == 1 && multiset(J[..jSub])[c] % 2 == 1), c == J[jSub] && rowCount % 2 == 1)
            == Toggle(z, rowCount % 2 == 1 && multiset(J[..jSub + 1])[c] % 2 == 1)
  {
    CountAppend(J, jSub);
    ToggleTwice(z, rowCount % 2 == 1 && multiset(J[..jSub])[c] % 2 == 1, c == J[jSub] && rowCount % 2 == 1);
  }

  /** One occurrence more of s[k] at the end of a prefix of s. */
  lemma CountAppend(s: seq<int>, k: int)
    requires 0 <= k < |s|
    ensures forall r :: multiset(s[..k + 1])[r] == multiset(s[..k])[r] + (if r == s[k] then 1 else 0)
  {
    assert s[..k + 1] == s[..k] + [s[k]];
  }

  /** The inner loop of the sequential overload: conjugate A(I[s], j) for each s in order. */
  method ConjugateColumn(A: array2<Complex>, I: seq<int>, j: int)
    requires forall s :: 0 <= s < |I| ==> 0 <= I[s] < A.Length0
    requires 0 <= j < A.Length1
    modifies A
    ensures forall r, c :: 0 <= r < A.Length0 && 0 <= c < A.Length1 ==>
              A[r, c] == if c == j then Toggle(old(A[r, c]), multiset(I)[r] % 2 == 1) else old(A[r, c])
  {
    var m := |I|;
    var iSub := 0;
    while iSub < m
      invariant 0 <= iSub <= m
      invariant forall r, c :: 0 <= r < A.Length0 && 0 <= c < A.Length1 ==>
                  A[r, c] == if c == j then Toggle(old(A[r, c]), multiset(I[..iSub])[r] % 2 == 1) else old(A[r, c])
    {
      var i := I[iSub];
      CountAppend(I, iSub);
      A[i, j] := Conj(A[i, j]);
      iSub := iSub + 1;
    }
    assert I[..m] == I;
  }

  /**
   * The sequential overload: for each column index J[t] in order, and for each
   * row index I[s] in order, conjugate A(I[s], J[t]).
   */
  method ConjugateSubmatrix(A: array2<Complex>, I: seq<int>, J: seq<int>)
    requires forall s :: 0 <= s < |I| ==> 0 <= I[s] < A.Length0
    requires forall t :: 0 <= t < |J| ==> 0 <= J[t] < A.Length1
    modifies A
    ensures forall r, c :: 0 <= r < A.Length0 && 0 <= c < A.Length1 ==>
              A[r, c] == ConjugatedEntry(old(A[r, c]), multiset(I)[r], multiset(J)[c])
    ensures forall r, c :: 0 <= r < A.Length0 && 0 <= c < A.Length1 && (r !in I || c !in J) ==>
              A[r, c] == old(A[r, c])
  {
    var n := |J|;
    var jSub := 0;
    while jSub < n
      invariant 0 <= jSub <= n
      invariant forall r, c :: 0 <= r < A.Length0 && 0 <= c < A.Length1 ==>
                  A[r, c] == Toggle(old(A[r, c]), multiset(I)[r] % 2 == 1 && multiset(J[..jSub])[c] % 2 == 1)
    {
      ConjugateColumn(A, I, J[jSub]);
      forall r, c | 0 <= r < A.Length0 && 0 <= c < A.Length1
        ensures A[r, c] == Toggle(old(A[r, c]), multiset(I)[r] % 2 == 1 && multiset(J[..jSub + 1])[c] % 2 == 1)
      {
        ColumnDone(old(A[r, c]), multiset(I)[r], J, jSub, c);
      }
      jSub := jSub + 1;
    }
    assert J[..n] == J;
  }
}
