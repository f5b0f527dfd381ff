/**
 * The control logic of Mehrotra's predictor-corrector method for a linear
 * program in primal conic form
 *
 *     min c^T x   subject to   A x = b,  x >= 0,
 *
 * as the sequential dense overload runs it: the cone check on x and z, the
 * convergence test before the iteration cap, the affine step lengths, the
 * duality measure mu, its affine prediction muAff and the centrality
 * parameter sigma, the corrector residual, the combined direction, the
 * backed-off step lengths and the in-place update of x, y and z.
 *
 * Arithmetic is over exact reals.  The linear algebra (building and solving
 * the KKT system, the residual norms of the convergence test) is supplied as
 * oracles: `affine` returns the affine search direction of an iterate,
 * `corrector` the solution for a given corrector residual, and `converged`
 * the outcome of the three relative-error tests.
 */
module Mehrotra {

  // ---------------------------------------------------------------------
  // Vectors
  // ---------------------------------------------------------------------

  function Min(a: real, b: real): (r: real)
    ensures r <= a && r <= b && (r == a || r == b)
  {
    if b < a then b else a
  }

  ghost predicate Positive(v: seq<real>)
  {
    forall i :: 0 <= i < |v| ==> v[i] > 0.0
  }

  ghost predicate Nonnegative(v: seq<real>)
  {
    forall i :: 0 <= i < |v| ==> v[i] >= 0.0
  }

  /** NumNonPositive: how many entries of v are <= 0. */
  function NumNonPositive(v: seq<real>): (k: nat)
    ensures k <= |v|
    ensures k == 0 <==> Positive(v)
  {
    if |v| == 0 then 0
    else (if v[|v| - 1] <= 0.0 then 1 else 0) + NumNonPositive(v[..|v| - 1])
  }

  /** The inner product x^T z. */
  function Dot(x: seq<real>, z: seq<real>): real
    requires |x| == |z|
  {
    if |x| == 0 then 0.0 else Dot(x[..|x| - 1], z[..|z| - 1]) + x[|x| - 1] * z[|z| - 1]
  }

  lemma {:induction false} DotPositive(x: seq<real>, z: seq<real>)
    requires |x| == |z| && |x| > 0
    requires Positive(x) && Positive(z)
    ensures Dot(x, z) > 0.0
    decreases |x|
  {
    var k := |x| - 1;
    assert x[k] * z[k] > 0.0;
    if k > 0 {
      DotPositive(x[..k], z[..k]);
    }
  }

  lemma {:induction false} DotNonnegative(x: seq<real>, z: seq<real>)
    requires |x| == |z|
    requires Nonnegative(x) && Nonnegative(z)
    ensures Dot(x, z) >= 0.0
    decreases |x|
  {
    if |x| > 0 {
      var k := |x| - 1;
      assert x[k] * z[k] >= 0.0;
      DotNonnegative(x[..k], z[..k]);
    }
  }

  /** Axpy(alpha, X, Y) on values: alpha X + Y. */
  function AxpyVec(alpha: real, x: seq<real>, y: seq<real>): (r: seq<real>)
    requires |x| == |y|
    ensures |r| == |y|
  {
    seq(|y|, i requires 0 <= i < |y| => alpha * x[i] + y[i])
  }

  /** Axpy(alpha, X, Y) in place: Y := alpha X + Y. */
  method Axpy(alpha: real, x: seq<real>, y: array<real>)
    requires |x| == y.Length
    modifies y
    ensures y[..] == AxpyVec(alpha, x, old(y[..]))
  {
    forall i | 0 <= i < y.Length {
      y[i] := alpha * x[i] + y[i];
    }
    assert forall i :: 0 <= i < y.Length ==> y[..][i] == AxpyVec(alpha, x, old(y[..]))[i];
  }

  // ---------------------------------------------------------------------
  // Step lengths
  // ---------------------------------------------------------------------

  /** x + alpha dx stays in the closed nonnegative orthant. */
  ghost predicate Feasible(x: seq<real>, dx: seq<real>, alpha: real)
    requires |x| == |dx|
  {
    forall i :: 0 <= i < |x| ==> x[i] + alpha * dx[i] >= 0.0
  }

  /** The step -x_i / dx_i at which entry i of x + alpha dx reaches zero. */
  function Ratio(xi: real, dxi: real): (r: real)
    requires dxi < 0.0
    ensures xi > 0.0 ==> r > 0.0
    ensures xi >= 0.0 ==> r >= 0.0
  {
    -xi / dxi
  }

  /**
   * The step-length loop after its first k entries: starting from bound,
   * every entry with dx_i < 0 lowers the step to at most Ratio(x_i, dx_i).
   */
  function MaxStepPrefix(x: seq<real>, dx: seq<real>, bound: real, k: nat): (alpha: real)
    requires |x| == |dx| && k <= |x|
    ensures alpha <= bound
    decreases k
  {
    if k == 0 then bound
    else
      var alpha := MaxStepPrefix(x, dx, bound, k - 1);
      if dx[k - 1] < 0.0 then Min(alpha, Ratio(x[k - 1], dx[k - 1])) else alpha
  }

  /** The largest step in [0, bound] along dx that keeps x nonnegative. */
  function MaxStep(x: seq<real>, dx: seq<real>, bound: real): real
    requires |x| == |dx|
  {
    MaxStepPrefix(x, dx, bound, |x|)
  }

  /** Every decreasing entry seen so far caps the step at its ratio. */
  lemma {:induction false} MaxStepBelowRatio(x: seq<real>, dx: seq<real>, bound: real, k: nat, i: int)
    requires |x| == |dx| && 0 <= i < k <= |x| && dx[i] < 0.0
    ensures MaxStepPrefix(x, dx, bound, k) <= Ratio(x[i], dx[i])
    decreases k
  {
    if i < k - 1 {
      MaxStepBelowRatio(x, dx, bound, k - 1, i);
    }
  }

  /** A step below the bound is the ratio of some decreasing entry, which the lemma returns. */
  lemma {:induction false} MaxStepAttained(x: seq<real>, dx: seq<real>, bound: real, k: nat) returns (i: int)
    requires |x| == |dx| && k <= |x|
    requires MaxStepPrefix(x, dx, bound, k) != bound
    ensures 0 <= i < k && dx[i] < 0.0 && MaxStepPrefix(x, dx, bound, k) == Ratio(x[i], dx[i])
    decreases k
  {
    var prev := MaxStepPrefix(x, dx, bound, k - 1);
    if dx[k - 1] < 0.0 && MaxStepPrefix(x, dx, bound, k) == Ratio(x[k - 1], dx[k - 1]) {
      i := k - 1;
    } else {
      i := MaxStepAttained(x, dx, bound, k - 1);
    }
  }

  /** From a strictly positive x and a positive bound the step is positive. */
  lemma {:induction false} MaxStepPositive(x: seq<real>, dx: seq<real>, bound: real, k: nat)
    requires |x| == |dx| && k <= |x| && Positive(x) && bound > 0.0
    ensures MaxStepPrefix(x, dx, bound, k) > 0.0
    decreases k
  {
    if k > 0 {
      MaxStepPositive(x, dx, bound, k - 1);
    }
  }

  /** With no decreasing entry the step is the bound. */
  lemma {:induction false} MaxStepUnconstrained(x: seq<real>, dx: seq<real>, bound: real, k: nat)
    requires |x| == |dx| && k <= |x|
    requires forall i :: 0 <= i < k ==> dx[i] >= 0.0
    ensures MaxStepPrefix(x, dx, bound, k) == bound
    decreases k
  {
    if k > 0 {
      MaxStepUnconstrained(x, dx, bound, k - 1);
    }
  }

  /** Ratio is where the entry vanishes: Ratio(xi, dxi) dxi == -xi. */
  lemma RatioVanishes(xi: real, dxi: real)
    requires dxi < 0.0
    ensures Ratio(xi, dxi) * dxi == -xi
  {
  }

  lemma MultiplyByPositive(a: real, b: real, c: real)
    requires a <= b && c > 0.0
    ensures c * a <= c * b
  {
    assert c * (b - a) >= 0.0;
  }

  lemma MultiplyByNegative(a: real, b: real, c: real)
    requires a <= b && c < 0.0
    ensures a * c >= b * c
    ensures a < b ==> a * c > b * c
  {
    assert (b - a) * c <= 0.0;
  }

  /** One entry of a feasible direction: a step of at most Ratio keeps it nonnegative. */
  lemma RatioStepFeasible(xi: real, dxi: real, alpha: real)
    requires xi >= 0.0 && alpha >= 0.0
    requires dxi < 0.0 ==> alpha <= Ratio(xi, dxi)
    ensures xi + alpha * dxi >= 0.0
  {
    if dxi < 0.0 {
      RatioVanishes(xi, dxi);
      MultiplyByNegative(alpha, Ratio(xi, dxi), dxi);
    } else {
      assert alpha * dxi >= 0.0;
    }
  }

  /** One entry beyond its ratio: a larger step drives it negative. */
  lemma RatioStepInfeasible(xi: real, dxi: real, alpha: real)
    requires dxi < 0.0 && alpha > Ratio(xi, dxi)
    ensures xi + alpha * dxi < 0.0
  {
    RatioVanishes(xi, dxi);
    MultiplyByNegative(Ratio(xi, dxi), alpha, dxi);
  }

  /**
   * MaxStep is the largest step in [0, bound] that keeps a nonnegative x
   * nonnegative: every smaller step is feasible and, unless it is the bound
   * itself, every larger one is not.  With no decreasing entry it is the bound.
   */
  lemma MaxStepIsLargestFeasible(x: seq<real>, dx: seq<real>, bound: real)
    requires |x| == |dx| && Nonnegative(x) && bound >= 0.0
    ensures 0.0 <= MaxStep(x, dx, bound) <= bound
    ensures forall alpha :: 0.0 <= alpha <= MaxStep(x, dx, bound) ==> Feasible(x, dx, alpha)
    ensures forall alpha :: MaxStep(x, dx, bound) < alpha <= bound ==> !Feasible(x, dx, alpha)
    ensures (forall i :: 0 <= i < |dx| ==> dx[i] >= 0.0) ==> MaxStep(x, dx, bound) == bound
  {
    var s := MaxStep(x, dx, bound);
    if s != bound {
      var i := MaxStepAttained(x, dx, bound, |x|);
    }
    if (forall i :: 0 <= i < |dx| ==> dx[i] >= 0.0) {
      MaxStepUnconstrained(x, dx, bound, |x|);
    }
    forall alpha | 0.0 <= alpha <= s
      ensures Feasible(x, dx, alpha)
    {
      MaxStepFeasible(x, dx, bound, alpha);
    }
    forall alpha | s < alpha <= bound
      ensures !Feasible(x, dx, alpha)
    {
      MaxStepMaximal(x, dx, bound, alpha);
    }
  }

  lemma MaxStepFeasible(x: seq<real>, dx: seq<real>, bound: real, alpha: real)
    requires |x| == |dx| && Nonnegative(x)
    requires 0.0 <= alpha <= MaxStep(x, dx, bound)
    ensures Feasible(x, dx, alpha)
  {
    forall i | 0 <= i < |x|
      ensures x[i] + alpha * dx[i] >= 0.0
    {
      if dx[i] < 0.0 {
        MaxStepBelowRatio(x, dx, bound, |x|, i);
      }
      RatioStepFeasible(x[i], dx[i], alpha);
    }
  }

  lemma MaxStepMaximal(x: seq<real>, dx: seq<real>, bound: real, alpha: real)
    requires |x| == |dx|
    requires MaxStep(x, dx, bound) < alpha <= bound
    ensures !Feasible(x, dx, alpha)
  {
    var i := MaxStepAttained(x, dx, bound, |x|);
    RatioStepInfeasible(x[i], dx[i], alpha);
    InfeasibleAt(x, dx, alpha, i);
  }

  lemma InfeasibleAt(x: seq<real>, dx: seq<real>, alpha: real, i: int)
    requires |x| == |dx| && 0 <= i < |x|
    requires x[i] + alpha * dx[i] < 0.0
    ensures !Feasible(x, dx, alpha)
  {
  }

  /** The affine step length alphaAff lies in (0, 1] for a strictly positive x. */
  lemma AffineStepInUnitInterval(x: seq<real>, dx: seq<real>)
    requires |x| == |dx| && Positive(x)
    ensures 0.0 < MaxStep(x, dx, 1.0) <= 1.0
  {
    MaxStepPositive(x, dx, 1.0, |x|);
  }

  /**
   * The step-length loop: the same accumulation runs for alphaAffPri,
   * alphaAffDual (bound 1) and for alphaPri, alphaDual (bound 1/maxStepRatio).
   */
  method StepLength(x: seq<real>, dx: seq<real>, bound: real) returns (alpha: real)
    requires |x| == |dx|
    ensures alpha == MaxStep(x, dx, bound)
  {
    alpha := bound;
    var i := 0;
    while i < |x|
      invariant 0 <= i <= |x|
      invariant alpha == MaxStepPrefix(x, dx, bound, i)
    {
      if dx[i] < 0.0 {
        alpha := Min(alpha, Ratio(x[i], dx[i]));
      }
      i := i + 1;
    }
  }

  /** The backed-off step: maxStepRatio times the step to the boundary from [0, 1/maxStepRatio], capped at 1. */
  function Backoff(x: seq<real>, dx: seq<real>, maxStepRatio: real): real
    requires |x| == |dx| && maxStepRatio > 0.0
  {
    Min(maxStepRatio * MaxStep(x, dx, 1.0 / maxStepRatio), 1.0)
  }

  /**
   * With 0 < maxStepRatio < 1 the backed-off step lies in (0, 1] and keeps a
   * strictly positive x strictly positive.
   */
  lemma BackoffKeepsPositive(x: seq<real>, dx: seq<real>, maxStepRatio: real)
    requires |x| == |dx| && Positive(x)
    requires 0.0 < maxStepRatio < 1.0
    ensures 0.0 < Backoff(x, dx, maxStepRatio) <= 1.0
    ensures Positive(AxpyVec(Backoff(x, dx, maxStepRatio), dx, x))
  {
    var s := MaxStep(x, dx, 1.0 / maxStepRatio);
    var alpha := Backoff(x, dx, maxStepRatio);
    MaxStepPositive(x, dx, 1.0 / maxStepRatio, |x|);
    assert alpha > 0.0 by {
      assert maxStepRatio * s > 0.0;
    }
    assert alpha <= maxStepRatio * s;
    forall i | 0 <= i < |x| && dx[i] < 0.0
      ensures s <= Ratio(x[i], dx[i])
    {
      MaxStepBelowRatio(x, dx, 1.0 / maxStepRatio, |x|, i);
    }
    BackoffUpdatePositive(x, dx, maxStepRatio, s, alpha);
  }

  lemma BackoffUpdatePositive(x: seq<real>, dx: seq<real>, maxStepRatio: real, s: real, alpha: real)
    requires |x| == |dx| && Positive(x)
    requires 0.0 < maxStepRatio < 1.0 && s > 0.0 && 0.0 < alpha <= maxStepRatio * s
    requires forall i :: 0 <= i < |x| && dx[i] < 0.0 ==> s <= Ratio(x[i], dx[i])
    ensures Positive(AxpyVec(alpha, dx, x))
  {
    var x' := AxpyVec(alpha, dx, x);
    forall i | 0 <= i < |x|
      ensures x'[i] > 0.0
    {
      BackedOffEntryPositive(x[i], dx[i], s, maxStepRatio, alpha);
    }
  }

  /** One entry of the backed-off update. */
  lemma BackedOffEntryPositive(xi: real, dxi: real, s: real, maxStepRatio: real, alpha: real)
    requires xi > 0.0 && s > 0.0 && 0.0 < maxStepRatio < 1.0
    requires 0.0 < alpha <= maxStepRatio * s
    requires dxi < 0.0 ==> s <= Ratio(xi, dxi)
    ensures alpha * dxi + xi > 0.0
  {
    if dxi < 0.0 {
      var ratio := Ratio(xi, dxi);
      RatioVanishes(xi, dxi);
      MultiplyByPositive(s, ratio, maxStepRatio);
      MultiplyByPositive(maxStepRatio, 1.0, ratio);
      MultiplyByNegative(alpha, ratio, dxi);
    } else {
      assert alpha * dxi >= 0.0;
    }
  }


  // ---------------------------------------------------------------------
  // Duality measure and centring
  // ---------------------------------------------------------------------

  /** mu = x^T z / n. */
  function Mu(x: seq<real>, z: seq<real>): real
    requires |x| == |z| && |x| > 0
  {
    Dot(x, z) / (|x| as real)
  }

  lemma MuPositive(x: seq<real>, z: seq<real>)
    requires |x| == |z| && |x| > 0 && Positive(x) && Positive(z)
    ensures Mu(x, z) > 0.0
  {
    DotPositive(x, z);
  }

  lemma MuNonnegative(x: seq<real>, z: seq<real>)
    requires |x| == |z| && |x| > 0 && Nonnegative(x) && Nonnegative(z)
    ensures Mu(x, z) >= 0.0
  {
    DotNonnegative(x, z);
  }

  /** Mehrotra's centrality parameter sigma = (muAff / mu)^3. */
  function Sigma(muAff: real, mu: real): real
    requires mu != 0.0
  {
    var t := muAff / mu;
    t * t * t
  }

  lemma SigmaNonnegative(muAff: real, mu: real)
    requires muAff >= 0.0 && mu > 0.0
    ensures Sigma(muAff, mu) >= 0.0
  {
    var t := muAff / mu;
    assert t >= 0.0;
    assert t * t >= 0.0;
  }

  /** rmu := dxAff o dzAff, the Hadamard product (DiagonalScale). */
  function Hadamard(a: seq<real>, b: seq<real>): (r: seq<real>)
    requires |a| == |b|
    ensures |r| == |a|
  {
    seq(|a|, i requires 0 <= i < |a| => a[i] * b[i])
  }

  /** Shift(rmu, s): adds s to every entry. */
  function ShiftAll(v: seq<real>, s: real): (r: seq<real>)
    ensures |r| == |v|
  {
    seq(|v|, i requires 0 <= i < |v| => v[i] + s)
  }

  /** The corrector residual rmu = dxAff o dzAff - sigma mu. */
  function CorrectorResidual(dxAff: seq<real>, dzAff: seq<real>, sigma: real, mu: real): (rmu: seq<real>)
    requires |dxAff| == |dzAff|
    ensures |rmu| == |dxAff|
    ensures forall i :: 0 <= i < |rmu| ==> rmu[i] == dxAff[i] * dzAff[i] - sigma * mu
  {
    ShiftAll(Hadamard(dzAff, dxAff), -sigma * mu)
  }

  // ---------------------------------------------------------------------
  // One iteration
  // ---------------------------------------------------------------------

  datatype Iterate = Iterate(x: seq<real>, y: seq<real>, z: seq<real>)

  datatype Direction = Direction(dx: seq<real>, dy: seq<real>, dz: seq<real>)

  /** The linear-algebra oracles: convergence test, affine solve and corrector solve. */
  datatype Oracles = Oracles(
    converged: Iterate -> bool,
    affine: Iterate -> Direction,
    corrector: (Iterate, seq<real>) -> Direction)

  /** A direction with the shapes ExpandSolution produces: dx, dz of length n and dy of length m. */
  ghost predicate Shaped(d: Direction, n: nat, m: nat)
  {
    |d.dx| == n && |d.dy| == m && |d.dz| == n
  }

  /** The solves return directions of the iterate's shape. */
  ghost predicate WellShaped(o: Oracles, n: nat, m: nat)
  {
    (forall it: Iterate :: Shaped(o.affine(it), n, m)) &&
    (forall it: Iterate, rmu: seq<real> :: Shaped(o.corrector(it, rmu), n, m))
  }

  /** x and z have n > 0 entries each and y has m. */
  ghost predicate Dims(it: Iterate, n: nat, m: nat)
  {
    n > 0 && |it.x| == n && |it.y| == m && |it.z| == n
  }

  /** x and z lie strictly inside the cone. */
  ghost predicate InCone(it: Iterate)
  {
    Positive(it.x) && Positive(it.z)
  }

  /** The combined search direction: the corrector solution plus the affine direction. */
  function SearchDirection(it: Iterate, o: Oracles): (d: Direction)
    requires Dims(it, |it.x|, |it.y|) && InCone(it) && WellShaped(o, |it.x|, |it.y|)
    ensures Shaped(d, |it.x|, |it.y|)
  {
    var aff := o.affine(it);
    var alphaAffPri := MaxStep(it.x, aff.dx, 1.0);
    var alphaAffDual := MaxStep(it.z, aff.dz, 1.0);
    MuPositive(it.x, it.z);
    var mu := Mu(it.x, it.z);
    var muAff := Mu(AxpyVec(alphaAffPri, aff.dx, it.x), AxpyVec(alphaAffDual, aff.dz, it.z));
    var sigma := Sigma(muAff, mu);
    var cor := o.corrector(it, CorrectorResidual(aff.dx, aff.dz, sigma, mu));
    Direction(AxpyVec(1.0, aff.dx, cor.dx), AxpyVec(1.0, aff.dy, cor.dy), AxpyVec(1.0, aff.dz, cor.dz))
  }

  /**
   * The predicted duality measure muAff is nonnegative and so is sigma: the
   * affine trial points stay in the closed cone.
   */
  lemma CentringNonnegative(it: Iterate, o: Oracles)
    requires Dims(it, |it.x|, |it.y|) && InCone(it) && WellShaped(o, |it.x|, |it.y|)
    ensures var aff := o.affine(it);
            var muAff := Mu(AxpyVec(MaxStep(it.x, aff.dx, 1.0), aff.dx, it.x),
                            AxpyVec(MaxStep(it.z, aff.dz, 1.0), aff.dz, it.z));
            Mu(it.x, it.z) > 0.0 && muAff >= 0.0 && Sigma(muAff, Mu(it.x, it.z)) >= 0.0
  {
    var aff := o.affine(it);
    var xt := AxpyVec(MaxStep(it.x, aff.dx, 1.0), aff.dx, it.x);
    var zt := AxpyVec(MaxStep(it.z, aff.dz, 1.0), aff.dz, it.z);
    TrialPointNonnegative(it.x, aff.dx);
    TrialPointNonnegative(it.z, aff.dz);
    MuPositive(it.x, it.z);
    MuNonnegative(xt, zt);
    SigmaNonnegative(Mu(xt, zt), Mu(it.x, it.z));
  }

  /** The affine trial point x + alphaAff dxAff lies in the closed cone. */
  lemma TrialPointNonnegative(x: seq<real>, dx: seq<real>)
    requires |x| == |dx| && Positive(x)
    ensures Nonnegative(AxpyVec(MaxStep(x, dx, 1.0), dx, x))
  {
    var alpha := MaxStep(x, dx, 1.0);
    MaxStepPositive(x, dx, 1.0, |x|);
    MaxStepFeasible(x, dx, 1.0, alpha);
    var xt := AxpyVec(alpha, dx, x);
    assert forall i :: 0 <= i < |x| ==> xt[i] == x[i] + alpha * dx[i];
  }

  /**
   * One iteration after the checks: x moves by alphaPri along dx, and y and z
   * both move by the same alphaDual along dy and dz.
   */
  function Step(it: Iterate, o: Oracles, maxStepRatio: real): (r: Iterate)
    requires Dims(it, |it.x|, |it.y|) && InCone(it) && WellShaped(o, |it.x|, |it.y|)
    requires maxStepRatio > 0.0
    ensures Dims(r, |it.x|, |it.y|)
  {
    var d := SearchDirection(it, o);
    var alphaPri := Backoff(it.x, d.dx, maxStepRatio);
    var alphaDual := Backoff(it.z, d.dz, maxStepRatio);
    Iterate(AxpyVec(alphaPri, d.dx, it.x), AxpyVec(alphaDual, d.dy, it.y), AxpyVec(alphaDual, d.dz, it.z))
  }

  /**
   * With 0 < maxStepRatio < 1 a step from inside the cone stays inside it, so
   * the cone check of the next iteration passes.
   */
  lemma StepKeepsCone(it: Iterate, o: Oracles, maxStepRatio: real)
    requires Dims(it, |it.x|, |it.y|) && InCone(it) && WellShaped(o, |it.x|, |it.y|)
    requires 0.0 < maxStepRatio < 1.0
    ensures InCone(Step(it, o, maxStepRatio))
  {
    var d := SearchDirection(it, o);
    BackoffKeepsPositive(it.x, d.dx, maxStepRatio);
    BackoffKeepsPositive(it.z, d.dz, maxStepRatio);
  }

  /**
   * The update moves along the combined direction with steps in (0, 1], and
   * y and z share one step length.
   */
  lemma StepMovesAlongDirection(it: Iterate, o: Oracles, maxStepRatio: real)
    requires Dims(it, |it.x|, |it.y|) && InCone(it) && WellShaped(o, |it.x|, |it.y|)
    requires 0.0 < maxStepRatio < 1.0
    ensures var d := SearchDirection(it, o);
            exists alphaPri, alphaDual ::
              0.0 < alphaPri <= 1.0 && 0.0 < alphaDual <= 1.0 &&
              Step(it, o, maxStepRatio) ==
                Iterate(AxpyVec(alphaPri, d.dx, it.x), AxpyVec(alphaDual, d.dy, it.y), AxpyVec(alphaDual, d.dz, it.z))
  {
    var d := SearchDirection(it, o);
    BackoffKeepsPositive(it.x, d.dx, maxStepRatio);
    BackoffKeepsPositive(it.z, d.dz, maxStepRatio);
    var alphaPri := Backoff(it.x, d.dx, maxStepRatio);
    var alphaDual := Backoff(it.z, d.dz, maxStepRatio);
    assert Step(it, o, maxStepRatio) ==
      Iterate(AxpyVec(alphaPri, d.dx, it.x), AxpyVec(alphaDual, d.dy, it.y), AxpyVec(alphaDual, d.dz, it.z));
  }

  // ---------------------------------------------------------------------
  // The iteration loop
  // ---------------------------------------------------------------------

  datatype Outcome =
    | Converged(numIts: nat)                       // the loop broke out normally
    | ConeViolation(xNumNonPos: nat, zNumNonPos: nat) // LogicError: x or z left the cone
    | MaxIterationsExceeded(maxIts: nat)           // RuntimeError at numIts == maxIts
    | NotYetSupported                              // LogicError of the sequential sparse overload

  datatype RunResult = RunResult(outcome: Outcome, numIts: nat, final: Iterate)

  /**
   * The loop from iteration numIts on: the cone check, then the convergence
   * test, then the iteration cap, then one step.
   */
  function Run(it: Iterate, numIts: nat, maxIts: nat, o: Oracles, maxStepRatio: real): (res: RunResult)
    requires Dims(it, |it.x|, |it.y|) && WellShaped(o, |it.x|, |it.y|)
    requires numIts <= maxIts && maxStepRatio > 0.0
    ensures numIts <= res.numIts <= maxIts
    ensures Dims(res.final, |it.x|, |it.y|)
    ensures res.outcome.ConeViolation? <==> !InCone(res.final)
    ensures res.outcome.ConeViolation? ==>
              res.outcome == ConeViolation(NumNonPositive(res.final.x), NumNonPositive(res.final.z))
    ensures res.outcome.Converged? ==> res.outcome.numIts == res.numIts && o.converged(res.final)
    ensures res.outcome.MaxIterationsExceeded? ==>
              res.outcome.maxIts == maxIts == res.numIts && !o.converged(res.final)
    ensures !res.outcome.NotYetSupported?
    decreases maxIts - numIts
  {
    var xNumNonPos := NumNonPositive(it.x);
    var zNumNonPos := NumNonPositive(it.z);
    if xNumNonPos > 0 || zNumNonPos > 0 then RunResult(ConeViolation(xNumNonPos, zNumNonPos), numIts, it)
    else if o.converged(it) then RunResult(Converged(numIts), numIts, it)
    else if numIts == maxIts then RunResult(MaxIterationsExceeded(maxIts), numIts, it)
    else Run(Step(it, o, maxStepRatio), numIts + 1, maxIts, o, maxStepRatio)
  }

  /**
   * With 0 < maxStepRatio < 1 the iterates never leave the cone, so the
   * LogicError is raised exactly when the starting point is outside it.
   */
  lemma {:induction false} ConeViolationOnlyAtStart(it: Iterate, numIts: nat, maxIts: nat, o: Oracles, maxStepRatio: real)
    requires Dims(it, |it.x|, |it.y|) && WellShaped(o, |it.x|, |it.y|)
    requires numIts <= maxIts && 0.0 < maxStepRatio < 1.0
    ensures Run(it, numIts, maxIts, o, maxStepRatio).outcome.ConeViolation? <==> !InCone(it)
    decreases maxIts - numIts
  {
    if InCone(it) && !o.converged(it) && numIts < maxIts {
      StepKeepsCone(it, o, maxStepRatio);
      ConeViolationOnlyAtStart(Step(it, o, maxStepRatio), numIts + 1, maxIts, o, maxStepRatio);
    }
  }

  /** A run that converges on the last allowed iteration returns normally. */
  lemma ConvergenceTestedBeforeCap(it: Iterate, maxIts: nat, o: Oracles, maxStepRatio: real)
    requires Dims(it, |it.x|, |it.y|) && WellShaped(o, |it.x|, |it.y|) && maxStepRatio > 0.0
    requires InCone(it)
    ensures Run(it, maxIts, maxIts, o, maxStepRatio).outcome ==
              if o.converged(it) then Converged(maxIts) else MaxIterationsExceeded(maxIts)
  {
  }

  /**
   * The predictor and the corrector of one iteration: the affine step
   * lengths, mu, muAff and sigma, the corrector solve and the affine direction
   * added in.
   */
  method ComputeSearchDirection(it: Iterate, o: Oracles) returns (d: Direction)
    requires Dims(it, |it.x|, |it.y|) && InCone(it) && WellShaped(o, |it.x|, |it.y|)
    ensures d == SearchDirection(it, o)
  {
    var aff := o.affine(it);
    // affine step lengths
    var alphaAffPri := StepLength(it.x, aff.dx, 1.0);
    var alphaAffDual := StepLength(it.z, aff.dz, 1.0);
    // duality measure, its affine prediction and the centrality parameter
    MuPositive(it.x, it.z);
    var mu := Mu(it.x, it.z);
    var muAff := Mu(AxpyVec(alphaAffPri, aff.dx, it.x), AxpyVec(alphaAffDual, aff.dz, it.z));
    var sigma := Sigma(muAff, mu);
    // combined direction: corrector plus affine predictor
    var rmu := CorrectorResidual(aff.dx, aff.dz, sigma, mu);
    var cor := o.corrector(it, rmu);
    d := Direction(AxpyVec(1.0, aff.dx, cor.dx), AxpyVec(1.0, aff.dy, cor.dy), AxpyVec(1.0, aff.dz, cor.dz));
  }

  /** The backed-off step length of one half of the iterate. */
  method BackoffStepLength(x: seq<real>, dx: seq<real>, maxStepRatio: real) returns (alpha: real)
    requires |x| == |dx| && maxStepRatio > 0.0
    ensures alpha == Backoff(x, dx, maxStepRatio)
  {
    alpha := StepLength(x, dx, 1.0 / maxStepRatio);
    alpha := Min(maxStepRatio * alpha, 1.0);
  }

  /** Updates x, y and z in place by one Step. */
  method Iteration(x: array<real>, y: array<real>, z: array<real>, o: Oracles, maxStepRatio: real)
    requires x != y && x != z && y != z
    requires Dims(Iterate(x[..], y[..], z[..]), x.Length, y.Length) && InCone(Iterate(x[..], y[..], z[..]))
    requires WellShaped(o, x.Length, y.Length) && maxStepRatio > 0.0
    modifies x, y, z
    ensures Iterate(x[..], y[..], z[..]) == Step(old(Iterate(x[..], y[..], z[..])), o, maxStepRatio)
  {
    var it := Iterate(x[..], y[..], z[..]);
    var d := ComputeSearchDirection(it, o);
    var alphaPri := BackoffStepLength(it.x, d.dx, maxStepRatio);
    var alphaDual := BackoffStepLength(it.z, d.dz, maxStepRatio);
    // move x by the primal step, y and z by the dual step
    Axpy(alphaPri, d.dx, x);
    Axpy(alphaDual, d.dy, y);
    Axpy(alphaDual, d.dz, z);
  }

  /**
   * The sequential dense Mehrotra loop on x, y and z in place, starting from
   * an initialised point.  It returns what Run predicts: the outcome, the
   * iteration it stopped at, and the final iterate left in x, y and z.
   */
  method Solve(x: array<real>, y: array<real>, z: array<real>, o: Oracles, maxIts: nat, maxStepRatio: real)
    returns (outcome: Outcome, numIts: nat)
    requires x != y && x != z && y != z
    requires Dims(Iterate(x[..], y[..], z[..]), x.Length, y.Length)
    requires WellShaped(o, x.Length, y.Length) && maxStepRatio > 0.0
    modifies x, y, z
    ensures var res := Run(old(Iterate(x[..], y[..], z[..])), 0, maxIts, o, maxStepRatio);
            outcome == res.outcome && numIts == res.numIts && Iterate(x[..], y[..], z[..]) == res.final
  {
    ghost var start := Iterate(x[..], y[..], z[..]);
    numIts := 0;
    while true
      invariant numIts <= maxIts
      invariant Dims(Iterate(x[..], y[..], z[..]), x.Length, y.Length)
      invariant Run(start, 0, maxIts, o, maxStepRatio) == Run(Iterate(x[..], y[..], z[..]), numIts, maxIts, o, maxStepRatio)
      decreases maxIts - numIts
    {
      // a nonpositive entry of x or z stops the solve
      var xNumNonPos := NumNonPositive(x[..]);
      var zNumNonPos := NumNonPositive(z[..]);
      if xNumNonPos > 0 || zNumNonPos > 0 {
        outcome := ConeViolation(xNumNonPos, zNumNonPos);
        return;
      }
      // the convergence oracle ends the solve successfully
      if o.converged(Iterate(x[..], y[..], z[..])) {
        outcome := Converged(numIts);
        return;
      }
      // the iteration cap is an error outcome
      if numIts == maxIts {
        outcome := MaxIterationsExceeded(maxIts);
        return;
      }
      Iteration(x, y, z, o, maxStepRatio);
      numIts := numIts + 1;
    }
  }

  /** The sequential sparse overload is not implemented; every call fails. */
  method SolveSparseSequential() returns (outcome: Outcome)
    ensures outcome.NotYetSupported?
  {
    outcome := NotYetSupported;
  }

  // ---------------------------------------------------------------------
  // Regularisation candidates of the sparse solves
  // ---------------------------------------------------------------------

  /**
   * regCand for the full KKT system, of length m + 2n: regMagPrimal on the
   * n primal entries, -regMagLagrange on the m Lagrange-multiplier entries
   * and -regMagDual on the n dual entries.
   */
  method FullRegCandidates(n: nat, m: nat, regMagPrimal: real, regMagLagrange: real, regMagDual: real)
    returns (regCand: array<real>)
    ensures fresh(regCand) && regCand.Length == m + 2 * n
    ensures forall i :: 0 <= i < n ==> regCand[i] == regMagPrimal
    ensures forall i :: n <= i < n + m ==> regCand[i] == -regMagLagrange
    ensures forall i :: n + m <= i < m + 2 * n ==> regCand[i] == -regMagDual
    ensures regMagPrimal > 0.0 && regMagLagrange > 0.0 && regMagDual > 0.0 ==>
              forall i :: 0 <= i < regCand.Length ==> (regCand[i] > 0.0 <==> i < n)
  {
    regCand := new real[m + 2 * n];
    var i := 0;
    while i < regCand.Length
      invariant 0 <= i <= regCand.Length
      invariant forall k :: 0 <= k < i && k < n ==> regCand[k] == regMagPrimal
      invariant forall k :: 0 <= k < i && n <= k < n + m ==> regCand[k] == -regMagLagrange
      invariant forall k :: 0 <= k < i && n + m <= k ==> regCand[k] == -regMagDual
    {
      if i < n {
        regCand[i] := regMagPrimal;
      } else if i < n + m {
        regCand[i] := -regMagLagrange;
      } else {
        regCand[i] := -regMagDual;
      }
      i := i + 1;
    }
  }

  /**
   * regCand for the augmented KKT system, of length n + m: regMagPrimal on
   * the n primal entries and -regMagLagrange on the m others.
   */
  method AugmentedRegCandidates(n: nat, m: nat, regMagPrimal: real, regMagLagrange: real)
    returns (regCand: array<real>)
    ensures fresh(regCand) && regCand.Length == n + m
    ensures forall i :: 0 <= i < n ==> regCand[i] == regMagPrimal
    ensures forall i :: n <= i < n + m ==> regCand[i] == -regMagLagrange
    ensures regMagPrimal > 0.0 && regMagLagrange > 0.0 ==>
              forall i :: 0 <= i < regCand.Length ==> (regCand[i] > 0.0 <==> i < n)
  {
    regCand := new real[n + m];
    var i := 0;
    while i < regCand.Length
      invariant 0 <= i <= regCand.Length
      invariant forall k :: 0 <= k < i && k < n ==> regCand[k] == regMagPrimal
      invariant forall k :: 0 <= k < i && n <= k ==> regCand[k] == -regMagLagrange
    {
      if i < n {
        regCand[i] := regMagPrimal;
      } else {
        regCand[i] := -regMagLagrange;
      }
      i := i + 1;
    }
  }
}
