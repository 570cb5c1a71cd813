/**
 * computeErrors of main.go: the error norms of the final time level
 * against the analytic solution, over all nx + 1 nodes and with no check
 * for non-finite values. The square root that turns the mean square into
 * the L2 norm is left out: the mean square sumSq / (nx + 1) is returned,
 * NaN when the level is empty
 * (0/0 in IEEE arithmetic). The solvers of main.go are those of module
 * Solver.
 */
module RootMain {
  import opened ErrorNorms

  /** The pointwise errors of the final level nt against the analytic solution at time nt·dt. */
  function FinalErrors(u: array2<real>, dx: real, dt: real, exact: (real, real) -> real): (e: seq<real>)
    requires u.Length0 >= 1
    reads u
    ensures |e| == u.Length1
    ensures forall i :: 0 <= i < |e| ==>
      e[i] == Abs(u[u.Length0 - 1, i] - ExactValue(exact, dx, (u.Length0 - 1) as real * dt, i))
  {
    Errors(FinalLevel(u), Reference(exact, dx, (u.Length0 - 1) as real * dt, u.Length1))
  }

  /**
   * The error of node i of the final level, as the body of the loop of
   * computeErrors computes it. This is a proof-splitting helper, not a
   * specification: its ensures only ties the value to FinalErrors.
   */
  method NodeError(u: array2<real>, dx: real, dt: real, exact: (real, real) -> real, i: nat) returns (err: real)
    requires u.Length0 >= 1 && i < u.Length1
    ensures err == FinalErrors(u, dx, dt, exact)[i]
  {
    var nt := u.Length0 - 1;
    var t := nt as real * dt;
    var ex := ExactAt(exact, dx, t, i);
    err := Abs(u[nt, i] - ex);
    assert t == (u.Length0 - 1) as real * dt;
  }

  /**
   * The error norms of the final level nt = len(u) − 1 at time t = nt·dt,
   * the analytic solution being exact(x, t): linf is the running maximum
   * Peak of the pointwise errors and meanSq their mean square, NaN when the
   * level has no node. linf is never negative and bounds every pointwise
   * error; MeanSquareBelowPeak bounds meanSq by linf².
   */
  method ComputeErrors(u: array2<real>, dx: real, dt: real, exact: (real, real) -> real) returns (meanSq: Float, linf: real)
    requires u.Length0 >= 1
    ensures var e := FinalErrors(u, dx, dt, exact);
      linf == Peak(e) && meanSq == if |e| == 0 then NaN else Finite(SumSq(e) / |e| as real)
    ensures linf >= 0.0 && forall k :: 0 <= k < u.Length1 ==> FinalErrors(u, dx, dt, exact)[k] <= linf
  {
    ghost var e := FinalErrors(u, dx, dt, exact);
    var sumSq, peak := 0.0, 0.0;
    for i := 0 to u.Length1
      invariant sumSq == SumSq(e[..i]) && peak == Peak(e[..i])
    {
      var err := NodeError(u, dx, dt, exact, i);
      Accumulate(e, i, sumSq, peak, err);
      sumSq := sumSq + err * err;
      if err > peak {
        peak := err;
      }
    }
    assert e[..u.Length1] == e;
    PeakBounds(e);
    linf := peak;
    meanSq := if u.Length1 == 0 then NaN else Finite(sumSq / u.Length1 as real);
  }
}
