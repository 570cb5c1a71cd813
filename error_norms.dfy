/**
 * The error norms of the final time level against the analytic solution,
 * as computeErrors accumulates them: the pointwise errors |u − exact| are
 * summed in square (sumSq) and folded into a running maximum (linf) that
 * starts at 0 and is replaced only by a strictly larger error. The square
 * root that turns the mean square into the L2 norm is not modelled: the
 * mean square sumSq / count is reported instead.
 *
 * A field entry of the variant that skips non-finite values is a Float: a
 * finite real, or one of the three non-finite IEEE classes.
 */
module ErrorNorms {

  datatype Float = Finite(value: real) | NaN | PosInf | NegInf

  function Abs(x: real): (y: real)
    ensures y >= 0.0 && (y == x || y == -x)
  {
    if x < 0.0 then -x else x
  }

  /** Sum of squares of e, accumulated front to back. */
  function SumSq(e: seq<real>): real
  {
    if |e| == 0 then 0.0 else SumSq(e[..|e| - 1]) + e[|e| - 1] * e[|e| - 1]
  }

  /** The running maximum of e from 0, replaced only by a strictly larger entry. */
  function Peak(e: seq<real>): real
  {
    if |e| == 0 then 0.0
    else
      var p := Peak(e[..|e| - 1]);
      if e[|e| - 1] > p then e[|e| - 1] else p
  }

  /** The final time level of a field, node by node. */
  function FinalLevel<T>(u: array2<T>): (row: seq<T>)
    requires u.Length0 >= 1
    reads u
    ensures |row| == u.Length1 && forall i :: 0 <= i < |row| ==> row[i] == u[u.Length0 - 1, i]
  {
    seq(u.Length1, i requires 0 <= i < u.Length1 reads u => u[u.Length0 - 1, i])
  }

  /** The analytic solution at node i, x = i·dx, at time t. */
  function ExactValue(exact: (real, real) -> real, dx: real, t: real, i: nat): real
  {
    exact(i as real * dx, t)
  }

  /**
   * Evaluates the analytic solution at node i, x = i·dx, as the loops of
   * computeErrors do. This is a proof-splitting helper, not a specification:
   * its ensures only names the value for the loops that call it.
   */
  method ExactAt(exact: (real, real) -> real, dx: real, t: real, i: nat) returns (ex: real)
    ensures ex == ExactValue(exact, dx, t, i)
  {
    var x := i as real * dx;
    ex := exact(x, t);
  }

  /** The analytic solution at the nodes i < m at time t. */
  function Reference(exact: (real, real) -> real, dx: real, t: real, m: nat): (ref: seq<real>)
    ensures |ref| == m && forall i :: 0 <= i < m ==> ref[i] == ExactValue(exact, dx, t, i)
  {
    seq(m, i requires 0 <= i < m => ExactValue(exact, dx, t, i))
  }

  /** The pointwise errors |row[i] − ref[i]| of every node. */
  function Errors(row: seq<real>, ref: seq<real>): (e: seq<real>)
    requires |row| == |ref|
    ensures |e| == |row| && forall i :: 0 <= i < |e| ==> e[i] == Abs(row[i] - ref[i])
  {
    seq(|row|, i requires 0 <= i < |row| => Abs(row[i] - ref[i]))
  }

  /** The pointwise errors of the finite entries of row only, in node order. */
  function FiniteErrors(row: seq<Float>, ref: seq<real>): (e: seq<real>)
    requires |row| == |ref|
    ensures |e| <= |row| && forall k :: 0 <= k < |e| ==> e[k] >= 0.0
  {
    if |row| == 0 then []
    else
      var rest := FiniteErrors(row[..|row| - 1], ref[..|ref| - 1]);
      match row[|row| - 1]
      case Finite(v) => rest + [Abs(v - ref[|ref| - 1])]
      case _ => rest
  }

  /** Appending one error adds its square to the sum and may raise the maximum. */
  lemma Snoc(e: seq<real>, x: real)
    ensures SumSq(e + [x]) == SumSq(e) + x * x
    ensures Peak(e + [x]) == if x > Peak(e) then x else Peak(e)
  {
    assert (e + [x])[..|e|] == e;
  }

  /**
   * One step of the accumulation loop: if sumSq and peak are the norms of
   * the errors of the first i nodes and x is the error of node i, the
   * updated accumulators are the norms of the first i + 1.
   */
  lemma Accumulate(e: seq<real>, i: nat, sumSq: real, peak: real, x: real)
    requires i < |e| && x == e[i]
    requires sumSq == SumSq(e[..i]) && peak == Peak(e[..i])
    ensures sumSq + x * x == SumSq(e[..i + 1])
    ensures (if x > peak then x else peak) == Peak(e[..i + 1])
  {
    assert e[..i + 1] == e[..i] + [x];
    Snoc(e[..i], x);
  }

  /** The errors of the first i + 1 nodes are those of the first i and the error of node i. */
  lemma ErrorsSnoc(row: seq<real>, ref: seq<real>, i: nat)
    requires |row| == |ref| && i < |row|
    ensures Errors(row[..i + 1], ref[..i + 1]) == Errors(row[..i], ref[..i]) + [Abs(row[i] - ref[i])]
  {
  }

  /** The finite errors of the first i + 1 nodes extend those of the first i by node i's, if it is finite. */
  lemma FiniteErrorsSnoc(row: seq<Float>, ref: seq<real>, i: nat)
    requires |row| == |ref| && i < |row|
    ensures FiniteErrors(row[..i + 1], ref[..i + 1]) ==
      FiniteErrors(row[..i], ref[..i]) + if row[i].Finite? then [Abs(row[i].value - ref[i])] else []
  {
    assert row[..i + 1][..i] == row[..i] && ref[..i + 1][..i] == ref[..i];
  }

  /** A node that is not finite adds no error. */
  lemma FiniteSkip(row: seq<Float>, ref: seq<real>, i: nat)
    requires |row| == |ref| && i < |row| && !row[i].Finite?
    ensures FiniteErrors(row[..i + 1], ref[..i + 1]) == FiniteErrors(row[..i], ref[..i])
  {
    FiniteErrorsSnoc(row, ref, i);
  }

  /**
   * One step of the accumulation loop that skips non-finite entries, at a
   * finite node i whose error is x: if count, sumSq and peak are the count
   * and norms of the finite errors of the first i nodes, the updated
   * accumulators are those of the first i + 1.
   */
  lemma FiniteAccumulate(row: seq<Float>, ref: seq<real>, i: nat, count: nat, sumSq: real, peak: real, x: real)
    requires |row| == |ref| && i < |row| && row[i].Finite? && x == Abs(row[i].value - ref[i])
    requires var e := FiniteErrors(row[..i], ref[..i]);
      count == |e| && sumSq == SumSq(e) && peak == Peak(e)
    ensures var e := FiniteErrors(row[..i + 1], ref[..i + 1]);
      count + 1 == |e| && sumSq + x * x == SumSq(e) && (if x > peak then x else peak) == Peak(e)
  {
    FiniteErrorsSnoc(row, ref, i);
    Snoc(FiniteErrors(row[..i], ref[..i]), x);
  }

  /** The running maximum bounds every entry from above, and is never negative. */
  lemma {:induction false} PeakBounds(e: seq<real>)
    ensures Peak(e) >= 0.0
    ensures forall k :: 0 <= k < |e| ==> e[k] <= Peak(e)
  {
    if |e| > 0 {
      var front := e[..|e| - 1];
      PeakBounds(front);
      forall k | 0 <= k < |e| - 1
        ensures e[k] <= Peak(e)
      {
        assert e[k] == front[k];
      }
    }
  }

  /** The running maximum is the initial 0 or one of the entries. */
  lemma {:induction false} PeakAttained(e: seq<real>)
    ensures Peak(e) == 0.0 || Peak(e) in e
  {
    if |e| > 0 {
      var front := e[..|e| - 1];
      PeakAttained(front);
      if Peak(front) in front {
        var k :| 0 <= k < |front| && front[k] == Peak(front);
        assert e[k] == front[k];
      }
    }
  }

  /** An entry no larger than a bound has a square no larger than the bound's square. */
  lemma SquareBelow(x: real, p: real)
    requires 0.0 <= x <= p
    ensures x * x <= p * p
  {
    assert x * x <= x * p;
    assert x * p <= p * p;
  }

  /** If every entry lies in [0, p], the sum of squares is at most |e|·p². */
  lemma {:induction false} SumSqBelow(e: seq<real>, p: real)
    requires forall k :: 0 <= k < |e| ==> 0.0 <= e[k] <= p
    ensures SumSq(e) <= |e| as real * (p * p)
  {
    if |e| > 0 {
      var front := e[..|e| - 1];
      assert forall k :: 0 <= k < |front| ==> front[k] == e[k];
      SumSqBelow(front, p);
      SquareBelow(e[|e| - 1], p);
    }
  }

  /**
   * The mean-square error never exceeds the square of the maximum error:
   * the L2 norm computeErrors reports is at most its L∞ norm.
   */
  lemma MeanSquareBelowPeak(e: seq<real>)
    requires |e| > 0 && forall k :: 0 <= k < |e| ==> e[k] >= 0.0
    ensures SumSq(e) / |e| as real <= Peak(e) * Peak(e)
  {
    PeakBounds(e);
    SumSqBelow(e, Peak(e));
    var n := |e| as real;
    assert SumSq(e) <= n * (Peak(e) * Peak(e));
    QuotientBelow(SumSq(e), n, Peak(e) * Peak(e));
  }

  lemma QuotientBelow(s: real, n: real, q: real)
    requires n > 0.0 && s <= n * q
    ensures s / n <= q
  {
    assert s / n * n == s;
  }

  /** No error is counted exactly when no entry of the row is finite. */
  lemma {:induction false} NoFiniteErrors(row: seq<Float>, ref: seq<real>)
    requires |row| == |ref|
    ensures |FiniteErrors(row, ref)| == 0 <==> forall i :: 0 <= i < |row| ==> !row[i].Finite?
  {
    if |row| > 0 {
      var front, rfront := row[..|row| - 1], ref[..|ref| - 1];
      NoFiniteErrors(front, rfront);
      assert forall i :: 0 <= i < |front| ==> front[i] == row[i];
    }
  }

  /** The error of every finite entry is among the counted errors. */
  lemma {:induction false} FiniteErrorCounted(row: seq<Float>, ref: seq<real>, i: nat)
    requires |row| == |ref| && i < |row| && row[i].Finite?
    ensures Abs(row[i].value - ref[i]) in FiniteErrors(row, ref)
  {
    var front, rfront := row[..|row| - 1], ref[..|ref| - 1];
    if i < |row| - 1 {
      FiniteErrorCounted(front, rfront, i);
      assert front[i] == row[i] && rfront[i] == ref[i];
    }
  }

  /** A row of reals as a row of finite IEEE values. */
  function AllFinite(row: seq<real>): (w: seq<Float>)
    ensures |w| == |row| && forall i :: 0 <= i < |w| ==> w[i] == Finite(row[i])
  {
    seq(|row|, i requires 0 <= i < |row| => Finite(row[i]))
  }

  /**
   * On a row with no NaN or infinite node, skipping the non-finite nodes
   * skips nothing: both variants of computeErrors see the same errors.
   */
  lemma {:induction false} AllFiniteErrors(row: seq<real>, ref: seq<real>)
    requires |row| == |ref|
    ensures FiniteErrors(AllFinite(row), ref) == Errors(row, ref)
  {
    if |row| > 0 {
      var n := |row| - 1;
      var front, rfront := row[..n], ref[..n];
      AllFiniteErrors(front, rfront);
      assert AllFinite(row)[..n] == AllFinite(front);
      ErrorsSnoc(row, ref, n);
      assert row[..n + 1] == row && ref[..n + 1] == ref;
    }
  }
}
