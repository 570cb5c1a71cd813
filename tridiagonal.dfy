/**
 * The Thomas algorithm (forward elimination, back substitution) for a
 * tridiagonal system A·x = d of size m, where row i of A is
 * (a[i], b[i], c[i]) and a[0], c[m-1] lie outside the matrix.
 *
 * Values are exact reals. The forward sweep is specified by the recursive
 * functions Pivot, CPrime and DPrime; the relations one sweep row obeys are
 * the predicate SweepRow, and the back substitution is BackSubstituted.
 * From these, BackSubSolves proves that the result solves A·x = d and
 * SolutionUnique that no other sequence does.
 */
module Tridiagonal {

  /** The coefficient sequences are long enough for a system of size m >= 1. */
  predicate Shaped(a: seq<real>, b: seq<real>, c: seq<real>, m: nat)
  {
    1 <= m && m <= |a| && m <= |b| && m <= |c|
  }

  /** Division that is total; it agrees with `/` whenever the divisor is nonzero. */
  function Div(x: real, y: real): real
  {
    if y == 0.0 then 0.0 else x / y
  }

  /** The pivot `denom` of row i: b[0] for the first row, b[i] - a[i]·c'[i-1] after it. */
  function Pivot(a: seq<real>, b: seq<real>, c: seq<real>, i: nat): real
    requires i < |a| && i < |b| && i <= |c|
    decreases i, 0
  {
    if i == 0 then b[0] else b[i] - a[i] * CPrime(a, b, c, i - 1)
  }

  /** The modified super-diagonal c'[i] = c[i] / Pivot(i). */
  function CPrime(a: seq<real>, b: seq<real>, c: seq<real>, i: nat): real
    requires i < |a| && i < |b| && i < |c|
    decreases i, 1
  {
    Div(c[i], Pivot(a, b, c, i))
  }

  /** The modified right-hand side d'[i]. */
  function DPrime(a: seq<real>, b: seq<real>, c: seq<real>, d: seq<real>, i: nat): real
    requires i < |a| && i < |b| && i <= |c| && i < |d|
  {
    if i == 0 then Div(d[0], b[0])
    else Div(d[i] - a[i] * DPrime(a, b, c, d, i - 1), Pivot(a, b, c, i))
  }

  /** Every pivot of the first m rows is nonzero, so the forward sweep never divides by zero. */
  predicate NonzeroPivots(a: seq<real>, b: seq<real>, c: seq<real>, m: nat)
    requires Shaped(a, b, c, m)
  {
    forall i :: 0 <= i < m ==> Pivot(a, b, c, i) != 0.0
  }

  /** Row i of the product A·x, with no sub-diagonal term in the first row and no super-diagonal term in the last. */
  function MatVecRow(a: seq<real>, b: seq<real>, c: seq<real>, x: seq<real>, i: nat): real
    requires i < |x| && |x| <= |a| && |x| <= |b| && |x| <= |c|
  {
    (if i > 0 then a[i] * x[i - 1] else 0.0)
    + b[i] * x[i]
    + (if i + 1 < |x| then c[i] * x[i + 1] else 0.0)
  }

  /** x solves the tridiagonal system A·x = d. */
  predicate Solves(a: seq<real>, b: seq<real>, c: seq<real>, d: seq<real>, x: seq<real>)
    requires Shaped(a, b, c, |d|)
  {
    |x| == |d| && forall i :: 0 <= i < |d| ==> MatVecRow(a, b, c, x, i) == d[i]
  }

  /**
   * Row i of the forward sweep, with the divisions multiplied out: its pivot
   * is nonzero, c'[i]·pivot = c[i] (except in the last row, whose c' is never
   * used) and d'[i]·pivot = d[i] - a[i]·d'[i-1].
   */
  predicate SweepRow(a: seq<real>, b: seq<real>, c: seq<real>, d: seq<real>,
                     cp: seq<real>, dp: seq<real>, i: nat)
    requires Shaped(a, b, c, |d|) && |cp| == |dp| == |d| && i < |d|
  {
    var p := if i == 0 then b[0] else b[i] - a[i] * cp[i - 1];
    p != 0.0
    && (i + 1 < |d| ==> cp[i] * p == c[i])
    && dp[i] * p == d[i] - (if i == 0 then 0.0 else a[i] * dp[i - 1])
  }

  /** cp and dp are the whole forward sweep of the system. */
  predicate Swept(a: seq<real>, b: seq<real>, c: seq<real>, d: seq<real>, cp: seq<real>, dp: seq<real>)
    requires Shaped(a, b, c, |d|)
  {
    |cp| == |dp| == |d| && forall i :: 0 <= i < |d| ==> SweepRow(a, b, c, d, cp, dp, i)
  }

  /** x is the back substitution of the sweep: x[m-1] = d'[m-1] and x[i] = d'[i] - c'[i]·x[i+1]. */
  predicate BackSubstituted(cp: seq<real>, dp: seq<real>, x: seq<real>)
  {
    |cp| == |dp| == |x| >= 1
    && x[|x| - 1] == dp[|x| - 1]
    && forall i :: 0 <= i < |x| - 1 ==> x[i] == dp[i] - cp[i] * x[i + 1]
  }

  /** The algebra of one row: the eliminated equation and the back substitution give back d[i]. */
  lemma RowIdentity(lower: real, bi: real, ci: real, di: real, cpPrev: real, dpPrev: real,
                    cpi: real, dpi: real, xPrev: real, xi: real, xNext: real)
    requires bi - lower * cpPrev != 0.0
    requires cpi * (bi - lower * cpPrev) == ci
    requires dpi * (bi - lower * cpPrev) == di - lower * dpPrev
    requires xPrev == dpPrev - cpPrev * xi
    requires xi == dpi - cpi * xNext
    ensures lower * xPrev + bi * xi + ci * xNext == di
  {
    var p := bi - lower * cpPrev;
    calc {
      lower * xPrev + bi * xi + ci * xNext;
      lower * dpPrev - lower * cpPrev * xi + bi * xi + ci * xNext;
      lower * dpPrev + p * xi + ci * xNext;
      { assert p * xi == p * dpi - p * cpi * xNext; }
      lower * dpPrev + p * dpi - p * cpi * xNext + ci * xNext;
      lower * dpPrev + (di - lower * dpPrev) - ci * xNext + ci * xNext;
      di;
    }
  }

  /** Row i of A·x equals d[i] when x is the back substitution of the sweep. */
  lemma RowSolved(a: seq<real>, b: seq<real>, c: seq<real>, d: seq<real>,
                  cp: seq<real>, dp: seq<real>, x: seq<real>, i: nat)
    requires Shaped(a, b, c, |d|) && |cp| == |dp| == |x| == |d| && i < |d|
    requires SweepRow(a, b, c, d, cp, dp, i)
    requires i + 1 < |d| ==> x[i] == dp[i] - cp[i] * x[i + 1]
    requires i + 1 == |d| ==> x[i] == dp[i]
    requires i > 0 ==> x[i - 1] == dp[i - 1] - cp[i - 1] * x[i]
    ensures MatVecRow(a, b, c, x, i) == d[i]
  {
    var m := |d|;
    var lower := if i > 0 then a[i] else 0.0;
    var cpPrev := if i > 0 then cp[i - 1] else 0.0;
    var dpPrev := if i > 0 then dp[i - 1] else 0.0;
    var xPrev := if i > 0 then x[i - 1] else 0.0;
    var ci := if i + 1 < m then c[i] else 0.0;
    var cpi := if i + 1 < m then cp[i] else 0.0;
    var xNext := if i + 1 < m then x[i + 1] else 0.0;
    RowIdentity(lower, b[i], ci, d[i], cpPrev, dpPrev, cpi, dp[i], xPrev, x[i], xNext);
  }

  /** The back substitution of the sweep solves the system. */
  lemma BackSubSolves(a: seq<real>, b: seq<real>, c: seq<real>, d: seq<real>,
                      cp: seq<real>, dp: seq<real>, x: seq<real>)
    requires Shaped(a, b, c, |d|) && Swept(a, b, c, d, cp, dp) && BackSubstituted(cp, dp, x)
    ensures Solves(a, b, c, d, x)
  {
    forall i | 0 <= i < |d|
      ensures MatVecRow(a, b, c, x, i) == d[i]
    {
      RowSolved(a, b, c, d, cp, dp, x, i);
    }
  }

  /** The algebra of one row read forwards: a solution row, with the previous row eliminated, is x[i] + c'[i]·x[i+1] = d'[i]. */
  lemma EliminatedRow(lower: real, bi: real, ci: real, di: real, cpPrev: real, dpPrev: real,
                      cpi: real, dpi: real, xPrev: real, xi: real, xNext: real)
    requires bi - lower * cpPrev != 0.0
    requires cpi * (bi - lower * cpPrev) == ci
    requires dpi * (bi - lower * cpPrev) == di - lower * dpPrev
    requires xPrev == dpPrev - cpPrev * xi
    requires lower * xPrev + bi * xi + ci * xNext == di
    ensures xi == dpi - cpi * xNext
  {
    var p := bi - lower * cpPrev;
    assert p * xi + ci * xNext == di - lower * dpPrev;
    assert p * (xi + cpi * xNext) == p * dpi;
    assert (xi + cpi * xNext - dpi) * p == 0.0;
  }

  /** Every solution of the system is the back substitution of its sweep. */
  lemma {:induction false} SolvesIsBackSubstituted(a: seq<real>, b: seq<real>, c: seq<real>, d: seq<real>,
                                                   cp: seq<real>, dp: seq<real>, x: seq<real>, k: nat)
    requires Shaped(a, b, c, |d|) && Swept(a, b, c, d, cp, dp) && Solves(a, b, c, d, x) && k < |d|
    ensures forall i :: 0 <= i <= k && i + 1 < |d| ==> x[i] == dp[i] - cp[i] * x[i + 1]
    ensures k + 1 == |d| ==> x[k] == dp[k]
  {
    if k > 0 {
      SolvesIsBackSubstituted(a, b, c, d, cp, dp, x, k - 1);
    }
    var m := |d|;
    assert SweepRow(a, b, c, d, cp, dp, k);
    assert MatVecRow(a, b, c, x, k) == d[k];
    var lower := if k > 0 then a[k] else 0.0;
    var cpPrev := if k > 0 then cp[k - 1] else 0.0;
    var dpPrev := if k > 0 then dp[k - 1] else 0.0;
    var xPrev := if k > 0 then x[k - 1] else 0.0;
    var ck := if k + 1 < m then c[k] else 0.0;
    var cpk := if k + 1 < m then cp[k] else 0.0;
    var xNext := if k + 1 < m then x[k + 1] else 0.0;
    EliminatedRow(lower, b[k], ck, d[k], cpPrev, dpPrev, cpk, dp[k], xPrev, x[k], xNext);
  }

  /** Back substitution from the same sweep determines x completely. */
  lemma {:induction false} BackSubUnique(cp: seq<real>, dp: seq<real>, x: seq<real>, y: seq<real>, k: nat)
    requires BackSubstituted(cp, dp, x) && BackSubstituted(cp, dp, y) && k < |x|
    ensures forall i :: k <= i < |x| ==> x[i] == y[i]
    decreases |x| - k
  {
    if k + 1 < |x| {
      BackSubUnique(cp, dp, x, y, k + 1);
      assert x[k + 1] == y[k + 1];
      assert x[k] == dp[k] - cp[k] * x[k + 1];
      assert y[k] == dp[k] - cp[k] * y[k + 1];
    } else {
      assert x[k] == dp[k] == y[k];
    }
  }

  /** c'[0..m-1] as given by CPrime. */
  function SweepC(a: seq<real>, b: seq<real>, c: seq<real>, m: nat): (cp: seq<real>)
    requires Shaped(a, b, c, m)
    ensures |cp| == m && forall i :: 0 <= i < m ==> cp[i] == CPrime(a, b, c, i)
  {
    seq(m, i requires 0 <= i < m => CPrime(a, b, c, i))
  }

  /** d'[0..m-1] as given by DPrime. */
  function SweepD(a: seq<real>, b: seq<real>, c: seq<real>, d: seq<real>): (dp: seq<real>)
    requires Shaped(a, b, c, |d|)
    ensures |dp| == |d| && forall i :: 0 <= i < |d| ==> dp[i] == DPrime(a, b, c, d, i)
  {
    seq(|d|, i requires 0 <= i < |d| => DPrime(a, b, c, d, i))
  }

  /**
   * A sweep that agrees with CPrime (in every row but the last, whose c' is
   * never read) and with DPrime satisfies SweepRow in every row.
   */
  lemma SpecSwept(a: seq<real>, b: seq<real>, c: seq<real>, d: seq<real>, cp: seq<real>, dp: seq<real>)
    requires Shaped(a, b, c, |d|) && NonzeroPivots(a, b, c, |d|) && |cp| == |dp| == |d|
    requires forall i :: 0 <= i < |d| - 1 ==> cp[i] == CPrime(a, b, c, i)
    requires forall i :: 0 <= i < |d| ==> dp[i] == DPrime(a, b, c, d, i)
    ensures Swept(a, b, c, d, cp, dp)
  {
    forall i | 0 <= i < |d|
      ensures SweepRow(a, b, c, d, cp, dp, i)
    {
      var p := Pivot(a, b, c, i);
      assert p != 0.0;
      if i > 0 {
        assert p == b[i] - a[i] * cp[i - 1];
        assert a[i] * dp[i - 1] == a[i] * DPrime(a, b, c, d, i - 1);
      } else {
        assert dp[i] == d[0] / p;
      }
      if i + 1 < |d| {
        assert cp[i] == c[i] / p;
      }
    }
  }

  /** With nonzero pivots the system has a forward sweep. */
  lemma SweepExists(a: seq<real>, b: seq<real>, c: seq<real>, d: seq<real>) returns (cp: seq<real>, dp: seq<real>)
    requires Shaped(a, b, c, |d|) && NonzeroPivots(a, b, c, |d|)
    ensures Swept(a, b, c, d, cp, dp)
  {
    cp, dp := SweepC(a, b, c, |d|), SweepD(a, b, c, d);
    SpecSwept(a, b, c, d, cp, dp);
  }

  /** ck and dk are c'[k] and d'[k]. */
  predicate SweepAgrees(a: seq<real>, b: seq<real>, c: seq<real>, d: seq<real>, k: nat, ck: real, dk: real)
    requires Shaped(a, b, c, |d|) && k < |d|
  {
    ck == CPrime(a, b, c, k) && dk == DPrime(a, b, c, d, k)
  }

  /** The pivot the sweep loop computes from c'[i-1] is Pivot(i), which is nonzero. */
  lemma PivotStep(a: seq<real>, b: seq<real>, c: seq<real>, m: nat, i: nat, cPrev: real, denom: real)
    requires Shaped(a, b, c, m) && NonzeroPivots(a, b, c, m) && 0 < i < m
    requires cPrev == CPrime(a, b, c, i - 1) && denom == b[i] - a[i] * cPrev
    ensures denom == Pivot(a, b, c, i) && denom != 0.0
  {
    assert Pivot(a, b, c, i) != 0.0;
  }

  /** Dividing c[i] by the pivot of row i gives c'[i]. */
  lemma CStep(a: seq<real>, b: seq<real>, c: seq<real>, i: nat, denom: real, cNew: real)
    requires Shaped(a, b, c, i + 1)
    requires denom == Pivot(a, b, c, i) && denom != 0.0
    requires cNew == c[i] / denom
    ensures cNew == CPrime(a, b, c, i)
  {
    assert CPrime(a, b, c, i) == Div(c[i], denom);
  }

  /** The loop's update of the right-hand side gives d'[i]. */
  lemma DStep(a: seq<real>, b: seq<real>, c: seq<real>, d: seq<real>, i: nat, dPrev: real, denom: real, dNew: real)
    requires Shaped(a, b, c, |d|) && 0 < i < |d|
    requires dPrev == DPrime(a, b, c, d, i - 1)
    requires denom == Pivot(a, b, c, i) && denom != 0.0
    requires dNew == (d[i] - a[i] * dPrev) / denom
    ensures dNew == DPrime(a, b, c, d, i)
  {
    assert a[i] * dPrev == a[i] * DPrime(a, b, c, d, i - 1);
  }

  /** With nonzero pivots the system has at most one solution. */
  lemma SolutionUnique(a: seq<real>, b: seq<real>, c: seq<real>, d: seq<real>, x: seq<real>, y: seq<real>)
    requires Shaped(a, b, c, |d|) && NonzeroPivots(a, b, c, |d|)
    requires Solves(a, b, c, d, x) && Solves(a, b, c, d, y)
    ensures x == y
  {
    var cp, dp := SweepExists(a, b, c, d);
    SolvesIsBackSubstituted(a, b, c, d, cp, dp, x, |d| - 1);
    SolvesIsBackSubstituted(a, b, c, d, cp, dp, y, |d| - 1);
    BackSubUnique(cp, dp, x, y, 0);
  }

  /** The pivots of rows 0..i never read a[0] or c[m-1]. */
  lemma {:induction false} PivotIgnoresCorners(a: seq<real>, b: seq<real>, c: seq<real>, m: nat,
                                               a0: real, cLast: real, i: nat)
    requires Shaped(a, b, c, m) && |a| == |b| == |c| == m && i < m
    ensures Pivot(a[0 := a0], b, c[m - 1 := cLast], i) == Pivot(a, b, c, i)
    ensures i + 1 < m ==> CPrime(a[0 := a0], b, c[m - 1 := cLast], i) == CPrime(a, b, c, i)
  {
    if i > 0 {
      PivotIgnoresCorners(a, b, c, m, a0, cLast, i - 1);
    }
  }

  /**
   * The solution never depends on a[0] or c[m-1]: replacing them gives a
   * system with the same pivots and the same unique solution.
   */
  lemma SolutionIgnoresCorners(a: seq<real>, b: seq<real>, c: seq<real>, d: seq<real>,
                               a0: real, cLast: real, x: seq<real>, y: seq<real>)
    requires Shaped(a, b, c, |d|) && |a| == |b| == |c| == |d| && NonzeroPivots(a, b, c, |d|)
    requires Solves(a, b, c, d, x) && Solves(a[0 := a0], b, c[|d| - 1 := cLast], d, y)
    ensures NonzeroPivots(a[0 := a0], b, c[|d| - 1 := cLast], |d|)
    ensures x == y
  {
    var m := |d|;
    var a', c' := a[0 := a0], c[m - 1 := cLast];
    forall i | 0 <= i < m
      ensures Pivot(a', b, c', i) != 0.0
    {
      PivotIgnoresCorners(a, b, c, m, a0, cLast, i);
    }
    forall i | 0 <= i < m
      ensures MatVecRow(a, b, c, y, i) == d[i]
    {
      assert MatVecRow(a, b, c, y, i) == MatVecRow(a', b, c', y, i);
    }
    SolutionUnique(a, b, c, d, x, y);
  }

  /**
   * For the constant matrix with off-diagonal -s and diagonal 1 + 2s, s >= 0,
   * every pivot is at least 1 + s (the matrix is diagonally dominant). Only
   * the entries the sweep reads are constrained: a[0] and c[m-1] are free.
   */
  lemma {:induction false} ConstantMatrixPivots(a: seq<real>, b: seq<real>, c: seq<real>, s: real, i: nat)
    requires 0.0 <= s && i < |a| == |b| == |c|
    requires forall j :: 0 < j < |a| ==> a[j] == -s
    requires forall j :: 0 <= j < |b| ==> b[j] == 1.0 + 2.0 * s
    requires forall j :: 0 <= j < |c| - 1 ==> c[j] == -s
    ensures Pivot(a, b, c, i) >= 1.0 + s
  {
    if i > 0 {
      ConstantMatrixPivots(a, b, c, s, i - 1);
      var p := Pivot(a, b, c, i - 1);
      var q := CPrime(a, b, c, i - 1);
      assert q * p == -s;
      assert (q + 1.0) * p == p - s;
      assert q + 1.0 > 0.0;
      NonnegativeProduct(s, q + 1.0);
      assert Pivot(a, b, c, i) == 1.0 + s + s * (q + 1.0);
    }
  }

  lemma NonnegativeProduct(x: real, y: real)
    requires 0.0 <= x && 0.0 <= y
    ensures 0.0 <= x * y
  {
  }

  /** The constant implicit-scheme matrices never have a zero pivot. */
  lemma ConstantMatrixNonsingular(a: seq<real>, b: seq<real>, c: seq<real>, s: real)
    requires 0.0 <= s && 1 <= |a| == |b| == |c|
    requires forall j :: 0 < j < |a| ==> a[j] == -s
    requires forall j :: 0 <= j < |b| ==> b[j] == 1.0 + 2.0 * s
    requires forall j :: 0 <= j < |c| - 1 ==> c[j] == -s
    ensures NonzeroPivots(a, b, c, |a|)
  {
    forall i | 0 <= i < |a|
      ensures Pivot(a, b, c, i) != 0.0
    {
      ConstantMatrixPivots(a, b, c, s, i);
    }
  }

  /**
   * The forward sweep of thomasAlgorithm in internal/solver/solver.go and
   * main.go: c'[i] and d'[i] for every row, including c' of the last row.
   */
  method ForwardSweep(a: seq<real>, b: seq<real>, c: seq<real>, d: seq<real>) returns (cp: seq<real>, dp: seq<real>)
    requires Shaped(a, b, c, |d|) && NonzeroPivots(a, b, c, |d|)
    ensures Swept(a, b, c, d, cp, dp)
    ensures forall i :: 0 <= i < |d| ==> cp[i] == CPrime(a, b, c, i) && dp[i] == DPrime(a, b, c, d, i)
  {
    var n := |d|;
    var cs := new real[n];
    var ds := new real[n];

    assert Pivot(a, b, c, 0) == b[0];
    cs[0] := c[0] / b[0];
    ds[0] := d[0] / b[0];

    for i := 1 to n
      invariant forall k :: 0 <= k < i ==> SweepAgrees(a, b, c, d, k, cs[k], ds[k])
    {
      var cPrev, dPrev := cs[i - 1], ds[i - 1];
      assert SweepAgrees(a, b, c, d, i - 1, cPrev, dPrev);
      var denom := b[i] - a[i] * cPrev;
      PivotStep(a, b, c, n, i, cPrev, denom);
      cs[i] := c[i] / denom;
      ds[i] := (d[i] - a[i] * dPrev) / denom;
      CStep(a, b, c, i, denom, cs[i]);
      DStep(a, b, c, d, i, dPrev, denom, ds[i]);
    }
    cp, dp := cs[..], ds[..];
    forall k | 0 <= k < n
      ensures cp[k] == CPrime(a, b, c, k) && dp[k] == DPrime(a, b, c, d, k)
    {
      assert SweepAgrees(a, b, c, d, k, cs[k], ds[k]);
    }
    SpecSwept(a, b, c, d, cp, dp);
  }

  /**
   * The forward sweep of thomasAlgorithm in heat-solver-main/main.go: c' of
   * the last row is set to 0 instead of being computed.
   */
  method ForwardSweepLastRowGuard(a: seq<real>, b: seq<real>, c: seq<real>, d: seq<real>)
    returns (cp: seq<real>, dp: seq<real>)
    requires Shaped(a, b, c, |d|) && NonzeroPivots(a, b, c, |d|)
    ensures Swept(a, b, c, d, cp, dp)
    ensures |d| > 1 ==> cp[|d| - 1] == 0.0
    ensures cp[0] == CPrime(a, b, c, 0)
    ensures forall i :: 0 <= i < |d| - 1 ==> cp[i] == CPrime(a, b, c, i)
    ensures forall i :: 0 <= i < |d| ==> dp[i] == DPrime(a, b, c, d, i)
  {
    var n := |d|;
    var cs := new real[n];
    var ds := new real[n];

    assert Pivot(a, b, c, 0) == b[0];
    cs[0] := c[0] / b[0];
    ds[0] := d[0] / b[0];

    for i := 1 to n
      invariant forall k :: 0 <= k < i && (k == 0 || k < n - 1) ==> SweepAgrees(a, b, c, d, k, cs[k], ds[k])
      invariant 1 < i == n ==> cs[n - 1] == 0.0 && ds[n - 1] == DPrime(a, b, c, d, n - 1)
    {
      var cPrev, dPrev := cs[i - 1], ds[i - 1];
      assert SweepAgrees(a, b, c, d, i - 1, cPrev, dPrev);
      var denom := b[i] - a[i] * cPrev;
      PivotStep(a, b, c, n, i, cPrev, denom);
      cs[i] := 0.0;
      if i < n - 1 {
        cs[i] := c[i] / denom;
        CStep(a, b, c, i, denom, cs[i]);
      }
      ds[i] := (d[i] - a[i] * dPrev) / denom;
      DStep(a, b, c, d, i, dPrev, denom, ds[i]);
    }
    cp, dp := cs[..], ds[..];
    forall k | 0 <= k < n - 1
      ensures cp[k] == CPrime(a, b, c, k) && dp[k] == DPrime(a, b, c, d, k)
    {
      assert SweepAgrees(a, b, c, d, k, cs[k], ds[k]);
    }
    assert SweepAgrees(a, b, c, d, 0, cs[0], ds[0]);
    SpecSwept(a, b, c, d, cp, dp);
  }

  /** The back substitution shared by every copy of thomasAlgorithm. */
  method BackSubstitute(cp: seq<real>, dp: seq<real>) returns (x: seq<real>)
    requires |cp| == |dp| >= 1
    ensures BackSubstituted(cp, dp, x)
  {
    var n := |dp|;
    var xs := new real[n];
    xs[n - 1] := dp[n - 1];
    var i := n - 2;
    while i >= 0
      invariant -1 <= i <= n - 2
      invariant xs[n - 1] == dp[n - 1]
      invariant forall k :: i < k < n - 1 ==> xs[k] == dp[k] - cp[k] * xs[k + 1]
    {
      xs[i] := dp[i] - cp[i] * xs[i + 1];
      i := i - 1;
    }
    x := xs[..];
  }

  /** thomasAlgorithm as it stands in internal/solver/solver.go and main.go. */
  method Thomas(a: seq<real>, b: seq<real>, c: seq<real>, d: seq<real>) returns (x: seq<real>)
    requires Shaped(a, b, c, |d|) && NonzeroPivots(a, b, c, |d|)
    ensures Solves(a, b, c, d, x)
  {
    var cp, dp := ForwardSweep(a, b, c, d);
    x := BackSubstitute(cp, dp);
    BackSubSolves(a, b, c, d, cp, dp, x);
  }

  /**
   * thomasAlgorithm as it stands in heat-solver-main/main.go. The last c' it
   * zeroes is never read, so the result is the same solution.
   */
  method ThomasLastRowGuard(a: seq<real>, b: seq<real>, c: seq<real>, d: seq<real>) returns (x: seq<real>)
    requires Shaped(a, b, c, |d|) && NonzeroPivots(a, b, c, |d|)
    ensures Solves(a, b, c, d, x)
  {
    var cp, dp := ForwardSweepLastRowGuard(a, b, c, d);
    x := BackSubstitute(cp, dp);
    BackSubSolves(a, b, c, d, cp, dp, x);
  }
}
