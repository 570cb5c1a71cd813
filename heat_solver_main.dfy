/**
 * The solvers and error norms of heat-solver-main/main.go. They differ from
 * those of internal/solver/solver.go in where the boundary nodes are pinned
 * and in what feeds the right-hand side:
 *
 *   - r = α·dt/dx², the diffusivity α being a parameter;
 *   - level 0 holds the initial condition on every node, boundaries included;
 *   - the explicit scheme pins level n to 0 at its ends just before it is
 *     used, and level nt after the loop;
 *   - the implicit schemes pin level n + 1 before solving for it, use no
 *     boundary injection, and set the matrix corners a[0] and c[m-1] to 0;
 *   - computeErrors skips NaN and infinite nodes and reports NaN for both
 *     norms when no node is left.
 */
module HeatSolverMain {
  import opened Tridiagonal
  import opened Stepping
  import opened ErrorNorms

  /**
   * Pins both ends of level n to 0, as the first statements of each step of
   * solveFTCS and the statements after its loop do. No interior node moves,
   * so the explicit equations of levels 1..n still hold.
   */
  method PinLevel(u: array2<real>, n: nat, nx: nat, r: real)
    requires n < u.Length0 && u.Length1 == nx + 1
    modifies u
    ensures u[n, 0] == 0.0 && u[n, nx] == 0.0
    ensures forall k, i :: 0 <= k < u.Length0 && 0 <= i < u.Length1 && !(k == n && (i == 0 || i == nx)) ==>
      u[k, i] == old(u[k, i])
    ensures old(FtcsUpTo(u, r, n)) ==> FtcsUpTo(u, r, n)
  {
    u[n, 0] := 0.0;
    u[n, nx] := 0.0;
    if old(FtcsUpTo(u, r, n)) {
      forall k: nat, i: nat | k < n && k + 1 < u.Length0 && 0 < i < u.Length1 - 1
        ensures FtcsNode(u, r, k, i)
      {
        assert old(FtcsNode(u, r, k, i));
        assert u[k + 1, i] == old(u[k + 1, i]);
        assert u[k, i - 1] == old(u[k, i - 1]) && u[k, i] == old(u[k, i]) && u[k, i + 1] == old(u[k, i + 1]);
      }
    }
  }

  /**
   * The explicit scheme with r = α·dt/dx². warned is the stability warning,
   * raised exactly when r > 1/2. At the end every level is pinned to 0 at
   * both ends, level 0's interior is the initial condition, and every
   * interior node of level n + 1 is the FTCS update of the pinned level n.
   */
  method SolveFTCS(nx: nat, nt: nat, dx: real, dt: real, alpha: real, ic: real -> real) returns (u: array2<real>, warned: bool)
    requires dx != 0.0
    ensures fresh(u) && u.Length0 == nt + 1 && u.Length1 == nx + 1
    ensures warned <==> alpha * dt / (dx * dx) > 0.5
    ensures forall n :: 0 <= n <= nt ==> u[n, 0] == 0.0 && u[n, nx] == 0.0
    ensures forall i :: 0 < i < nx ==> u[0, i] == InitialValue(ic, dx, i)
    ensures FtcsUpTo(u, alpha * dt / (dx * dx), nt)
  {
    var r := alpha * dt / (dx * dx);
    warned := r > 0.5;
    u := InitialLevel(nx, nt, dx, ic);
    for n := 0 to nt
      modifies u
      invariant forall k :: 0 <= k < n ==> u[k, 0] == 0.0 && u[k, nx] == 0.0
      invariant forall i :: 0 < i < nx ==> u[0, i] == InitialValue(ic, dx, i)
      invariant FtcsUpTo(u, r, n)
    {
      PinLevel(u, n, nx, r);
      FtcsLevel(u, n, r);
    }
    PinLevel(u, nt, nx, r);
  }

  /**
   * One BTCS step of solveBTCS: level n + 1 is pinned to 0 at both ends, d
   * becomes level n's interior with no boundary term, and the solution of
   * the system with rows (a[j], b[j], c[j]) fills the interior of level
   * n + 1, so that every interior node of it satisfies the implicit
   * equation. Nothing outside level n + 1 changes.
   */
  method BtcsLevel(u: array2<real>, n: nat, nx: nat, r: real, a: array<real>, b: array<real>, c: array<real>)
    requires n + 1 < u.Length0 && u.Length1 == nx + 1 && nx >= 2
    requires a.Length == b.Length == c.Length == nx - 1
    requires forall j :: 0 < j < a.Length ==> a[j] == -r
    requires forall j :: 0 <= j < b.Length ==> b[j] == 1.0 + 2.0 * r
    requires forall j :: 0 <= j < c.Length - 1 ==> c[j] == -r
    requires NonzeroPivots(a[..], b[..], c[..], a.Length)
    modifies u
    ensures u[n + 1, 0] == 0.0 && u[n + 1, nx] == 0.0
    ensures forall i: nat :: 0 < i < nx ==> BtcsNode(u, r, n, i)
    ensures old(BtcsUpTo(u, r, n)) ==> BtcsUpTo(u, r, n + 1)
    ensures forall k, i :: 0 <= k < u.Length0 && 0 <= i < u.Length1 && k != n + 1 ==> u[k, i] == old(u[k, i])
  {
    u[n + 1, 0] := 0.0;
    u[n + 1, nx] := 0.0;
    var d := new real[nx - 1];
    CopyInterior(u, n, d);
    var x := ThomasLastRowGuard(a[..], b[..], c[..], d[..]);
    WriteSolution(u, n + 1, x, a[..], b[..], c[..], d[..], r, 1.0 + 2.0 * r, d[..]);
    if old(BtcsUpTo(u, r, n)) {
      forall k: nat, i: nat | k < n && 0 < i < u.Length1 - 1
        ensures BtcsNode(u, r, k, i)
      {
        assert old(BtcsNode(u, r, k, i));
        assert u[k + 1, i - 1] == old(u[k + 1, i - 1]) && u[k + 1, i] == old(u[k + 1, i]) && u[k + 1, i + 1] == old(u[k + 1, i + 1]);
        assert u[k, i] == old(u[k, i]);
      }
    }
  }

  /**
   * The coefficient arrays of solveBTCS and solveCrankNicolson: the
   * constant matrix (off, diag, off) of size m with the corners a[0] and
   * c[m-1] overwritten by 0, which fails on an empty matrix. The corners
   * are never read, so the pivots are those of the constant matrix.
   */
  method CornerlessTridiagonal(m: nat, off: real, diag: real) returns (a: array<real>, b: array<real>, c: array<real>)
    requires m >= 1
    ensures fresh(a) && fresh(b) && fresh(c) && a != b && b != c && a != c
    ensures a.Length == b.Length == c.Length == m
    ensures a[0] == 0.0 && c[m - 1] == 0.0
    ensures forall j :: 0 < j < m ==> a[j] == off
    ensures forall j :: 0 <= j < m ==> b[j] == diag
    ensures forall j :: 0 <= j < m - 1 ==> c[j] == off
    ensures Nonsingular(m, off, diag) ==> NonzeroPivots(a[..], b[..], c[..], m)
  {
    a, b, c := ConstantTridiagonal(m, off, diag);
    ghost var f, g := a[..], b[..];
    a[0] := 0.0;
    c[m - 1] := 0.0;
    if Nonsingular(m, off, diag) {
      CornersKeepPivots(f, g, f, m, 0.0, 0.0);
    }
    assert a[..] == f[0 := 0.0] && c[..] == f[m - 1 := 0.0];
  }

  /**
   * The fully implicit scheme: level 0 keeps the initial condition on every
   * node, every later level is pinned to 0 at both ends, and every interior
   * node of level n + 1 satisfies
   * (1 + 2r)·u[n+1][i] − r·u[n+1][i−1] − r·u[n+1][i+1] = u[n][i].
   */
  method SolveBTCS(nx: nat, nt: nat, dx: real, dt: real, alpha: real, ic: real -> real) returns (u: array2<real>)
    requires dx != 0.0 && nx >= 2
    requires nt > 0 ==> Nonsingular(nx - 1, -(alpha * dt / (dx * dx)), 1.0 + 2.0 * (alpha * dt / (dx * dx)))
    ensures fresh(u) && u.Length0 == nt + 1 && u.Length1 == nx + 1
    ensures forall i :: 0 <= i <= nx ==> u[0, i] == InitialValue(ic, dx, i)
    ensures forall n :: 0 < n <= nt ==> u[n, 0] == 0.0 && u[n, nx] == 0.0
    ensures BtcsUpTo(u, alpha * dt / (dx * dx), nt)
  {
    var r := alpha * dt / (dx * dx);
    u := InitialLevel(nx, nt, dx, ic);
    var a, b, c := CornerlessTridiagonal(nx - 1, -r, 1.0 + 2.0 * r);
    for n := 0 to nt
      modifies u
      invariant forall i :: 0 <= i <= nx ==> u[0, i] == InitialValue(ic, dx, i)
      invariant forall k :: 0 < k <= n ==> u[k, 0] == 0.0 && u[k, nx] == 0.0
      invariant BtcsUpTo(u, r, n)
      invariant nt > 0 ==> NonzeroPivots(a[..], b[..], c[..], a.Length)
    {
      BtcsLevel(u, n, nx, r, a, b, c);
    }
  }

  /**
   * One Crank–Nicolson step of solveCrankNicolson: level n + 1 is pinned to
   * 0 at both ends, d becomes the blend
   * (r/2)·u[n][j] + (1 − r)·u[n][j+1] + (r/2)·u[n][j+2] with no boundary
   * term, and the solution of the system fills the interior of level n + 1.
   */
  method CnLevel(u: array2<real>, n: nat, nx: nat, r: real, a: array<real>, b: array<real>, c: array<real>)
    requires n + 1 < u.Length0 && u.Length1 == nx + 1 && nx >= 2
    requires a.Length == b.Length == c.Length == nx - 1
    requires forall j :: 0 < j < a.Length ==> a[j] == -r / 2.0
    requires forall j :: 0 <= j < b.Length ==> b[j] == 1.0 + r
    requires forall j :: 0 <= j < c.Length - 1 ==> c[j] == -r / 2.0
    requires NonzeroPivots(a[..], b[..], c[..], a.Length)
    modifies u
    ensures u[n + 1, 0] == 0.0 && u[n + 1, nx] == 0.0
    ensures forall i: nat :: 0 < i < nx ==> CnNode(u, r, n, i)
    ensures old(CnUpTo(u, r, n)) ==> CnUpTo(u, r, n + 1)
    ensures forall k, i :: 0 <= k < u.Length0 && 0 <= i < u.Length1 && k != n + 1 ==> u[k, i] == old(u[k, i])
  {
    u[n + 1, 0] := 0.0;
    u[n + 1, nx] := 0.0;
    var d := new real[nx - 1];
    BlendInterior(u, n, r, d);
    var x := ThomasLastRowGuard(a[..], b[..], c[..], d[..]);
    WriteSolution(u, n + 1, x, a[..], b[..], c[..], d[..], r / 2.0, 1.0 + r, d[..]);
    if old(CnUpTo(u, r, n)) {
      forall k: nat, i: nat | k < n && 0 < i < u.Length1 - 1
        ensures CnNode(u, r, k, i)
      {
        assert old(CnNode(u, r, k, i));
        assert u[k + 1, i - 1] == old(u[k + 1, i - 1]) && u[k + 1, i] == old(u[k + 1, i]) && u[k + 1, i + 1] == old(u[k + 1, i + 1]);
        assert u[k, i - 1] == old(u[k, i - 1]) && u[k, i] == old(u[k, i]) && u[k, i + 1] == old(u[k, i + 1]);
      }
    }
  }

  /**
   * The Crank–Nicolson scheme: level 0 keeps the initial condition on every
   * node, every later level is pinned to 0 at both ends, and every interior
   * node of level n + 1 satisfies
   * (1 + r)·u[n+1][i] − (r/2)·(u[n+1][i−1] + u[n+1][i+1])
   *   = (r/2)·u[n][i−1] + (1 − r)·u[n][i] + (r/2)·u[n][i+1].
   */
  method SolveCrankNicolson(nx: nat, nt: nat, dx: real, dt: real, alpha: real, ic: real -> real) returns (u: array2<real>)
    requires dx != 0.0 && nx >= 2
    requires nt > 0 ==> Nonsingular(nx - 1, -(alpha * dt / (dx * dx)) / 2.0, 1.0 + alpha * dt / (dx * dx))
    ensures fresh(u) && u.Length0 == nt + 1 && u.Length1 == nx + 1
    ensures forall i :: 0 <= i <= nx ==> u[0, i] == InitialValue(ic, dx, i)
    ensures forall n :: 0 < n <= nt ==> u[n, 0] == 0.0 && u[n, nx] == 0.0
    ensures CnUpTo(u, alpha * dt / (dx * dx), nt)
  {
    var r := alpha * dt / (dx * dx);
    u := InitialLevel(nx, nt, dx, ic);
    var a, b, c := CornerlessTridiagonal(nx - 1, -r / 2.0, 1.0 + r);
    for n := 0 to nt
      modifies u
      invariant forall i :: 0 <= i <= nx ==> u[0, i] == InitialValue(ic, dx, i)
      invariant forall k :: 0 < k <= n ==> u[k, 0] == 0.0 && u[k, nx] == 0.0
      invariant CnUpTo(u, r, n)
      invariant nt > 0 ==> NonzeroPivots(a[..], b[..], c[..], a.Length)
    {
      CnLevel(u, n, nx, r, a, b, c);
    }
  }

  /** The errors of the finite nodes of the final level nt against the analytic solution at time nt·dt. */
  function FinalFiniteErrors(u: array2<Float>, dx: real, dt: real, exact: (real, real) -> real): seq<real>
    requires u.Length0 >= 1
    reads u
  {
    FiniteErrors(FinalLevel(u), Reference(exact, dx, (u.Length0 - 1) as real * dt, u.Length1))
  }

  /**
   * One pass of the loop of computeErrors over node i, whose value is num
   * and whose analytic value is ex: a NaN or infinite node is skipped, a
   * finite one adds one to the count, the square of its error to the sum
   * and may raise the maximum. The accumulators then describe the finite
   * errors of the first i + 1 nodes.
   */
  method VisitNode(ghost row: seq<Float>, ghost ref: seq<real>, i: nat, num: Float, ex: real,
                   count: nat, sumSq: real, peak: real) returns (count': nat, sumSq': real, peak': real)
    requires |row| == |ref| && i < |row| && num == row[i] && ex == ref[i]
    requires var e := FiniteErrors(row[..i], ref[..i]);
      count == |e| && sumSq == SumSq(e) && peak == Peak(e)
    ensures var e := FiniteErrors(row[..i + 1], ref[..i + 1]);
      count' == |e| && sumSq' == SumSq(e) && peak' == Peak(e)
  {
    if num.NaN? || num.PosInf? || num.NegInf? {
      FiniteSkip(row, ref, i);
      return count, sumSq, peak;
    }
    var err := Abs(num.value - ex);
    FiniteAccumulate(row, ref, i, count, sumSq, peak, err);
    sumSq' := sumSq + err * err;
    peak' := peak;
    if err > peak {
      peak' := err;
    }
    count' := count + 1;
  }

  /**
   * The loop of computeErrors: visits the nodes of the final level in
   * order, skips those that are NaN or infinite and accumulates the count,
   * the sum of squares and the running maximum of the errors of the rest.
   */
  method FiniteSums(u: array2<Float>, dx: real, dt: real, exact: (real, real) -> real)
    returns (count: nat, sumSq: real, peak: real)
    requires u.Length0 >= 1
    ensures var e := FinalFiniteErrors(u, dx, dt, exact);
      count == |e| && sumSq == SumSq(e) && peak == Peak(e)
  {
    var nt := u.Length0 - 1;
    var t := nt as real * dt;
    ghost var row := FinalLevel(u);
    ghost var ref := Reference(exact, dx, t, u.Length1);
    sumSq, peak := 0.0, 0.0;
    count := 0;
    for i := 0 to u.Length1
      invariant var e := FiniteErrors(row[..i], ref[..i]);
        count == |e| && sumSq == SumSq(e) && peak == Peak(e)
    {
      var ex := ExactAt(exact, dx, t, i);
      count, sumSq, peak := VisitNode(row, ref, i, u[nt, i], ex, count, sumSq, peak);
    }
    assert row[..u.Length1] == row && ref[..u.Length1] == ref;
    assert t == (u.Length0 - 1) as real * dt;
  }

  /**
   * computeErrors: the error norms of the final level over its finite
   * nodes only. With no finite node both results are NaN, which happens
   * exactly when every node of the final level is NaN or infinite;
   * otherwise linf is the running maximum Peak of the counted errors, never
   * negative and at least the error of every finite node, and meanSq is
   * their mean square.
   */
  method ComputeErrors(u: array2<Float>, dx: real, dt: real, exact: (real, real) -> real) returns (meanSq: Float, linf: Float)
    requires u.Length0 >= 1
    ensures var e := FinalFiniteErrors(u, dx, dt, exact);
      if |e| == 0 then meanSq == NaN && linf == NaN
      else meanSq == Finite(SumSq(e) / |e| as real) && linf == Finite(Peak(e))
    ensures meanSq.NaN? <==> forall i :: 0 <= i < u.Length1 ==> !FinalLevel(u)[i].Finite?
    ensures linf.NaN? == meanSq.NaN?
    ensures linf.Finite? ==> linf.value >= 0.0 && forall i :: 0 <= i < u.Length1 && FinalLevel(u)[i].Finite? ==>
      Abs(FinalLevel(u)[i].value - ExactValue(exact, dx, (u.Length0 - 1) as real * dt, i)) <= linf.value
  {
    var count, sumSq, peak := FiniteSums(u, dx, dt, exact);
    ghost var row := FinalLevel(u);
    ghost var ref := Reference(exact, dx, (u.Length0 - 1) as real * dt, u.Length1);
    ghost var e := FiniteErrors(row, ref);
    NoFiniteErrors(row, ref);
    PeakBounds(e);
    forall i | 0 <= i < u.Length1 && row[i].Finite?
      ensures Abs(row[i].value - ref[i]) <= Peak(e)
    {
      FiniteErrorCounted(row, ref, i);
    }
    if count == 0 {
      return NaN, NaN;
    }
    meanSq := Finite(sumSq / count as real);
    linf := Finite(peak);
  }
}
