/**
 * The solvers of internal/solver/solver.go. The solvers of main.go are the
 * same statements without the logging, so this module models both: each
 * returns the whole field u[0..nt][0..nx], with r = dt/dx², every level's
 * boundary nodes pinned to 0, and level 0's interior set from the initial
 * condition.
 */
module Solver {
  import opened Tridiagonal
  import opened Stepping

  /** Pins node 0 and node nx of every level to 0 and leaves the interior alone. */
  method ZeroBoundaries(u: array2<real>, nx: nat)
    requires u.Length1 == nx + 1
    modifies u
    ensures forall n :: 0 <= n < u.Length0 ==> u[n, 0] == 0.0 && u[n, nx] == 0.0
    ensures forall n, i :: 0 <= n < u.Length0 && 0 < i < nx ==> u[n, i] == old(u[n, i])
  {
    for n := 0 to u.Length0
      invariant forall k :: 0 <= k < n ==> u[k, 0] == 0.0 && u[k, nx] == 0.0
      invariant forall k, i :: 0 <= k < u.Length0 && 0 < i < nx ==> u[k, i] == old(u[k, i])
    {
      u[n, 0] := 0.0;
      u[n, nx] := 0.0;
    }
  }

  /**
   * The explicit scheme. warned is the stability warning, raised exactly
   * when r > 1/2; every interior node of level n + 1 is the FTCS update of
   * level n.
   */
  method SolveFTCS(nx: nat, nt: nat, dx: real, dt: real, ic: real -> real) returns (u: array2<real>, warned: bool)
    requires dx != 0.0
    ensures fresh(u) && u.Length0 == nt + 1 && u.Length1 == nx + 1
    ensures warned <==> dt / (dx * dx) > 0.5
    ensures forall n :: 0 <= n <= nt ==> u[n, 0] == 0.0 && u[n, nx] == 0.0
    ensures forall i :: 0 < i < nx ==> u[0, i] == InitialValue(ic, dx, i)
    ensures FtcsUpTo(u, dt / (dx * dx), nt)
  {
    var r := dt / (dx * dx);
    warned := r > 0.5;
    u := InitialLevel(nx, nt, dx, ic);
    ZeroBoundaries(u, nx);
    for n := 0 to nt
      modifies u
      invariant forall k :: 0 <= k <= nt ==> u[k, 0] == 0.0 && u[k, nx] == 0.0
      invariant forall i :: 0 < i < nx ==> u[0, i] == InitialValue(ic, dx, i)
      invariant FtcsUpTo(u, r, n)
    {
      FtcsLevel(u, n, r);
    }
  }

  /**
   * One BTCS step, as the body of the time loop of solveBTCS in main.go:
   * d becomes level n's interior plus the injections r·u[n+1][0] into its
   * first entry and r·u[n+1][nx] into its last; the solution of the system
   * (−r, 1 + 2r, −r)·x = d fills the interior of level n + 1, so that every
   * interior node satisfies the implicit equation whatever the boundary
   * nodes hold. Nothing else in the field changes.
   */
  method BtcsLevel(u: array2<real>, n: nat, r: real, a: array<real>, b: array<real>, c: array<real>)
    requires n + 1 < u.Length0 && u.Length1 >= 3
    requires a.Length == b.Length == c.Length == u.Length1 - 2
    requires a[..] == Fill(a.Length, -r) && b[..] == Fill(a.Length, 1.0 + 2.0 * r) && c[..] == Fill(a.Length, -r)
    requires Nonsingular(a.Length, -r, 1.0 + 2.0 * r)
    modifies u
    ensures forall i: nat :: 0 < i < u.Length1 - 1 ==> BtcsNode(u, r, n, i)
    ensures old(BtcsUpTo(u, r, n)) ==> BtcsUpTo(u, r, n + 1)
    ensures forall k, i :: 0 <= k < u.Length0 && 0 <= i < u.Length1 && !(k == n + 1 && 0 < i < u.Length1 - 1) ==>
      u[k, i] == old(u[k, i])
  {
    var d := new real[a.Length];
    CopyInterior(u, n, d);
    ghost var rhs := d[..];
    Inject(d, r * u[n + 1, 0], r * u[n + 1, a.Length + 1]);
    SolveIntoLevel(u, n + 1, a, b, c, d, r, 1.0 + 2.0 * r, rhs);
    if old(BtcsUpTo(u, r, n)) {
      forall k: nat, i: nat | k < n && 0 < i < u.Length1 - 1
        ensures BtcsNode(u, r, k, i)
      {
        assert old(BtcsNode(u, r, k, i));
        assert u[k + 1, i - 1] == old(u[k + 1, i - 1]) && u[k + 1, i] == old(u[k + 1, i]) && u[k + 1, i + 1] == old(u[k + 1, i + 1]);
        assert u[k, i - 1] == old(u[k, i - 1]) && u[k, i] == old(u[k, i]) && u[k, i + 1] == old(u[k, i + 1]);
      }
    }
  }

  /**
   * The fully implicit scheme: every interior node of level n + 1 satisfies
   * (1 + 2r)·u[n+1][i] − r·u[n+1][i−1] − r·u[n+1][i+1] = u[n][i].
   */
  method SolveBTCS(nx: nat, nt: nat, dx: real, dt: real, ic: real -> real) returns (u: array2<real>)
    requires dx != 0.0 && nx >= 1
    requires nt > 0 ==> Nonsingular(nx - 1, -(dt / (dx * dx)), 1.0 + 2.0 * (dt / (dx * dx)))
    ensures fresh(u) && u.Length0 == nt + 1 && u.Length1 == nx + 1
    ensures forall n :: 0 <= n <= nt ==> u[n, 0] == 0.0 && u[n, nx] == 0.0
    ensures forall i :: 0 < i < nx ==> u[0, i] == InitialValue(ic, dx, i)
    ensures BtcsUpTo(u, dt / (dx * dx), nt)
  {
    var r := dt / (dx * dx);
    u := InitialLevel(nx, nt, dx, ic);
    ZeroBoundaries(u, nx);
    var a, b, c := ConstantTridiagonal(nx - 1, -r, 1.0 + 2.0 * r);
    for n := 0 to nt
      modifies u
      invariant forall k :: 0 <= k <= nt ==> u[k, 0] == 0.0 && u[k, nx] == 0.0
      invariant forall i :: 0 < i < nx ==> u[0, i] == InitialValue(ic, dx, i)
      invariant BtcsUpTo(u, r, n)
    {
      BtcsLevel(u, n, r, a, b, c);
    }
  }

  /**
   * One Crank–Nicolson step, as the body of the time loop of
   * solveCrankNicolson in main.go: d becomes the blend
   * (r/2)·u[n][j] + (1 − r)·u[n][j+1] + (r/2)·u[n][j+2] plus the injections
   * (r/2)·u[n+1][0] and (r/2)·u[n+1][nx]; the solution of the system
   * (−r/2, 1 + r, −r/2)·x = d fills the interior of level n + 1.
   */
  method CnLevel(u: array2<real>, n: nat, r: real, a: array<real>, b: array<real>, c: array<real>)
    requires n + 1 < u.Length0 && u.Length1 >= 3
    requires a.Length == b.Length == c.Length == u.Length1 - 2
    requires a[..] == Fill(a.Length, -r / 2.0) && b[..] == Fill(a.Length, 1.0 + r) && c[..] == Fill(a.Length, -r / 2.0)
    requires Nonsingular(a.Length, -r / 2.0, 1.0 + r)
    modifies u
    ensures forall i: nat :: 0 < i < u.Length1 - 1 ==> CnNode(u, r, n, i)
    ensures old(CnUpTo(u, r, n)) ==> CnUpTo(u, r, n + 1)
    ensures forall k, i :: 0 <= k < u.Length0 && 0 <= i < u.Length1 && !(k == n + 1 && 0 < i < u.Length1 - 1) ==>
      u[k, i] == old(u[k, i])
  {
    var d := new real[a.Length];
    BlendInterior(u, n, r, d);
    ghost var rhs := d[..];
    Inject(d, (r / 2.0) * u[n + 1, 0], (r / 2.0) * u[n + 1, a.Length + 1]);
    SolveIntoLevel(u, n + 1, a, b, c, d, r / 2.0, 1.0 + r, rhs);
    if old(CnUpTo(u, r, n)) {
      forall k: nat, i: nat | k < n && 0 < i < u.Length1 - 1
        ensures CnNode(u, r, k, i)
      {
        assert old(CnNode(u, r, k, i));
        assert u[k + 1, i - 1] == old(u[k + 1, i - 1]) && u[k + 1, i] == old(u[k + 1, i]) && u[k + 1, i + 1] == old(u[k + 1, i + 1]);
        assert u[k, i - 1] == old(u[k, i - 1]) && u[k, i] == old(u[k, i]) && u[k, i + 1] == old(u[k, i + 1]);
      }
    }
  }

  /**
   * The Crank–Nicolson scheme: every interior node of level n + 1 satisfies
   * (1 + r)·u[n+1][i] − (r/2)·(u[n+1][i−1] + u[n+1][i+1])
   *   = (r/2)·u[n][i−1] + (1 − r)·u[n][i] + (r/2)·u[n][i+1].
   */
  method SolveCrankNicolson(nx: nat, nt: nat, dx: real, dt: real, ic: real -> real) returns (u: array2<real>)
    requires dx != 0.0 && nx >= 1
    requires nt > 0 ==> Nonsingular(nx - 1, -(dt / (dx * dx)) / 2.0, 1.0 + dt / (dx * dx))
    ensures fresh(u) && u.Length0 == nt + 1 && u.Length1 == nx + 1
    ensures forall n :: 0 <= n <= nt ==> u[n, 0] == 0.0 && u[n, nx] == 0.0
    ensures forall i :: 0 < i < nx ==> u[0, i] == InitialValue(ic, dx, i)
    ensures CnUpTo(u, dt / (dx * dx), nt)
  {
    var r := dt / (dx * dx);
    u := InitialLevel(nx, nt, dx, ic);
    ZeroBoundaries(u, nx);
    var a, b, c := ConstantTridiagonal(nx - 1, -r / 2.0, 1.0 + r);
    for n := 0 to nt
      modifies u
      invariant forall k :: 0 <= k <= nt ==> u[k, 0] == 0.0 && u[k, nx] == 0.0
      invariant forall i :: 0 < i < nx ==> u[0, i] == InitialValue(ic, dx, i)
      invariant CnUpTo(u, r, n)
    {
      CnLevel(u, n, r, a, b, c);
    }
  }
}
