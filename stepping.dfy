/**
 * What the three copies of the solvers share: the FTCS update, the equation an
 * implicit step makes each interior node satisfy, the constant tridiagonal
 * matrices the implicit schemes build, and the write of a tridiagonal
 * solution into the interior of a time level.
 *
 * A field is an array2 with one row per time level n = 0..nt and one column
 * per node i = 0..nx; interior unknown j of a level is node j + 1.
 */
module Stepping {
  import opened Tridiagonal

  /** The explicit 3-point update of node i from the previous level. */
  function FtcsUpdate(r: real, west: real, mid: real, east: real): real
  {
    mid + r * (east - 2.0 * mid + west)
  }

  /**
   * The equation an implicit step makes every interior node of the new level
   * satisfy: diag·mid − off·west − off·east = rhs.
   */
  predicate ImplicitRow(off: real, diag: real, west: real, mid: real, east: real, rhs: real)
  {
    diag * mid - off * west - off * east == rhs
  }

  /** The Crank–Nicolson right-hand side of a node, blended from three nodes of the old level. */
  function CnRhs(r: real, west: real, mid: real, east: real): real
  {
    (r / 2.0) * west + (1.0 - r) * mid + (r / 2.0) * east
  }
  /** Node i of level k + 1 is the explicit update of its neighbours on level k. */
  predicate FtcsNode(u: array2<real>, r: real, k: nat, i: nat)
    requires k + 1 < u.Length0 && 0 < i < u.Length1 - 1
    reads u
  {
    u[k + 1, i] == FtcsUpdate(r, u[k, i - 1], u[k, i], u[k, i + 1])
  }

  /** Node i of level k + 1 satisfies the BTCS equation (−r, 1 + 2r, −r) with node i of level k as right-hand side. */
  predicate BtcsNode(u: array2<real>, r: real, k: nat, i: nat)
    requires k + 1 < u.Length0 && 0 < i < u.Length1 - 1
    reads u
  {
    ImplicitRow(r, 1.0 + 2.0 * r, u[k + 1, i - 1], u[k + 1, i], u[k + 1, i + 1], u[k, i])
  }

  /**
   * Node i of level k + 1 satisfies the Crank–Nicolson equation
   * (−r/2, 1 + r, −r/2) with the blend of nodes i − 1, i, i + 1 of level k
   * as right-hand side.
   */
  predicate CnNode(u: array2<real>, r: real, k: nat, i: nat)
    requires k + 1 < u.Length0 && 0 < i < u.Length1 - 1
    reads u
  {
    ImplicitRow(r / 2.0, 1.0 + r, u[k + 1, i - 1], u[k + 1, i], u[k + 1, i + 1], CnRhs(r, u[k, i - 1], u[k, i], u[k, i + 1]))
  }

  /** Every interior node of levels 1..m follows the explicit scheme. */
  predicate FtcsUpTo(u: array2<real>, r: real, m: nat)
    reads u
  {
    forall k: nat, i: nat :: k < m && k + 1 < u.Length0 && 0 < i < u.Length1 - 1 ==> FtcsNode(u, r, k, i)
  }

  /** Every interior node of levels 1..m follows the BTCS scheme. */
  predicate BtcsUpTo(u: array2<real>, r: real, m: nat)
    reads u
  {
    forall k: nat, i: nat :: k < m && k + 1 < u.Length0 && 0 < i < u.Length1 - 1 ==> BtcsNode(u, r, k, i)
  }

  /** Every interior node of levels 1..m follows the Crank–Nicolson scheme. */
  predicate CnUpTo(u: array2<real>, r: real, m: nat)
    reads u
  {
    forall k: nat, i: nat :: k < m && k + 1 < u.Length0 && 0 < i < u.Length1 - 1 ==> CnNode(u, r, k, i)
  }

  /** m copies of v: a coefficient array after its filling loop. */
  function Fill(m: nat, v: real): (s: seq<real>)
    ensures |s| == m && forall j :: 0 <= j < m ==> s[j] == v
  {
    seq(m, _ => v)
  }

  /** The constant tridiagonal matrix (off, diag, off) of size m has no zero pivot. */
  predicate Nonsingular(m: nat, off: real, diag: real)
  {
    m >= 1 && NonzeroPivots(Fill(m, off), Fill(m, diag), Fill(m, off), m)
  }

  /**
   * The BTCS matrix (−r, 1 + 2r, −r) and the Crank–Nicolson matrix
   * (−r/2, 1 + r, −r/2) are of this form with s = r and s = r/2, so for
   * r >= 0 (a nonnegative time step) neither ever meets a zero pivot.
   */
  lemma DominantNonsingular(m: nat, s: real)
    requires m >= 1 && s >= 0.0
    ensures Nonsingular(m, -s, 1.0 + 2.0 * s)
  {
    var f, g := Fill(m, -s), Fill(m, 1.0 + 2.0 * s);
    ConstantMatrixNonsingular(f, g, f, s);
  }

  /**
   * Overwriting the corners a[0] and c[m-1] of a matrix keeps its pivots:
   * they are never read.
   */
  lemma CornersKeepPivots(a: seq<real>, b: seq<real>, c: seq<real>, m: nat, a0: real, cLast: real)
    requires Shaped(a, b, c, m) && |a| == |b| == |c| == m && NonzeroPivots(a, b, c, m)
    ensures NonzeroPivots(a[0 := a0], b, c[m - 1 := cLast], m)
  {
    var a', c' := a[0 := a0], c[m - 1 := cLast];
    forall i | 0 <= i < m
      ensures Pivot(a', b, c', i) != 0.0
    {
      PivotIgnoresCorners(a, b, c, m, a0, cLast, i);
    }
  }

  /**
   * A solution x of the constant system (−s, q, −s) whose right-hand side is
   * rhs plus the injections s·left into the first row and s·right into the
   * last makes every row satisfy the implicit equation on the padded level
   * w = [left] + x + [right], left and right being the nodes beyond either end.
   */
  lemma ImplicitRows(a: seq<real>, b: seq<real>, c: seq<real>, d: seq<real>, x: seq<real>,
                     s: real, q: real, left: real, right: real, rhs: seq<real>)
    requires Shaped(a, b, c, |d|) && Solves(a, b, c, d, x) && |rhs| == |d|
    requires forall j :: 0 < j < |d| ==> a[j] == -s
    requires forall j :: 0 <= j < |d| ==> b[j] == q
    requires forall j :: 0 <= j < |d| - 1 ==> c[j] == -s
    requires forall j :: 0 <= j < |d| ==>
      d[j] == rhs[j] + (if j == 0 then s * left else 0.0) + (if j == |d| - 1 then s * right else 0.0)
    ensures var w := [left] + x + [right];
      forall i :: 0 < i < |w| - 1 ==> ImplicitRow(s, q, w[i - 1], w[i], w[i + 1], rhs[i - 1])
  {
  }

  /** The initial condition at node i, x = i·dx. */
  function InitialValue(ic: real -> real, dx: real, i: nat): real
  {
    ic(i as real * dx)
  }

  /**
   * Allocates the field of nt + 1 levels of nx + 1 nodes, zero as allocated,
   * and fills level 0 with the initial condition at x = i·dx, boundary nodes
   * included.
   */
  method InitialLevel(nx: nat, nt: nat, dx: real, ic: real -> real) returns (u: array2<real>)
    ensures fresh(u) && u.Length0 == nt + 1 && u.Length1 == nx + 1
    ensures forall i :: 0 <= i <= nx ==> u[0, i] == InitialValue(ic, dx, i)
    ensures forall n, i :: 0 < n <= nt && 0 <= i <= nx ==> u[n, i] == 0.0
  {
    u := new real[nt + 1, nx + 1]((n, i) => 0.0);
    for i := 0 to nx + 1
      invariant forall k :: 0 <= k < i ==> u[0, k] == InitialValue(ic, dx, k)
      invariant forall n, k :: 0 < n <= nt && 0 <= k <= nx ==> u[n, k] == 0.0
    {
      var x := i as real * dx;
      assert ic(x) == InitialValue(ic, dx, i);
      u[0, i] := ic(x);
    }
  }

  /**
   * One explicit step: every interior node of level n + 1 gets the FTCS
   * update of its neighbours on level n; nothing else changes.
   */
  method FtcsLevel(u: array2<real>, n: nat, r: real)
    requires n + 1 < u.Length0 && u.Length1 >= 1
    modifies u
    ensures forall i: nat :: 0 < i < u.Length1 - 1 ==> FtcsNode(u, r, n, i)
    ensures old(FtcsUpTo(u, r, n)) ==> FtcsUpTo(u, r, n + 1)
    ensures forall k, i :: 0 <= k < u.Length0 && 0 <= i < u.Length1 && !(k == n + 1 && 0 < i < u.Length1 - 1) ==>
      u[k, i] == old(u[k, i])
  {
    var nx := u.Length1 - 1;
    var i := 1;
    while i < nx
      invariant 1 <= i <= if nx < 1 then 1 else nx
      invariant forall k :: 0 < k < i ==> u[n + 1, k] == FtcsUpdate(r, u[n, k - 1], u[n, k], u[n, k + 1])
      invariant forall k, j :: 0 <= k < u.Length0 && 0 <= j < u.Length1 && !(k == n + 1 && 0 < j < i) ==>
        u[k, j] == old(u[k, j])
    {
      var next := u[n, i] + r * (u[n, i + 1] - 2.0 * u[n, i] + u[n, i - 1]);
      assert next == FtcsUpdate(r, u[n, i - 1], u[n, i], u[n, i + 1]);
      u[n + 1, i] := next;
      i := i + 1;
    }
    if old(FtcsUpTo(u, r, n)) {
      forall k: nat, i: nat | k < n && 0 < i < u.Length1 - 1
        ensures FtcsNode(u, r, k, i)
      {
        assert old(FtcsNode(u, r, k, i));
        assert u[k + 1, i - 1] == old(u[k + 1, i - 1]) && u[k + 1, i] == old(u[k + 1, i]) && u[k + 1, i + 1] == old(u[k + 1, i + 1]);
        assert u[k, i - 1] == old(u[k, i - 1]) && u[k, i] == old(u[k, i]) && u[k, i + 1] == old(u[k, i + 1]);
      }
    }
  }

  /** Writes the tridiagonal solution x into the interior of level n: unknown j lands on node j + 1. */
  method WriteInterior(u: array2<real>, n: nat, x: seq<real>)
    requires n < u.Length0 && |x| + 2 == u.Length1
    modifies u
    ensures forall i :: 0 < i < u.Length1 - 1 ==> u[n, i] == x[i - 1]
    ensures forall k, i :: 0 <= k < u.Length0 && 0 <= i < u.Length1 && !(k == n && 0 < i < u.Length1 - 1) ==>
      u[k, i] == old(u[k, i])
  {
    for j := 0 to |x|
      invariant forall k :: 0 < k <= j ==> u[n, k] == x[k - 1]
      invariant forall k, i :: 0 <= k < u.Length0 && 0 <= i < u.Length1 && !(k == n && 0 < i <= j) ==>
        u[k, i] == old(u[k, i])
    {
      u[n, j + 1] := x[j];
    }
  }

  /**
   * Allocates the coefficient arrays of the constant matrix (off, diag, off)
   * of size m and fills them, as every implicit solver does once before its
   * time loop.
   */
  method ConstantTridiagonal(m: nat, off: real, diag: real) returns (a: array<real>, b: array<real>, c: array<real>)
    ensures fresh(a) && fresh(b) && fresh(c) && a != b && b != c && a != c
    ensures a[..] == Fill(m, off) && b[..] == Fill(m, diag) && c[..] == Fill(m, off)
  {
    a := new real[m](_ => 0.0);
    b := new real[m](_ => 0.0);
    c := new real[m](_ => 0.0);
    for j := 0 to m
      invariant forall k :: 0 <= k < j ==> a[k] == off && b[k] == diag && c[k] == off
    {
      a[j] := off;
      b[j] := diag;
      c[j] := off;
    }
  }

  /**
   * Writes a solution x of the constant system (−s, q, −s)·x = d into the
   * interior of the given level. When d is rhs plus the injections of that
   * level's boundary nodes, every interior node of the level then satisfies
   * the implicit equation with rhs; nothing else in the field changes. The
   * corners a[0] and c[m-1] are free.
   */
  method WriteSolution(u: array2<real>, level: nat, x: seq<real>, ghost a: seq<real>, ghost b: seq<real>, ghost c: seq<real>,
                       ghost d: seq<real>, ghost s: real, ghost q: real, ghost rhs: seq<real>)
    requires level < u.Length0 && u.Length1 >= 3
    requires |a| == |b| == |c| == |d| == |rhs| == u.Length1 - 2
    requires forall j :: 0 < j < |a| ==> a[j] == -s
    requires forall j :: 0 <= j < |b| ==> b[j] == q
    requires forall j :: 0 <= j < |c| - 1 ==> c[j] == -s
    requires Solves(a, b, c, d, x)
    requires forall j :: 0 <= j < |d| ==>
      d[j] == rhs[j] + (if j == 0 then s * u[level, 0] else 0.0)
                     + (if j == |d| - 1 then s * u[level, |d| + 1] else 0.0)
    modifies u
    ensures forall i :: 0 < i < u.Length1 - 1 ==>
      ImplicitRow(s, q, u[level, i - 1], u[level, i], u[level, i + 1], rhs[i - 1])
    ensures forall k, i :: 0 <= k < u.Length0 && 0 <= i < u.Length1 && !(k == level && 0 < i < u.Length1 - 1) ==>
      u[k, i] == old(u[k, i])
  {
    var nx := u.Length1 - 1;
    var left, right := u[level, 0], u[level, nx];
    ImplicitRows(a, b, c, d, x, s, q, left, right, rhs);
    WriteInterior(u, level, x);
    ghost var w := [left] + x + [right];
    assert forall i :: 0 <= i <= nx ==> u[level, i] == w[i];
  }

  /**
   * The second half of every implicit step of internal/solver/solver.go and
   * main.go: solves the constant system (−s, q, −s)·x = d with the Thomas
   * algorithm and writes x into the interior of the given level.
   */
  method SolveIntoLevel(u: array2<real>, level: nat, a: array<real>, b: array<real>, c: array<real>, d: array<real>,
                        s: real, q: real, ghost rhs: seq<real>)
    requires level < u.Length0 && u.Length1 >= 3
    requires a.Length == b.Length == c.Length == d.Length == |rhs| == u.Length1 - 2
    requires forall j :: 0 < j < a.Length ==> a[j] == -s
    requires forall j :: 0 <= j < b.Length ==> b[j] == q
    requires forall j :: 0 <= j < c.Length - 1 ==> c[j] == -s
    requires NonzeroPivots(a[..], b[..], c[..], d.Length)
    requires forall j :: 0 <= j < d.Length ==>
      d[j] == rhs[j] + (if j == 0 then s * u[level, 0] else 0.0)
                     + (if j == d.Length - 1 then s * u[level, d.Length + 1] else 0.0)
    modifies u
    ensures forall i :: 0 < i < u.Length1 - 1 ==>
      ImplicitRow(s, q, u[level, i - 1], u[level, i], u[level, i + 1], rhs[i - 1])
    ensures forall k, i :: 0 <= k < u.Length0 && 0 <= i < u.Length1 && !(k == level && 0 < i < u.Length1 - 1) ==>
      u[k, i] == old(u[k, i])
  {
    var x := Thomas(a[..], b[..], c[..], d[..]);
    WriteSolution(u, level, x, a[..], b[..], c[..], d[..], s, q, rhs);
  }

  /** The BTCS right-hand side before injection: d[j] = u[n][j+1]. */
  method CopyInterior(u: array2<real>, n: nat, d: array<real>)
    requires n < u.Length0 && d.Length == u.Length1 - 2
    modifies d
    ensures forall j :: 0 <= j < d.Length ==> d[j] == u[n, j + 1]
  {
    for i := 0 to d.Length
      invariant forall k :: 0 <= k < i ==> d[k] == u[n, k + 1]
    {
      d[i] := u[n, i + 1];
    }
  }

  /** The Crank–Nicolson right-hand side before injection: d[j] blends u[n][j], u[n][j+1] and u[n][j+2]. */
  method BlendInterior(u: array2<real>, n: nat, r: real, d: array<real>)
    requires n < u.Length0 && d.Length == u.Length1 - 2
    modifies d
    ensures forall j :: 0 <= j < d.Length ==> d[j] == CnRhs(r, u[n, j], u[n, j + 1], u[n, j + 2])
  {
    for i := 0 to d.Length
      invariant forall k :: 0 <= k < i ==> d[k] == CnRhs(r, u[n, k], u[n, k + 1], u[n, k + 2])
    {
      d[i] := (r / 2.0) * u[n, i] + (1.0 - r) * u[n, i + 1] + (r / 2.0) * u[n, i + 2];
    }
  }

  /** The boundary injection d[0] += west, d[m-1] += east (both into d[0] when m = 1). */
  method Inject(d: array<real>, west: real, east: real)
    requires d.Length >= 1
    modifies d
    ensures forall j :: 0 <= j < d.Length ==>
      d[j] == old(d[j]) + (if j == 0 then west else 0.0) + (if j == d.Length - 1 then east else 0.0)
  {
    d[0] := d[0] + west;
    d[d.Length - 1] := d[d.Length - 1] + east;
  }
}
