# heat-solver: a verified model of the finite-difference core

heat-solver solves the 1-D heat equation u_t = α·u_xx on [0, 1] with zero
Dirichlet boundaries. It has three finite-difference schemes:

- FTCS, explicit;
- BTCS, fully implicit;
- Crank–Nicolson.

Each scheme fills a field u of nt + 1 time levels by nx + 1 nodes,
r = α·dt/dx². The implicit schemes solve a constant tridiagonal system per
step with the Thomas algorithm. Two of the three copies of the code also
compute the error norms of the final level against the analytic solution.

The repository holds the core three times:

- internal/solver/solver.go;
- main.go, which has the same solvers as solver.go without the logging,
  plus an unguarded computeErrors;
- heat-solver-main/main.go, which has its own boundary handling, a Thomas
  algorithm that zeroes the last c', and a computeErrors that skips NaN and
  infinite values.

The model is written in Dafny. Values are exact reals. The field is an
`array2<real>` that the solver methods fill level by level, as the Go code
fills its slices.

The modules:

- `Tridiagonal`: the Thomas algorithm. It is specified by the recursive
  pivot, c' and d' of the forward sweep. It is proved to return the unique
  solution of A·x = d whenever no pivot is zero.
- `Stepping`: the parts the three copies share.
  - The per-node scheme equations `FtcsNode`, `BtcsNode` and `CnNode`.
  - Their prefix invariants `…UpTo(u, r, m)`, which say that the interior
    of every level 1..m follows the scheme from the level before.
  - The constant matrices, and proofs that their pivots never vanish for
    r ≥ 0.
  - The step pieces: initial level, right-hand side, boundary injection, and
    the solve-and-write.
- `Solver`: the solvers of internal/solver/solver.go, which also stand for
  those of main.go.
- `HeatSolverMain`: the solvers and the non-finite-skipping computeErrors of
  heat-solver-main/main.go.
- `ErrorNorms` and `RootMain`: the norm specification and computeErrors of
  main.go.

Every solver is proved to return a fresh field of the right shape. Every
interior node of levels 1..nt satisfies its scheme's equation. The boundary
columns and level 0 differ by copy:

- The three solvers of module `Solver` and `HeatSolverMain.SolveFTCS` pin
  both ends of every level 0..nt to 0. Level 0's interior is the initial
  condition.
- `HeatSolverMain.SolveBTCS` and `HeatSolverMain.SolveCrankNicolson` pin
  both ends of levels 1..nt only. Level 0 is the initial condition on every
  node, so its ends keep ic(0) and ic(nx·dx).

In the solvers of module `Solver`, a step changes only the interior of level
n + 1. In heat-solver-main, FTCS step n also sets both ends of level n to 0
before it updates the interior of level n + 1. Its implicit steps change only
level n + 1, both ends included.

## Model

| member | source | states |
|---|---|---|
| Tridiagonal.ForwardSweep | internal/solver/solver.go:151-158 | with nonzero pivots, the cp, dp it fills are the c'[i], d'[i] of every row, last row included, and satisfy every sweep row multiplied out: pivot ≠ 0, c'·pivot = c, d'·pivot = d − a·d'[i−1] |
| Tridiagonal.ForwardSweepLastRowGuard | heat-solver-main/main.go:43-54 | as ForwardSweep, except that for n > 1 the last c' is 0 rather than c[n−1]/pivot ; c'[0] is c[0]/b[0] for every n, n = 1 included; every other c' and every d' is the specified one |
| Tridiagonal.BackSubstitute | internal/solver/solver.go:160-163 | x[n−1] = d'[n−1] and x[i] = d'[i] − c'[i]·x[i+1] for every earlier row |
| Tridiagonal.Thomas | internal/solver/solver.go:145-167 | the thomasAlgorithm of solver.go and main.go (main.go:63-84): if no pivot is zero, the result has length len(d) and satisfies every row of A·x = d, with no a-term in row 0 and no c-term in the last row |
| Tridiagonal.ThomasLastRowGuard | heat-solver-main/main.go:37-63 | the guarded thomasAlgorithm: if no pivot is zero, its result also solves A·x = d |
| Tridiagonal.BackSubSolves | internal/solver/solver.go:154-163 | a back substitution of a forward sweep solves the system |
| Tridiagonal.SolvesIsBackSubstituted | internal/solver/solver.go:160-163 | conversely, every solution of the system satisfies the back-substitution recurrence of the sweep |
| Tridiagonal.BackSubUnique | internal/solver/solver.go:160-163 | two back substitutions of the same sweep agree entry by entry |
| Tridiagonal.SpecSwept | internal/solver/solver.go:154-158 | the specified c', d' satisfy every sweep row, whatever the unused last c' holds |
| Tridiagonal.SolutionUnique | internal/solver/solver.go:145-167 | with nonzero pivots, two solutions of the system are equal, so thomasAlgorithm's result is the only one |
| Tridiagonal.PivotIgnoresCorners | heat-solver-main/main.go:47-54 | the pivots and the used c' never depend on a[0] or c[n−1] |
| Tridiagonal.SolutionIgnoresCorners | main.go:63-84 | replacing a[0] and c[n−1] keeps every pivot nonzero and leaves the solution unchanged: x does not depend on them |
| Tridiagonal.ConstantMatrixPivots | internal/solver/solver.go:72-76 | for the matrix (−s, 1 + 2s, −s) with s ≥ 0 and any corners, every pivot is at least 1 + s |
| Tridiagonal.ConstantMatrixNonsingular | internal/solver/solver.go:72-76 | such a matrix has no zero pivot |
| Stepping.DominantNonsingular | internal/solver/solver.go:121-125 | the BTCS matrix (−r, 1 + 2r, −r) and the Crank–Nicolson matrix (−r/2, 1 + r, −r/2) are nonsingular for r ≥ 0 |
| Stepping.CornersKeepPivots | heat-solver-main/main.go:132-133 | overwriting a[0] and c[m−1] with 0 keeps every pivot nonzero |
| Stepping.ImplicitRows | main.go:120-126 | a solution of the system whose right-hand side includes the injections of the new level's boundary nodes makes every interior node of that level satisfy the implicit equation |
| Stepping.InitialLevel | internal/solver/solver.go:19-28 | the field has nt + 1 levels of nx + 1 nodes; level 0 is ic(i·dx) on every node and every other level is 0 |
| Stepping.FtcsLevel | internal/solver/solver.go:38-40 | every interior node of level n + 1 is u[n][i] + r·(u[n][i+1] − 2u[n][i] + u[n][i−1]); nothing else changes; the FTCS invariant extends from n to n + 1 levels |
| Stepping.WriteInterior | internal/solver/solver.go:87-89 | solution entry j lands on node j + 1 of the level; no other node changes |
| Stepping.ConstantTridiagonal | internal/solver/solver.go:67-76 | allocates three distinct fresh arrays of length m, filled with off, diag, off |
| Stepping.WriteSolution | main.go:123-126 | after the write, every interior node of the level satisfies the implicit equation (−s, q, −s) with the given right-hand side; nothing outside the level's interior changes |
| Stepping.SolveIntoLevel | internal/solver/solver.go:86-89 | the Thomas solve of the step followed by the write gives the same equations and frame as WriteSolution |
| Stepping.CopyInterior | internal/solver/solver.go:79-81 | d[j] = u[n][j+1] for every j |
| Stepping.BlendInterior | internal/solver/solver.go:128-130 | d[j] = (r/2)·u[n][j] + (1 − r)·u[n][j+1] + (r/2)·u[n][j+2] for every j |
| Stepping.Inject | main.go:120-121 | d[0] gains the west term and d[m−1] the east term; every other entry keeps its value |
| Solver.ZeroBoundaries | internal/solver/solver.go:31-34 | node 0 and node nx of every level become 0; no interior node changes |
| Solver.SolveFTCS | internal/solver/solver.go:9-45 | shape (nt + 1)×(nx + 1); warned exactly when r > 0.5; every level has zero boundaries; level 0's interior is the initial condition; every interior node of levels 1..nt is the FTCS update of the level before |
| Solver.BtcsLevel | main.go:115-127 | one BTCS step: every interior node of level n + 1 satisfies (1 + 2r)·u[n+1][i] − r·u[n+1][i−1] − r·u[n+1][i+1] = u[n][i]; only that interior changes; the invariant extends to n + 1 levels |
| Solver.SolveBTCS | internal/solver/solver.go:48-94 | shape, zero boundaries on every level, level 0's interior from the initial condition, and the BTCS equation on every interior node of levels 1..nt |
| Solver.CnLevel | main.go:161-172 | one Crank–Nicolson step: every interior node of level n + 1 satisfies (1 + r)·u[n+1][i] − (r/2)·(u[n+1][i−1] + u[n+1][i+1]) = (r/2)·u[n][i−1] + (1 − r)·u[n][i] + (r/2)·u[n][i+1]; only that interior changes |
| Solver.SolveCrankNicolson | internal/solver/solver.go:97-142 | shape, zero boundaries on every level, level 0's interior from the initial condition, and the Crank–Nicolson equation on every interior node of levels 1..nt |
| HeatSolverMain.PinLevel | heat-solver-main/main.go:87-88 | nodes 0 and nx of level n become 0; nothing else changes, so the FTCS equations of levels 1..n still hold |
| HeatSolverMain.SolveFTCS | heat-solver-main/main.go:66-101 | with r = α·dt/dx²: shape; warned exactly when r > 0.5; every level 0..nt pinned to 0 at both ends; level 0's interior is the initial condition; every interior node of levels 1..nt is the FTCS update of the level before |
| HeatSolverMain.BtcsLevel | heat-solver-main/main.go:136-149 | level n + 1 is pinned to 0 at both ends and its interior satisfies the BTCS equation with right-hand side u[n][i]; no other level changes |
| HeatSolverMain.CornerlessTridiagonal | heat-solver-main/main.go:121-133 | the coefficient arrays hold off, diag, off with a[0] = c[m−1] = 0; if the constant matrix is nonsingular, so is this one |
| HeatSolverMain.SolveBTCS | heat-solver-main/main.go:104-153 | shape; level 0 is the initial condition on every node, its boundary nodes included; levels 1..nt are pinned to 0 at both ends; the BTCS equation holds on every interior node of levels 1..nt |
| HeatSolverMain.CnLevel | heat-solver-main/main.go:188-206 | level n + 1 is pinned to 0 at both ends and its interior satisfies the Crank–Nicolson equation with the blended right-hand side; no other level changes |
| HeatSolverMain.SolveCrankNicolson | heat-solver-main/main.go:156-210 | shape; level 0 is the initial condition on every node; levels 1..nt are pinned to 0 at both ends; the Crank–Nicolson equation holds on every interior node of levels 1..nt |
| HeatSolverMain.VisitNode | heat-solver-main/main.go:222-235 | a NaN or infinite node leaves the accumulators unchanged; a finite one extends them, so they describe the finite errors of one node more |
| HeatSolverMain.FiniteSums | heat-solver-main/main.go:214-236 | count, sumSq and linf are the number, the sum of squares and the running maximum of the errors of the finite nodes of the final level |
| HeatSolverMain.ComputeErrors | heat-solver-main/main.go:213-244 | both results are NaN exactly when no node of the final level is finite; otherwise linf ≥ 0, linf bounds the error of every finite node, and meanSq = sumSq / count |
| ErrorNorms.Abs | heat-solver-main/main.go:230 | the absolute value is non-negative and equals x or −x |
| ErrorNorms.Accumulate | main.go:191-194 | one pass of the accumulation loop turns the norms of the first i errors into those of the first i + 1 |
| ErrorNorms.FiniteSkip | heat-solver-main/main.go:226-228 | a non-finite node adds no error |
| ErrorNorms.FiniteAccumulate | heat-solver-main/main.go:230-235 | a finite node adds one to the count, its squared error to the sum, and may raise the maximum |
| ErrorNorms.PeakBounds | main.go:192-194 | the running maximum is ≥ 0 and ≥ every error |
| ErrorNorms.PeakAttained | main.go:192-194 | the running maximum is 0 or one of the errors |
| ErrorNorms.SumSqBelow | main.go:191 | if every error lies in [0, p], the sum of squares is at most count·p² |
| ErrorNorms.MeanSquareBelowPeak | main.go:197 | the mean square is at most linf², so the L2 norm never exceeds the L∞ norm |
| ErrorNorms.NoFiniteErrors | heat-solver-main/main.go:238-240 | no error is counted exactly when every node is NaN or infinite |
| ErrorNorms.FiniteErrorCounted | heat-solver-main/main.go:226-235 | the error of every finite node is among the counted errors |
| ErrorNorms.AllFiniteErrors | heat-solver-main/main.go:226-228 | on a level with no NaN or infinite node, skipping skips nothing, and both computeErrors variants see the same errors |
| RootMain.FinalErrors | main.go:186-189 | the pointwise errors |u[nt][i] − exact(i·dx, nt·dt)| of all nx + 1 nodes of the final level |
| RootMain.ComputeErrors | main.go:177-200 | linf is the running maximum of all nx + 1 errors, is ≥ 0 and bounds each of them; meanSq = sumSq / (nx + 1), or NaN for an empty level |

## Left out

- IEEE arithmetic is not modelled: rounding, overflow, and NaN/Inf
  propagation. Values are exact reals. Division by zero is therefore excluded
  by preconditions: `dx != 0` on the solvers, and nonzero pivots on the
  implicit ones.
- Solver.SolveBTCS and Solver.SolveCrankNicolson require, when nt > 0, that
  the constant matrix has no zero pivot. The Go code would instead divide by
  zero and carry on with Inf/NaN. `Stepping.DominantNonsingular` discharges
  this requirement for every r ≥ 0.
- HeatSolverMain.SolveBTCS and HeatSolverMain.SolveCrankNicolson require the
  same, plus nx ≥ 2. With nx = 1 the source panics at `a[0] = 0.0` on an
  empty slice. With nx = 0 it panics earlier, in `make` with length −1.
- Solver.SolveBTCS and Solver.SolveCrankNicolson require nx ≥ 1. With
  nx = 0 the source panics in `make` with the negative length nx − 1.
  When nt > 0 they need nx ≥ 2, because `Nonsingular` holds only for a
  matrix of size at least 1. With nx = 1 and nt > 0 the source panics at
  `d[0] += …` on the empty slice d. This is a panic, not a division by zero.
- Sizes nx and nt are `nat`, so negative sizes are not modelled. On most
  negative sizes the source panics, either in `make` or at the first index
  into the field. The SolveFTCS of internal/solver/solver.go and the
  solveFTCS of main.go do not panic when called with nt = −1 and any
  nx ≤ −1. Then `make` has length 0, every loop is empty, and an empty field
  comes back. The model has no field with zero levels, so it does not
  capture these calls.
- sin and exp are not modelled. The initial condition and the analytic
  solution are function parameters `ic` and `exact`, so α enters computeErrors
  only through `exact`.
- math.Sqrt is not modelled. Both ComputeErrors return the mean square
  sumSq / count, the square of the L2 norm the source returns.
- Logging is not modelled: slog in solver.go, fmt.Printf of r and of the
  warning. The warning is the returned flag `warned`.
- Several parts of the repository are not part of this model, because they
  are I/O, presentation or wrappers:
  - the CSV output (saveToCSV, heat-solver-main/internal/io/io.go);
  - the HTTP server (cmd/server/server.go);
  - the command-line mains, including flag parsing, timing, method dispatch
    and nx = int(1/dx);
  - the plotting scripts;
  - internal/mathutils/mathutils.go.
- Stability, convergence order and accuracy of the schemes are not modelled.
  They are numerical-analysis facts about the equation rather than about
  this code.
- The solvers of main.go are not modelled separately. They are those of
  internal/solver/solver.go statement for statement, less the logging. Module
  `Solver` models both, and the step members cite main.go.
- The implicit step methods allocate the right-hand side d afresh at each
  step. The source allocates it once before the time loop and overwrites it.
  d's contents never outlive a step, so the field computed is the same.
- The Go fields are slices of slices and could in principle be ragged. The
  model uses a rectangular `array2`, which is what every solver allocates.
- RootMain.ComputeErrors does not bound meanSq in its own contract. The bound
  meanSq ≤ linf² is the separate lemma `ErrorNorms.MeanSquareBelowPeak`
  about the same Peak and SumSq.
