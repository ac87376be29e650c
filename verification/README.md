# Natural cubic spline and fixed-step RK4, modelled in Dafny

This project models the two numeric kernels of the VM_RK application, over
exact `real` arithmetic.

- `spline.dfy`, module `Spline`, models the class `cubic_spline`.
  - `build_spline` copies the nodes into one tuple per node (`x`, `a = y`).
    It pins `c` to 0 at both ends. It solves the tridiagonal system for the
    interior `c` by the sweep (Thomas) method: a forward pass for
    `alpha`/`beta`, then back-substitution. It then derives `b` and `d` for
    segments `1..n-1`.
  - `f` returns the NaN sentinel (`None`) when nothing has been built. It
    clamps low queries to segment 1 and high queries to segment `n-1`.
    Otherwise it binary-searches for the segment, and it evaluates the cubic
    in Horner form.
  - The proofs show four things. Every pivot of the sweep is positive. The
    computed `c` solves every interior row of the system. The built table is
    a natural cubic spline: it interpolates both ends of every segment, has
    continuous first and second derivatives at interior nodes, and has zero
    second derivative at the outer nodes. Evaluation at any node returns that
    node's value.
- `runge_kutta.dfy`, module `RungeKutta`, models the driver `R_K`.
  - It records (position, velocity) before each step. It advances with the
    four-stage combination `(s1 + 2s2 + 2s3 + s4)/6`. After the loop it
    appends the final velocity to the position vector.
  - The right-hand side `func` is a function parameter. The proofs cover the
    exact loop count, the recorded samples, the trailing push and the
    append-only use of the caller's vectors. They also show that the loop
    body equals the textbook RK4 step for the first-order system.

The spline object is an immutable value, `Unbuilt | Built(tuples)`. A
rebuild is a fresh `Build(x, y, n)`, which takes nothing from the previous
value. The caller's vectors in `R_K` are `seq<real>` inputs, and the method
returns their extended versions.

## Model

| member | source | states |
|---|---|---|
| `Spline.Horner` | spline_interpolation_v2/spline.h:118-121 | the nested evaluation equals the power form a + b·dx + c/2·dx² + d/6·dx³ with dx = q − x |
| `Spline.RowAt` | spline_interpolation_v2/spline.h:67-71 | row i has A = h_i = x[i] − x[i−1] and B = h_{i+1}, and on strictly increasing nodes A > 0, B > 0 and C = 2(A + B): the system is strictly diagonally dominant |
| `Spline.EliminateRow` | spline_interpolation_v2/spline.h:72-74 | if the previous alpha lies in (−1/2, 0], the pivot z = A·alpha[i−1] + C is positive (so the divisions are defined), the new alpha again lies in (−1/2, 0], and z·alpha[i] = −B and z·beta[i] = F − A·beta[i−1] |
| `Spline.ForwardSweep` | spline_interpolation_v2/spline.h:62-75 | alpha[0] = beta[0] = 0; for strictly increasing nodes every pivot of rows 1..m is positive, every alpha lies in (−1/2, 0], and every row is eliminated |
| `Spline.BackSubstitute` | spline_interpolation_v2/spline.h:78-79 | the last coefficient stays 0 and c[k] = alpha[k]·c[k+1] + beta[k] for every k from n−2 down to the start index |
| `Spline.BackChain` | spline_interpolation_v2/spline.h:58-79 | because alpha[0] = beta[0] = 0 and c[0] is pinned to 0, the back-substitution recurrence holds at every k in 0..n−2 |
| `Spline.RowFromSweep` | spline_interpolation_v2/spline.h:72-79 | an eliminated row whose unknowns satisfy the back-substitution recurrence holds: A·c[i−1] + C·c[i] + B·c[i+1] = F |
| `Spline.SweepSolves` | spline_interpolation_v2/spline.h:62-79 | the forward pass followed by back-substitution solves every interior row i of the tridiagonal system |
| `Spline.Moments` | spline_interpolation_v2/spline.h:58-83 | natural boundary c[0] = c[n−1] = 0, and h_i·c[i−1] + 2(h_i + h_{i+1})·c[i] + h_{i+1}·c[i+1] = F_i for every interior i |
| `Spline.Piece` | spline_interpolation_v2/spline.h:86-91 | with the b and d formulas, segment i's cubic passes through (x[i−1], y[i−1]) and (x[i], y[i]), and its second derivative is c[i−1] at x[i−1] and c[i] at x[i] |
| `Spline.Table` | spline_interpolation_v2/spline.h:53-91 | the table has one tuple per node; tuple 0 holds x[0], a = y[0] and c[0] with b = d = 0; every tuple i > 0 is Piece(x, y, c, i), the segment whose cubic interpolates both ends and has second derivative c at them |
| `Spline.Build` | spline_interpolation_v2/spline.h:45-58 | the table holds exactly n tuples, tuple i has x = x[i] and a = y[i], c is 0 at both ends, and the stored nodes are strictly increasing |
| `Spline.PiecesJoin` | spline_interpolation_v2/spline.h:86-91 | when c solves row i, segments i and i+1 meet at node i with equal first and second derivatives |
| `Spline.TableInterpolates` | spline_interpolation_v2/spline.h:86-91 | every segment 1..n−1 of the tuple table passes through both of its end nodes |
| `Spline.TableJoins` | spline_interpolation_v2/spline.h:86-91 | when c solves every interior row, neighbouring segments of the table have equal first and second derivatives at every interior node |
| `Spline.TableIsNaturalSpline` | spline_interpolation_v2/spline.h:53-91 | for any c with c[0] = c[n−1] = 0 that solves every interior row, the tuple table is a natural cubic spline through the nodes |
| `Spline.BuildIsNaturalSpline` | spline_interpolation_v2/spline.h:45-92 | the built table is a natural cubic spline through the nodes: both ends of every segment interpolate, first and second derivatives agree at interior nodes, and the second derivative is 0 at x[0] (through segment 1) and at x[n−1] |
| `Spline.FirstNotBelow` | spline_interpolation_v2/spline.h:104-115 | returns the smallest index j ≥ k with q ≤ x[j] |
| `Spline.SegmentIndex` | spline_interpolation_v2/spline.h:100-116 | the selected segment always lies in 1..n−1, so segment 0 is never selected |
| `Spline.Locate` | spline_interpolation_v2/spline.h:99-116 | q ≤ x[0] selects segment 1; otherwise q ≥ x[n−1] selects segment n−1; otherwise the binary search keeps x[i] < q ≤ x[j], terminates, and returns j with x[j−1] < q ≤ x[j]; on increasing nodes this is the reference choice, the smallest j with q ≤ x[j] |
| `Spline.Eval` | spline_interpolation_v2/spline.h:94-122 | an unbuilt spline gives the NaN sentinel `None`; a built one gives the power-form cubic of some segment in 1..n−1, namely the reference segment when the nodes increase |
| `Spline.NodeSegment` | spline_interpolation_v2/spline.h:100-116 | on increasing nodes, a query exactly at node k selects segment k, except node 0, which the low clamp sends to segment 1 |
| `Spline.Interpolates` | spline_interpolation_v2/spline.h:100-121 | the built spline evaluated at node k gives y[k] for every k; node 0 goes through segment 1 |
| `Spline.EvaluationIgnoresSegmentZero` | spline_interpolation_v2/spline.h:86-103 | two tables that differ only in tuple 0's a, b, c, d choose the same segment and give the same value, so segment 0's never-assigned b and d cannot affect a result |
| `Spline.FirstNotBelowAgrees` | spline_interpolation_v2/spline.h:104-115 | the search from index k ≥ 1 reads nothing of tuple 0 |
| `RungeKutta.Step` | spline_interpolation_v2/frk_vm.h:16-29 | the loop body's four stages and their 1, 2, 2, 1 over 6 combination; its meaning, the classical RK4 step, is stated by `StepIsClassicalRk4` |
| `RungeKutta.StepIsClassicalRk4` | spline_interpolation_v2/frk_vm.h:16-29 | the loop body is the classical RK4 step for (x' = v, v' = func(v, x, λ, N)): slopes at s, at s + h/2·k1, at s + h/2·k2 and at s + h·k3, combined as s + h/6·(k1 + 2k2 + 2k3 + k4) |
| `RungeKutta.StepCount` | spline_interpolation_v2/frk_vm.h:13 | the loop makes no pass exactly when begin ≥ end; how many passes it makes otherwise is stated by `StepCountCounts` |
| `RungeKutta.StepCountCounts` | spline_interpolation_v2/frk_vm.h:13 | with h > 0, tick k (begin + k·h) passes the loop test exactly when k < K, so K counts the k ≥ 0 with begin + k·h < end |
| `RungeKutta.SamplesAreSteps` | spline_interpolation_v2/frk_vm.h:13-29 | the first recorded sample is the initial state, and sample k + 1 is one RK4 step from sample k |
| `RungeKutta.SamplesExtend` | spline_interpolation_v2/frk_vm.h:14-15 | recording the current state appends exactly one position and one velocity |
| `RungeKutta.Drive` | spline_interpolation_v2/frk_vm.h:13-29 | for any step function, the loop makes exactly K = StepCount passes, records the state before each pass, and ends in the state after K steps |
| `RungeKutta.RK` | spline_interpolation_v2/frk_vm.h:9-32 | res becomes res followed by the K recorded positions and then the final velocity; res_v becomes res_v followed by the K recorded velocities; so existing entries are untouched, res gains K + 1 entries and res_v gains K; the first sample is (begin, x0dash); if begin ≥ end, res gains only [x0dash] and res_v gains nothing |

## Left out

- The Windows Forms front end (`Form1.h`) is not part of this model. That covers the layout, the chart wiring and the event handlers, the defaults and the "extend end by 15" rule, and the `Output.txt` export. All of it is UI and I/O around `R_K`.
- IEEE-754 rounding is not modelled: all arithmetic is exact over `real`. In particular, `R_K` accumulates the loop counter in doubles (`i += h`). Its pass count can differ from the exact-real count `StepCount` by more than one step, because rounding errors build up over a long run with a small h. When h is below half an ulp of i, `i += h` leaves i unchanged and the C++ loop never ends (for example begin = 1e16, end = 1e16 + 10, h = 1), while the model makes exactly `StepCount` passes.
- The concrete right-hand side `func` (frk_vm.h:5-7) uses `sin` and `cos`, which Dafny does not have. It is the parameter `func` of `RK`, and no accuracy claim (RK4 error order, energy conservation) is made.
- Manual memory management (`new[]`, `delete[]`, `free_mem`, the destructor) is not modelled. The spline is an immutable value that a rebuild replaces wholesale. The sweep buffers `alpha`/`beta` are local sequences.
- Segment 0's `b` and `d` are never assigned in the C++ `build_spline`. They hold whatever the allocation left there. The model stores 0 for both, and `EvaluationIgnoresSegmentZero` proves that no evaluation depends on them.
- Calls with `n < 2` or non-increasing nodes are undefined in the C++ code (zero pivots, out-of-range tuples). `Build` excludes them with `requires`. A loop with `h <= 0` and `begin < end` never terminates, so `RK` requires `h > 0` unless `begin >= end`.
- Derivatives of the segment cubics (`Slope`, `Curvature`) are written out as the polynomial derivatives, since Dafny has no calculus.
