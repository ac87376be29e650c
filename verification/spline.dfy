/**
 A model of the natural cubic spline class `cubic_spline`: building the
 per-node coefficient tuples (Thomas sweep for the second-derivative
 coefficients, then the first- and third-order coefficients), and evaluating
 the spline at a query point (clamping plus binary search, Horner scheme).
 All arithmetic is exact, over `real`.
 */
module Spline {

  /** The coefficients of one grid segment: the cubic
      a + b·dx + c/2·dx² + d/6·dx³ with dx = q - x, anchored at node x. */
  datatype Tuple = Tuple(a: real, b: real, c: real, d: real, x: real)

  /** The spline object: nothing built yet (a null coefficient table), or one
      tuple per grid node. */
  datatype CubicSpline = Unbuilt | Built(tuples: seq<Tuple>)

  /** The result of evaluation: None stands for the quiet-NaN sentinel. */
  datatype Option<T> = None | Some(value: T)

  /** Grid nodes strictly increasing, no duplicates. */
  predicate Increasing(x: seq<real>)
  {
    forall i, j :: 0 <= i < j < |x| ==> x[i] < x[j]
  }

  /** The node coordinates stored in a tuple table are strictly increasing. */
  predicate KnotsIncreasing(t: seq<Tuple>)
  {
    forall i, j :: 0 <= i < j < |t| ==> t[i].x < t[j].x
  }

  // ---------------------------------------------------------------------------
  // The cubic of one segment and its derivatives
  // ---------------------------------------------------------------------------

  /** The segment's cubic in power form. */
  function Poly(t: Tuple, q: real): real
  {
    var dx := q - t.x;
    t.a + t.b * dx + t.c / 2.0 * dx * dx + t.d / 6.0 * dx * dx * dx
  }

  /** First derivative of `Poly(t, _)` at q. */
  function Slope(t: Tuple, q: real): real
  {
    var dx := q - t.x;
    t.b + t.c * dx + t.d / 2.0 * dx * dx
  }

  /** Second derivative of `Poly(t, _)` at q. */
  function Curvature(t: Tuple, q: real): real
  {
    t.c + t.d * (q - t.x)
  }

  /** The nested evaluation the evaluator performs; it is the power form. */
  function Horner(t: Tuple, q: real): (r: real)
    ensures r == Poly(t, q)
  {
    var dx := q - t.x;
    t.a + (t.b + (t.c / 2.0 + t.d * dx / 6.0) * dx) * dx
  }

  // ---------------------------------------------------------------------------
  // The tridiagonal system for the second-derivative coefficients c
  // ---------------------------------------------------------------------------

  /** h_i, the width of the grid interval ending at node i. */
  function Width(x: seq<real>, i: int): real
    requires 0 < i < |x|
  {
    x[i] - x[i - 1]
  }

  /** Row i of the system: A·c[i-1] + C·c[i] + B·c[i+1] = F. */
  datatype Row = Row(A: real, C: real, B: real, F: real)

  /** A row as built from strictly increasing nodes: A, B > 0 and C = 2(A + B),
      so the matrix is strictly diagonally dominant. */
  predicate Dominant(r: Row)
  {
    r.A > 0.0 && r.B > 0.0 && r.C == 2.0 * (r.A + r.B)
  }

  function RowAt(x: seq<real>, y: seq<real>, i: int): (r: Row)
    requires |y| == |x| && Increasing(x) && 0 < i < |x| - 1
    ensures r.A == Width(x, i) && r.B == Width(x, i + 1)
    ensures Dominant(r)
  {
    var hi := Width(x, i);
    var hi1 := Width(x, i + 1);
    Row(hi, 2.0 * (hi + hi1), hi1, 6.0 * ((y[i + 1] - y[i]) / hi1 - (y[i] - y[i - 1]) / hi))
  }

  /** c satisfies row i of the system. */
  predicate SolvesRow(x: seq<real>, y: seq<real>, c: seq<real>, i: int)
    requires |y| == |x| && |c| == |x| && Increasing(x) && 0 < i < |x| - 1
  {
    var r := RowAt(x, y, i);
    r.A * c[i - 1] + r.C * c[i] + r.B * c[i + 1] == r.F
  }

  /** The sweep coefficients of the forward pass. */
  datatype Sweep = Sweep(alpha: seq<real>, beta: seq<real>)

  /** The pivot z = A·alpha[i-1] + C the forward pass divides by at a row. */
  function Pivot(r: Row, alphaPrev: real): real
  {
    r.A * alphaPrev + r.C
  }

  /** A row has been eliminated: alpha and beta are the quotients of -B and
      F - A·betaPrev by the pivot. */
  predicate Eliminated(r: Row, alphaPrev: real, betaPrev: real, alpha: real, beta: real)
  {
    var z := Pivot(r, alphaPrev);
    z * alpha == -r.B && z * beta == r.F - r.A * betaPrev
  }

  /** On a dominant row with alpha > -1/2 the pivot exceeds 2B. */
  lemma PivotBound(A: real, C: real, B: real, alpha: real)
    requires A > 0.0 && B > 0.0 && C == 2.0 * (A + B) && -0.5 < alpha <= 0.0
    ensures A * alpha + C > 2.0 * B
  {
    assert A * (alpha + 0.5) > 0.0;
  }

  /** A pivot above 2B makes the next alpha = -B/z lie in (-1/2, 0). */
  lemma NextAlpha(B: real, z: real, alpha: real)
    requires B > 0.0 && z > 2.0 * B && z * alpha == -B
    ensures -0.5 < alpha <= 0.0
  {
    assert z * (alpha + 0.5) == z * alpha + 0.5 * z;
    PositiveFactor(z, alpha + 0.5);
    assert z * (-alpha) == B;
    PositiveFactor(z, -alpha);
  }

  lemma PositiveFactor(z: real, a: real)
    requires z > 0.0 && z * a > 0.0
    ensures a > 0.0
  {
  }

  lemma DivMul(a: real, b: real)
    requires b != 0.0
    ensures b * (a / b) == a
  {
  }

  /** c[k] is tied to c[k+1] by the sweep coefficients at k. */
  predicate Linked(alpha: seq<real>, beta: seq<real>, c: seq<real>, k: int)
    requires 0 <= k < |alpha| && k < |beta| && k + 1 < |c|
  {
    c[k] == alpha[k] * c[k + 1] + beta[k]
  }

  /** One step of the forward pass of `build_spline` on a dominant row: the pivot
      is positive, the new alpha stays in (-1/2, 0], and the row is
      eliminated. */
  function EliminateRow(r: Row, alphaPrev: real, betaPrev: real): (e: (real, real))
    requires Dominant(r) && -0.5 < alphaPrev <= 0.0
    ensures Pivot(r, alphaPrev) > 0.0
    ensures -0.5 < e.0 <= 0.0
    ensures Eliminated(r, alphaPrev, betaPrev, e.0, e.1)
  {
    PivotBound(r.A, r.C, r.B, alphaPrev);
    var z := Pivot(r, alphaPrev);
    DivMul(-r.B, z);
    DivMul(r.F - r.A * betaPrev, z);
    NextAlpha(r.B, z, -r.B / z);
    (-r.B / z, (r.F - r.A * betaPrev) / z)
  }

  /** The forward pass of `build_spline` over rows 1..m: alpha[0] = beta[0] = 0,
      every pivot is positive, and every row is eliminated. */
  function ForwardSweep(x: seq<real>, y: seq<real>, m: nat): (w: Sweep)
    requires |y| == |x| && Increasing(x) && m <= |x| - 2
    ensures |w.alpha| == m + 1 && |w.beta| == m + 1
    ensures w.alpha[0] == 0.0 && w.beta[0] == 0.0
    ensures forall k :: 0 <= k <= m ==> -0.5 < w.alpha[k] <= 0.0
    ensures forall k :: 0 <= k < m ==> Pivot(RowAt(x, y, k + 1), w.alpha[k]) > 0.0
    ensures forall k :: 1 <= k <= m ==>
      Eliminated(RowAt(x, y, k), w.alpha[k - 1], w.beta[k - 1], w.alpha[k], w.beta[k])
    decreases m
  {
    if m == 0 then
      Sweep([0.0], [0.0])
    else
      var w' := ForwardSweep(x, y, m - 1);
      var e := EliminateRow(RowAt(x, y, m), w'.alpha[m - 1], w'.beta[m - 1]);
      Sweep(w'.alpha + [e.0], w'.beta + [e.1])
  }

  /** The backward pass of `build_spline`, producing c[i..n-1]: c[n-1] stays 0 and
      c[k] = alpha[k]·c[k+1] + beta[k] for k from n-2 down to i. */
  function BackSubstitute(alpha: seq<real>, beta: seq<real>, n: nat, i: nat): (c: seq<real>)
    requires |alpha| == n - 1 && |beta| == n - 1 && 1 <= i <= n - 1
    ensures |c| == n - i
    ensures c[n - 1 - i] == 0.0
    ensures forall k :: i <= k < n - 1 ==> c[k - i] == alpha[k] * c[k - i + 1] + beta[k]
    decreases n - i
  {
    if i == n - 1 then
      [0.0]
    else
      var rest := BackSubstitute(alpha, beta, n, i + 1);
      [alpha[i] * rest[0] + beta[i]] + rest
  }

  /** One row of the system holds once it is eliminated and back-substituted. */
  lemma RowFromSweep(A: real, C: real, B: real, F: real, z: real,
                     alphaPrev: real, betaPrev: real, alpha: real, beta: real,
                     cPrev: real, c: real, cNext: real)
    requires z == A * alphaPrev + C
    requires z * alpha == -B && z * beta == F - A * betaPrev
    requires cPrev == alphaPrev * c + betaPrev
    requires c == alpha * cNext + beta
    ensures A * cPrev + C * c + B * cNext == F
  {
    calc {
      A * cPrev + C * c + B * cNext;
      A * (alphaPrev * c + betaPrev) + C * c + B * cNext;
      z * c + A * betaPrev + B * cNext;
      z * (alpha * cNext + beta) + A * betaPrev + B * cNext;
      (z * alpha) * cNext + z * beta + A * betaPrev + B * cNext;
      F;
    }
  }

  /** The second-derivative coefficients `build_spline` computes: natural boundary
      c[0] = c[n-1] = 0, and c solves every interior row of the system. */
  function Moments(x: seq<real>, y: seq<real>): (c: seq<real>)
    requires |y| == |x| >= 2 && Increasing(x)
    ensures |c| == |x|
    ensures c[0] == 0.0 && c[|x| - 1] == 0.0
    ensures forall i :: 0 < i < |x| - 1 ==> SolvesRow(x, y, c, i)
  {
    var n := |x|;
    var w := ForwardSweep(x, y, n - 2);
    var c := [0.0] + BackSubstitute(w.alpha, w.beta, n, 1);
    SweepSolves(x, y, w, c);
    c
  }

  /** With alpha[0] = beta[0] = 0 the recurrence of the backward pass also
      holds at k = 0, where c[0] is pinned to 0. */
  lemma BackChain(alpha: seq<real>, beta: seq<real>, n: nat, c: seq<real>)
    requires n >= 2 && |alpha| == n - 1 && |beta| == n - 1
    requires alpha[0] == 0.0 && beta[0] == 0.0
    requires c == [0.0] + BackSubstitute(alpha, beta, n, 1)
    ensures forall k :: 0 <= k < n - 1 ==> Linked(alpha, beta, c, k)
  {
    var tail := BackSubstitute(alpha, beta, n, 1);
    forall k | 0 <= k < n - 1
      ensures Linked(alpha, beta, c, k)
    {
      if k > 0 {
        assert c[k] == tail[k - 1] && c[k + 1] == tail[k];
      }
    }
  }

  /** Elimination followed by back-substitution solves the system. */
  lemma SweepSolves(x: seq<real>, y: seq<real>, w: Sweep, c: seq<real>)
    requires |y| == |x| >= 2 && Increasing(x)
    requires w == ForwardSweep(x, y, |x| - 2)
    requires c == [0.0] + BackSubstitute(w.alpha, w.beta, |x|, 1)
    ensures forall i :: 0 < i < |x| - 1 ==> SolvesRow(x, y, c, i)
  {
    BackChain(w.alpha, w.beta, |x|, c);
    forall i | 0 < i < |x| - 1
      ensures SolvesRow(x, y, c, i)
    {
      RowSolved(x, y, w.alpha, w.beta, c, i);
    }
  }

  lemma RowSolved(x: seq<real>, y: seq<real>, alpha: seq<real>, beta: seq<real>, c: seq<real>, i: int)
    requires |y| == |x| && Increasing(x) && 0 < i < |x| - 1
    requires |alpha| == |x| - 1 && |beta| == |x| - 1 && |c| == |x|
    requires Eliminated(RowAt(x, y, i), alpha[i - 1], beta[i - 1], alpha[i], beta[i])
    requires Linked(alpha, beta, c, i - 1) && Linked(alpha, beta, c, i)
    ensures SolvesRow(x, y, c, i)
  {
    var r := RowAt(x, y, i);
    RowFromSweep(r.A, r.C, r.B, r.F, Pivot(r, alpha[i - 1]),
                 alpha[i - 1], beta[i - 1], alpha[i], beta[i],
                 c[i - 1], c[i], c[i + 1]);
  }

  // ---------------------------------------------------------------------------
  // Building the tuple table
  // ---------------------------------------------------------------------------

  /** Value and second derivative of the segment with the b/d formulas at its
      left end. */
  lemma LeftEnd(h: real, yi: real, yPrev: real, ci: real, cPrev: real)
    requires h > 0.0
    ensures var b := h * (2.0 * ci + cPrev) / 6.0 + (yi - yPrev) / h;
            var d := (ci - cPrev) / h;
            && yi + b * (-h) + ci / 2.0 * (-h) * (-h) + d / 6.0 * (-h) * (-h) * (-h) == yPrev
            && ci + d * (-h) == cPrev
  {
    var s := (yi - yPrev) / h;
    var d := (ci - cPrev) / h;
    assert s * h == yi - yPrev;
    assert d * h == ci - cPrev;
    var b := h * (2.0 * ci + cPrev) / 6.0 + s;
    calc {
      yi + b * (-h) + ci / 2.0 * (-h) * (-h) + d / 6.0 * (-h) * (-h) * (-h);
      yi - h * h * (2.0 * ci + cPrev) / 6.0 - s * h + ci / 2.0 * h * h - (d * h) * h * h / 6.0;
      yi - h * h * (2.0 * ci + cPrev) / 6.0 - (yi - yPrev) + ci / 2.0 * h * h - (ci - cPrev) * h * h / 6.0;
      yPrev;
    }
  }

  /** The tuple `build_spline` stores for segment i, given the second-derivative
      coefficients c: its cubic passes through (x[i-1], y[i-1]) and
      (x[i], y[i]), and its second derivative is c[i-1] and c[i] there. */
  function Piece(x: seq<real>, y: seq<real>, c: seq<real>, i: int): (t: Tuple)
    requires |y| == |x| && |c| == |x| && 0 < i < |x| && x[i - 1] < x[i]
    ensures t.x == x[i] && t.a == y[i] && t.c == c[i]
    ensures Poly(t, x[i - 1]) == y[i - 1] && Poly(t, x[i]) == y[i]
    ensures Curvature(t, x[i - 1]) == c[i - 1] && Curvature(t, x[i]) == c[i]
  {
    var h := Width(x, i);
    LeftEnd(h, y[i], y[i - 1], c[i], c[i - 1]);
    assert x[i - 1] - x[i] == -h;
    Tuple(y[i], h * (2.0 * c[i] + c[i - 1]) / 6.0 + (y[i] - y[i - 1]) / h, c[i], (c[i] - c[i - 1]) / h, x[i])
  }

  /** The tuple table for nodes x, values y and second-derivative
      coefficients c, as `build_spline` fills it: tuple 0 holds only x, a and
      c, tuple i > 0 is Piece(x, y, c, i). */
  function Table(x: seq<real>, y: seq<real>, c: seq<real>): (t: seq<Tuple>)
    requires |y| == |x| && |c| == |x| && |x| >= 2 && Increasing(x)
    ensures |t| == |x|
    ensures t[0] == Tuple(y[0], 0.0, c[0], 0.0, x[0])
    ensures forall i :: 0 < i < |x| ==> t[i] == Piece(x, y, c, i)
  {
    seq(|x|, i requires 0 <= i < |x| =>
      if i == 0 then Tuple(y[0], 0.0, c[0], 0.0, x[0]) else Piece(x, y, c, i))
  }

  /** build_spline(x, y, n): one tuple per node with x and a copied from the
      input, natural boundary c = 0 at both ends; segment 0 holds only x, a
      and c (its b and d stay 0 here, see EvaluationIgnoresSegmentZero). The
      result depends on x, y and n only: any earlier model is discarded. */
  function Build(x: seq<real>, y: seq<real>, n: nat): (s: CubicSpline)
    requires 2 <= n <= |x| && n <= |y| && Increasing(x[..n])
    ensures s.Built? && |s.tuples| == n
    ensures forall i :: 0 <= i < n ==> s.tuples[i].x == x[i] && s.tuples[i].a == y[i]
    ensures s.tuples[0].c == 0.0 && s.tuples[n - 1].c == 0.0
    ensures KnotsIncreasing(s.tuples)
  {
    var xs := x[..n];
    var ys := y[..n];
    Built(Table(xs, ys, Moments(xs, ys)))
  }

  // ---------------------------------------------------------------------------
  // Evaluation
  // ---------------------------------------------------------------------------

  /** The smallest index j >= k with q <= t[j].x. */
  function FirstNotBelow(t: seq<Tuple>, q: real, k: nat): (j: nat)
    requires k < |t| && q <= t[|t| - 1].x
    ensures k <= j < |t| && q <= t[j].x
    ensures forall m :: k <= m < j ==> t[m].x < q
    decreases |t| - k
  {
    if q <= t[k].x then k else FirstNotBelow(t, q, k + 1)
  }

  /** The segment `f` uses for q: segment 1 at or
      below the first node, segment n-1 at or above the last node, otherwise
      the smallest j with q <= x[j]. */
  function SegmentIndex(t: seq<Tuple>, q: real): (j: nat)
    requires |t| >= 2
    ensures 1 <= j < |t|
  {
    if q <= t[0].x then 1
    else if q >= t[|t| - 1].x then |t| - 1
    else FirstNotBelow(t, q, 1)
  }

  /** The value of the spline at q: the cubic of its segment. */
  function SplineAt(t: seq<Tuple>, q: real): real
    requires |t| >= 2
  {
    Poly(t[SegmentIndex(t, q)], q)
  }

  /** The segment choice of `f`: the two clamps, and a binary
      search keeping t[i].x < q <= t[j].x that ends with j = i + 1. On an
      increasing table this is the smallest j with q <= x[j]. */
  method Locate(t: seq<Tuple>, q: real) returns (j: nat)
    requires |t| >= 2
    ensures 1 <= j < |t|
    ensures q <= t[0].x ==> j == 1
    ensures t[0].x < q && t[|t| - 1].x <= q ==> j == |t| - 1
    ensures t[0].x < q < t[|t| - 1].x ==> t[j - 1].x < q <= t[j].x
    ensures KnotsIncreasing(t) ==> j == SegmentIndex(t, q)
  {
    var n := |t|;
    if q <= t[0].x {
      j := 1;
    } else if q >= t[n - 1].x {
      j := n - 1;
    } else {
      var i := 0;
      j := n - 1;
      while i + 1 < j
        invariant 0 <= i < j < n
        invariant t[i].x < q <= t[j].x
        decreases j - i
      {
        var k := i + (j - i) / 2;
        if q <= t[k].x {
          j := k;
        } else {
          i := k;
        }
      }
      if KnotsIncreasing(t) {
        var r := FirstNotBelow(t, q, 1);
        assert forall m :: 0 <= m < j ==> t[m].x < q by {
          forall m | 0 <= m < j ensures t[m].x < q {
            if m < j - 1 {
              assert t[m].x < t[j - 1].x;
            }
          }
        }
      }
    }
  }

  /** `f(q)`: the NaN sentinel on an unbuilt spline; otherwise
      the cubic of some segment 1..n-1, which on an increasing table is the
      segment SegmentIndex picks. */
  method Eval(s: CubicSpline, q: real) returns (r: Option<real>)
    requires s.Built? ==> |s.tuples| >= 2
    ensures s.Unbuilt? ==> r == None
    ensures s.Built? ==> exists j :: 1 <= j < |s.tuples| && r == Some(Poly(s.tuples[j], q))
    ensures s.Built? && KnotsIncreasing(s.tuples) ==> r == Some(SplineAt(s.tuples, q))
  {
    if s.Unbuilt? {
      return None;
    }
    var j := Locate(s.tuples, q);
    r := Some(Horner(s.tuples[j], q));
  }

  // ---------------------------------------------------------------------------
  // Properties of the built spline
  // ---------------------------------------------------------------------------

  /** The mathematical definition of a natural cubic spline through
      (x[i], y[i]): segment i covers [x[i-1], x[i]] and interpolates both
      ends, first and second derivatives agree at every interior node, and
      the second derivative vanishes at both outer nodes. */
  ghost predicate IsNaturalSpline(x: seq<real>, y: seq<real>, t: seq<Tuple>)
  {
    && |x| == |y| == |t| >= 2
    && (forall i :: 0 < i < |t| ==> Poly(t[i], x[i - 1]) == y[i - 1] && Poly(t[i], x[i]) == y[i])
    && (forall i :: 0 < i < |t| - 1 ==> Slope(t[i], x[i]) == Slope(t[i + 1], x[i]))
    && (forall i :: 0 < i < |t| - 1 ==> Curvature(t[i], x[i]) == Curvature(t[i + 1], x[i]))
    && Curvature(t[1], x[0]) == 0.0
    && Curvature(t[|t| - 1], x[|t| - 1]) == 0.0
  }

  /** First derivatives of segments i and i+1 agree at node i exactly when
      row i of the system holds. */
  lemma SlopeMatch(hi: real, hi1: real, yPrev: real, yi: real, yNext: real,
                   cPrev: real, ci: real, cNext: real)
    requires hi > 0.0 && hi1 > 0.0
    ensures var bi := hi * (2.0 * ci + cPrev) / 6.0 + (yi - yPrev) / hi;
            var bNext := hi1 * (2.0 * cNext + ci) / 6.0 + (yNext - yi) / hi1;
            var dNext := (cNext - ci) / hi1;
            var F := 6.0 * ((yNext - yi) / hi1 - (yi - yPrev) / hi);
            (bi == bNext + cNext * (-hi1) + dNext / 2.0 * (-hi1) * (-hi1))
            <==> (hi * cPrev + 2.0 * (hi + hi1) * ci + hi1 * cNext == F)
  {
    var dNext := (cNext - ci) / hi1;
    assert dNext * hi1 == cNext - ci;
    var sNext := (yNext - yi) / hi1;
    var s := (yi - yPrev) / hi;
    var bi := hi * (2.0 * ci + cPrev) / 6.0 + s;
    var bNext := hi1 * (2.0 * cNext + ci) / 6.0 + sNext;
    calc {
      bNext + cNext * (-hi1) + dNext / 2.0 * (-hi1) * (-hi1);
      bNext - cNext * hi1 + (dNext * hi1) * hi1 / 2.0;
      bNext - cNext * hi1 + (cNext - ci) * hi1 / 2.0;
      sNext - hi1 * (cNext + 2.0 * ci) / 6.0;
    }
  }

  /** Every segment of the tuple table interpolates both of its end nodes. */
  lemma TableInterpolates(x: seq<real>, y: seq<real>, c: seq<real>)
    requires |y| == |x| && |c| == |x| && |x| >= 2 && Increasing(x)
    ensures var t := Table(x, y, c);
            forall i :: 0 < i < |x| ==> Poly(t[i], x[i - 1]) == y[i - 1] && Poly(t[i], x[i]) == y[i]
  {
    var t := Table(x, y, c);
    forall i | 0 < i < |x|
      ensures Poly(t[i], x[i - 1]) == y[i - 1] && Poly(t[i], x[i]) == y[i]
    {
      assert t[i] == Piece(x, y, c, i);
    }
  }

  /** Neighbouring segments of the tuple table join smoothly at every
      interior node whose row c solves. */
  lemma TableJoins(x: seq<real>, y: seq<real>, c: seq<real>)
    requires |y| == |x| && |c| == |x| && |x| >= 2 && Increasing(x)
    requires forall i :: 0 < i < |x| - 1 ==> SolvesRow(x, y, c, i)
    ensures var t := Table(x, y, c);
            && (forall i :: 0 < i < |x| - 1 ==> Slope(t[i], x[i]) == Slope(t[i + 1], x[i]))
            && (forall i :: 0 < i < |x| - 1 ==> Curvature(t[i], x[i]) == Curvature(t[i + 1], x[i]))
  {
    var t := Table(x, y, c);
    forall i | 0 < i < |x| - 1
      ensures Slope(t[i], x[i]) == Slope(t[i + 1], x[i])
      ensures Curvature(t[i], x[i]) == Curvature(t[i + 1], x[i])
    {
      PiecesJoin(x, y, c, i);
    }
  }

  /** The tuple table is a natural cubic spline for any c with zero end
      values that solves every interior row of the system. */
  lemma TableIsNaturalSpline(x: seq<real>, y: seq<real>, c: seq<real>)
    requires |y| == |x| && |c| == |x| && |x| >= 2 && Increasing(x)
    requires c[0] == 0.0 && c[|x| - 1] == 0.0
    requires forall i :: 0 < i < |x| - 1 ==> SolvesRow(x, y, c, i)
    ensures IsNaturalSpline(x, y, Table(x, y, c))
  {
    var t := Table(x, y, c);
    var n := |x|;
    TableInterpolates(x, y, c);
    TableJoins(x, y, c);
    assert t[1] == Piece(x, y, c, 1);
    assert t[n - 1] == Piece(x, y, c, n - 1);
  }

  /** The built spline is a natural cubic spline through the nodes. */
  lemma BuildIsNaturalSpline(x: seq<real>, y: seq<real>, n: nat)
    requires 2 <= n <= |x| && n <= |y| && Increasing(x[..n])
    ensures IsNaturalSpline(x[..n], y[..n], Build(x, y, n).tuples)
  {
    var xs := x[..n];
    var ys := y[..n];
    var c := Moments(xs, ys);
    TableIsNaturalSpline(xs, ys, c);
    assert Build(x, y, n).tuples == Table(xs, ys, c);
  }

  /** Segments i and i+1 meet at node i with equal first and second
      derivatives when c solves row i. */
  lemma PiecesJoin(x: seq<real>, y: seq<real>, c: seq<real>, i: int)
    requires |y| == |x| && |c| == |x| && Increasing(x) && 0 < i < |x| - 1
    requires SolvesRow(x, y, c, i)
    ensures Slope(Piece(x, y, c, i), x[i]) == Slope(Piece(x, y, c, i + 1), x[i])
    ensures Curvature(Piece(x, y, c, i), x[i]) == Curvature(Piece(x, y, c, i + 1), x[i])
  {
    var h, h' := Width(x, i), Width(x, i + 1);
    SlopeMatch(h, h', y[i - 1], y[i], y[i + 1], c[i - 1], c[i], c[i + 1]);
    assert x[i] - x[i + 1] == -h';
  }

  /** On increasing nodes, a query at node k selects segment k, except that
      node 0 selects segment 1. */
  lemma NodeSegment(t: seq<Tuple>, k: nat)
    requires |t| >= 2 && KnotsIncreasing(t) && k < |t|
    ensures SegmentIndex(t, t[k].x) == if k == 0 then 1 else k
  {
    var n := |t|;
    if 0 < k < n - 1 {
      assert t[0].x < t[k].x < t[n - 1].x;
      var j := FirstNotBelow(t, t[k].x, 1);
      assert j == k;
    } else if k == n - 1 {
      assert t[0].x < t[n - 1].x;
    }
  }

  /** The spline passes through every node: node 0 through segment 1,
      node n-1 through segment n-1, interior node k through segment k. */
  lemma Interpolates(x: seq<real>, y: seq<real>, n: nat, k: nat)
    requires 2 <= n <= |x| && n <= |y| && Increasing(x[..n])
    requires k < n
    ensures SplineAt(Build(x, y, n).tuples, x[k]) == y[k]
  {
    var xs := x[..n];
    var ys := y[..n];
    var c := Moments(xs, ys);
    var t := Table(xs, ys, c);
    assert Build(x, y, n).tuples == t;
    NodeSegment(t, k);
    TableInterpolates(xs, ys, c);
    if k == 0 {
      assert Poly(t[1], xs[0]) == ys[0];
    } else {
      assert Poly(t[k], xs[k]) == ys[k];
    }
  }

  /** Evaluation reads nothing of tuple 0 but its node coordinate: in
      particular segment 0's b and d, which the C++ `build_spline` never assigns, cannot
      affect any result. */
  lemma {:induction false} EvaluationIgnoresSegmentZero(t: seq<Tuple>, t': seq<Tuple>, q: real)
    requires |t| == |t'| >= 2
    requires t[0].x == t'[0].x && t[1..] == t'[1..]
    ensures SegmentIndex(t, q) == SegmentIndex(t', q)
    ensures SplineAt(t, q) == SplineAt(t', q)
  {
    assert forall k :: 1 <= k < |t| ==> t[k] == t[1..][k - 1] == t'[k];
    assert t[|t| - 1] == t'[|t| - 1];
    if t[0].x < q < t[|t| - 1].x {
      FirstNotBelowAgrees(t, t', q, 1);
    }
  }

  lemma {:induction false} FirstNotBelowAgrees(t: seq<Tuple>, t': seq<Tuple>, q: real, k: nat)
    requires |t| == |t'| && 1 <= k < |t|
    requires forall m :: 1 <= m < |t| ==> t[m] == t'[m]
    requires q <= t[|t| - 1].x
    ensures FirstNotBelow(t, q, k) == FirstNotBelow(t', q, k)
    decreases |t| - k
  {
    if q > t[k].x {
      FirstNotBelowAgrees(t, t', q, k + 1);
    }
  }
}
