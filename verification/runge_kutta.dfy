/**
 A model of the fixed-step Runge-Kutta driver `R_K`: the second-order
 equation x'' = func(x', x, lam, N) is integrated as the first-order pair
 (x' = v, v' = func(v, x, lam, N)) with the classical four-stage method.
 The right-hand side is a parameter; arithmetic is exact, over `real`.
 */
module RungeKutta {

  /** The integrator's state: position and velocity. */
  datatype State = State(x: real, v: real)

  /** The right-hand side, called as func(v, x, lam, N); lam is
      `R_K`'s parameter `lambda`. */
  type Rhs = (real, real, real, real) -> real

  /** One stage's increments (dx_i, dv_i) at the staged point p: h times the
      staged velocity and h times func at p. */
  function Increment(func: Rhs, h: real, lam: real, N: real, p: State): State
  {
    State(h * p.v, h * func(p.v, p.x, lam, N))
  }

  /** One step as the loop body of `R_K` writes it: stage 1 at the
      current state, stages 2 and 3 at the state plus half the previous
      stage's increments, stage 4 at the state plus the full stage-3
      increments, combined with weights 1, 2, 2, 1 over 6. */
  function Step(func: Rhs, h: real, lam: real, N: real, s: State): State
  {
    var d1 := Increment(func, h, lam, N, s);
    var d2 := Increment(func, h, lam, N, Half(s, d1));
    var d3 := Increment(func, h, lam, N, Half(s, d2));
    var d4 := Increment(func, h, lam, N, Full(s, d3));
    Combine(s, d1, d2, d3, d4)
  }

  /** The state plus half of the increments d. */
  function Half(s: State, d: State): State
  {
    State(s.x + d.x / 2.0, s.v + d.v / 2.0)
  }

  /** The state plus the full increments d. */
  function Full(s: State, d: State): State
  {
    State(s.x + d.x, s.v + d.v)
  }

  /** The state plus (d1 + 2·d2 + 2·d3 + d4)/6, componentwise. */
  function Combine(s: State, d1: State, d2: State, d3: State, d4: State): State
  {
    State(s.x + (d1.x + 2.0 * d2.x + 2.0 * d3.x + d4.x) / 6.0,
          s.v + (d1.v + 2.0 * d2.v + 2.0 * d3.v + d4.v) / 6.0)
  }

  /** The vector field of the first-order system at s. */
  function Field(func: Rhs, lam: real, N: real, s: State): State
  {
    State(s.v, func(s.v, s.x, lam, N))
  }

  /** s + t·k, componentwise. */
  function Shift(s: State, t: real, k: State): State
  {
    State(s.x + t * k.x, s.v + t * k.v)
  }

  /** h·k, componentwise. */
  function Scale(h: real, k: State): State
  {
    State(h * k.x, h * k.v)
  }

  /** A stage's increments are h times the vector field at its point. */
  lemma IncrementIsScaledField(func: Rhs, h: real, lam: real, N: real, p: State)
    ensures Increment(func, h, lam, N, p) == Scale(h, Field(func, lam, N, p))
  {
  }

  /** Adding half of the increments h·k is a shift by h/2 along k. */
  lemma HalfIncrement(s: State, h: real, k: State)
    ensures Half(s, Scale(h, k)) == Shift(s, h / 2.0, k)
  {
  }

  /** Adding the increments h·k is a shift by h along k. */
  lemma FullIncrement(s: State, h: real, k: State)
    ensures Full(s, Scale(h, k)) == Shift(s, h, k)
  {
  }

  /** The weighted sum of the increments is a shift by h/6 along the
      weighted sum of the slopes. */
  lemma Weighted(s: State, h: real, k1: State, k2: State, k3: State, k4: State)
    ensures Combine(s, Scale(h, k1), Scale(h, k2), Scale(h, k3), Scale(h, k4))
            == Shift(s, h / 6.0, State(k1.x + 2.0 * k2.x + 2.0 * k3.x + k4.x,
                                       k1.v + 2.0 * k2.v + 2.0 * k3.v + k4.v))
  {
    var c := Combine(s, Scale(h, k1), Scale(h, k2), Scale(h, k3), Scale(h, k4));
    var t := Shift(s, h / 6.0, State(k1.x + 2.0 * k2.x + 2.0 * k3.x + k4.x,
                                     k1.v + 2.0 * k2.v + 2.0 * k3.v + k4.v));
    WeightedSum(s.x, h, k1.x, k2.x, k3.x, k4.x);
    assert c.x == t.x;
    WeightedSum(s.v, h, k1.v, k2.v, k3.v, k4.v);
    assert c.v == t.v;
  }

  /** One component of Weighted: h factors out of the weighted sum. */
  lemma WeightedSum(a: real, h: real, p1: real, p2: real, p3: real, p4: real)
    ensures a + (h * p1 + 2.0 * (h * p2) + 2.0 * (h * p3) + h * p4) / 6.0
            == a + h / 6.0 * (p1 + 2.0 * p2 + 2.0 * p3 + p4)
  {
    var y := p1 + 2.0 * p2 + 2.0 * p3 + p4;
    assert h * p1 + 2.0 * (h * p2) + 2.0 * (h * p3) + h * p4 == h * y;
    assert (h * y) / 6.0 == h / 6.0 * y;
  }

  /** The loop body is the textbook RK4 step for the system: slopes k1 at s,
      k2 at s + h/2·k1, k3 at s + h/2·k2, k4 at s + h·k3 (so func is
      evaluated at those four points, each depending on the stage before),
      and s + h/6·(k1 + 2k2 + 2k3 + k4). */
  lemma StepIsClassicalRk4(func: Rhs, h: real, lam: real, N: real, s: State)
    ensures var k1 := Field(func, lam, N, s);
            var k2 := Field(func, lam, N, Shift(s, h / 2.0, k1));
            var k3 := Field(func, lam, N, Shift(s, h / 2.0, k2));
            var k4 := Field(func, lam, N, Shift(s, h, k3));
            Step(func, h, lam, N, s) ==
              Shift(s, h / 6.0, State(k1.x + 2.0 * k2.x + 2.0 * k3.x + k4.x,
                                      k1.v + 2.0 * k2.v + 2.0 * k3.v + k4.v))
  {
    var k1 := Field(func, lam, N, s);
    var d1 := Increment(func, h, lam, N, s);
    IncrementIsScaledField(func, h, lam, N, s);
    HalfIncrement(s, h, k1);
    assert Half(s, d1) == Shift(s, h / 2.0, k1);
    var k2 := Field(func, lam, N, Shift(s, h / 2.0, k1));
    var d2 := Increment(func, h, lam, N, Half(s, d1));
    IncrementIsScaledField(func, h, lam, N, Shift(s, h / 2.0, k1));
    assert d2 == Scale(h, k2);
    HalfIncrement(s, h, k2);
    var k3 := Field(func, lam, N, Shift(s, h / 2.0, k2));
    var d3 := Increment(func, h, lam, N, Half(s, d2));
    IncrementIsScaledField(func, h, lam, N, Shift(s, h / 2.0, k2));
    assert d3 == Scale(h, k3);
    FullIncrement(s, h, k3);
    var k4 := Field(func, lam, N, Shift(s, h, k3));
    var d4 := Increment(func, h, lam, N, Full(s, d3));
    IncrementIsScaledField(func, h, lam, N, Shift(s, h, k3));
    assert d4 == Scale(h, k4);
    assert Step(func, h, lam, N, s) == Combine(s, d1, d2, d3, d4);
    Weighted(s, h, k1, k2, k3, k4);
  }

  /** The loop body as a state transformer. */
  function Rk4(func: Rhs, h: real, lam: real, N: real): State -> State
  {
    s => Step(func, h, lam, N, s)
  }

  /** The state after k steps of `step` from s. */
  function Iterate(step: State -> State, s: State, k: nat): State
  {
    if k == 0 then s else step(Iterate(step, s, k - 1))
  }

  /** The loop variable after k increments `i += h`, in exact arithmetic. */
  function Tick(begin: real, h: real, k: nat): real
  {
    begin + (k as real) * h
  }

  lemma TickNext(begin: real, h: real, k: nat)
    ensures Tick(begin, h, k + 1) == Tick(begin, h, k) + h
  {
  }

  /** K, the number of passes of the loop `for (i = begin; i < end; i += h)`
      in exact arithmetic: 0 when begin >= end, else the ceiling of
      (end - begin) / h. */
  function StepCount(begin: real, end: real, h: real): (K: nat)
    requires h > 0.0 || end <= begin
    ensures K == 0 <==> end <= begin
  {
    if end <= begin then 0
    else
      var r := (end - begin) / h;
      if r.Floor as real == r then r.Floor else r.Floor + 1
  }

  lemma ScaleBelow(k: real, r: real, h: real)
    requires h > 0.0
    ensures k < r <==> k * h < r * h
  {
    if k < r {
      assert (r - k) * h > 0.0;
    } else {
      assert (k - r) * h >= 0.0;
    }
  }

  /** The loop makes a pass for tick k exactly when k < K: K counts the
      k >= 0 with begin + k·h < end. */
  lemma StepCountCounts(begin: real, end: real, h: real, k: nat)
    requires h > 0.0
    ensures k < StepCount(begin, end, h) <==> Tick(begin, h, k) < end
  {
    if end <= begin {
      assert (k as real) * h >= 0.0;
    } else {
      var r := (end - begin) / h;
      assert r * h == end - begin;
      ScaleBelow(k as real, r, h);
      assert k < StepCount(begin, end, h) <==> (k as real) < r;
    }
  }

  /** The first K states of the run from s0: the samples the loop records. */
  function Samples(step: State -> State, s0: State, K: nat): (r: seq<State>)
    ensures |r| == K
    ensures forall k :: 0 <= k < K ==> r[k] == Iterate(step, s0, k)
  {
    seq(K, k requires 0 <= k < K => Iterate(step, s0, k))
  }

  function Positions(r: seq<State>): (p: seq<real>)
    ensures |p| == |r| && forall k :: 0 <= k < |r| ==> p[k] == r[k].x
  {
    seq(|r|, k requires 0 <= k < |r| => r[k].x)
  }

  function Velocities(r: seq<State>): (p: seq<real>)
    ensures |p| == |r| && forall k :: 0 <= k < |r| ==> p[k] == r[k].v
  {
    seq(|r|, k requires 0 <= k < |r| => r[k].v)
  }

  /** The recorded run starts at s0, and each recorded sample is one RK4
      step from the one before it. */
  lemma SamplesAreSteps(func: Rhs, h: real, lam: real, N: real, s0: State, K: nat, k: nat)
    requires k < K
    ensures var S := Samples(Rk4(func, h, lam, N), s0, K);
            && S[0] == s0
            && (k > 0 ==> S[k] == Step(func, h, lam, N, S[k - 1]))
  {
  }

  /** Recording the current state extends the recorded positions and
      velocities by one entry each. */
  lemma SamplesExtend(step: State -> State, s0: State, k: nat)
    ensures var s := Iterate(step, s0, k);
            && Positions(Samples(step, s0, k + 1)) == Positions(Samples(step, s0, k)) + [s.x]
            && Velocities(Samples(step, s0, k + 1)) == Velocities(Samples(step, s0, k)) + [s.v]
  {
    var s := Iterate(step, s0, k);
    var P, P' := Positions(Samples(step, s0, k)), Positions(Samples(step, s0, k + 1));
    assert forall j :: 0 <= j < k + 1 ==> P'[j] == (P + [s.x])[j];
    var V, V' := Velocities(Samples(step, s0, k)), Velocities(Samples(step, s0, k + 1));
    assert forall j :: 0 <= j < k + 1 ==> V'[j] == (V + [s.v])[j];
  }

  /** The `for` loop of `R_K` for any step function: starting at s0
      with i = begin, it records the current state and advances it once per
      pass, K = StepCount passes in all, and ends in the state after K steps. */
  method Drive(step: State -> State, begin: real, end: real, h: real, s0: State,
               res: seq<real>, resV: seq<real>)
    returns (resOut: seq<real>, resVOut: seq<real>, last: State)
    requires h > 0.0 || end <= begin
    ensures var K := StepCount(begin, end, h);
            && resOut == res + Positions(Samples(step, s0, K))
            && resVOut == resV + Velocities(Samples(step, s0, K))
            && last == Iterate(step, s0, K)
  {
    ghost var K := StepCount(begin, end, h);
    ghost var k: nat := 0;
    var dx, dv := s0.x, s0.v;
    resOut, resVOut := res, resV;
    var i := begin;
    if begin < end {
      StepCountCounts(begin, end, h, 0);
    }
    while i < end
      invariant k <= K
      invariant k > 0 ==> h > 0.0
      invariant i == Tick(begin, h, k)
      invariant State(dx, dv) == Iterate(step, s0, k)
      invariant resOut == res + Positions(Samples(step, s0, k))
      invariant resVOut == resV + Velocities(Samples(step, s0, k))
      decreases K - k
    {
      StepCountCounts(begin, end, h, k);
      resOut := resOut + [dx];
      resVOut := resVOut + [dv];
      SamplesExtend(step, s0, k);
      var next := step(State(dx, dv));
      dx, dv := next.x, next.v;
      TickNext(begin, h, k);
      i := i + h;
      k := k + 1;
    }
    if begin < end {
      StepCountCounts(begin, end, h, k);
    }
    assert k == K;
    last := State(dx, dv);
  }

  /** `R_K(begin, end, h, lambda, x0dash, N, res, res_v)`. It only
      appends: res_v gains the K recorded velocities and res the K recorded
      positions followed by one extra value, the final velocity, where K is
      StepCount. Sample 0 is the initial state (begin, x0dash). */
  method RK(begin: real, end: real, h: real, lam: real, x0dash: real, N: real,
            func: Rhs, res: seq<real>, resV: seq<real>)
    returns (resOut: seq<real>, resVOut: seq<real>)
    requires h > 0.0 || end <= begin
    ensures var step, s0, K := Rk4(func, h, lam, N), State(begin, x0dash), StepCount(begin, end, h);
            && resOut == res + Positions(Samples(step, s0, K)) + [Iterate(step, s0, K).v]
            && resVOut == resV + Velocities(Samples(step, s0, K))
    ensures |resOut| == |res| + StepCount(begin, end, h) + 1
    ensures |resVOut| == |resV| + StepCount(begin, end, h)
    ensures end <= begin ==> resOut == res + [x0dash] && resVOut == resV
    ensures begin < end ==> resOut[|res|] == begin && resVOut[|resV|] == x0dash
  {
    var last;
    resOut, resVOut, last := Drive(Rk4(func, h, lam, N), begin, end, h, State(begin, x0dash), res, resV);
    resOut := resOut + [last.v];
  }
}
