/**
 * Markov decision problems (`decision.MDP`): the stage machinery of `Bellman`
 * with the value of an action taken as an expectation over a finite
 * distribution of disturbances `w`, `sum((g(t, x, u, w) + V(f(t, x, u, w))) * p)`.
 */
module Decision {
  import opened Wrappers
  import opened ExtReals
  import opened Bellman

  /** A disturbance: a key of the dict `W(t, x, u)`; the default distribution's only key is `None`. */
  type Disturbance = Option<int>

  /** A probability. */
  type Prob = r: real | r >= 0.0

  /** The dict `{w: p}`, in its iteration order. */
  type Distribution = seq<(Disturbance, Prob)>

  /** `{None: 1}`: the problem is deterministic. */
  const PointMass: Distribution := [(None, 1.0)]

  /** `sum(vs)`: Python adds from the left, starting at 0. */
  function Total(vs: seq<ExtReal>): ExtReal
    decreases |vs|
  {
    if |vs| == 0 then Fin(0.0) else Add(Total(vs[..|vs| - 1]), vs[|vs| - 1])
  }

  /** The terms `(g(t, x, u, w) + V(f(t, x, u, w))) * p` of the expectation, one per item `(w, p)` of `ws`. */
  function Terms(ws: Distribution, f: (int, int, int, Disturbance) -> int, g: (int, int, int, Disturbance) -> ExtReal,
                 t: int, x: int, u: int, p: Table): seq<ExtReal>
  {
    seq(|ws|, i requires 0 <= i < |ws| => Scale(ws[i].1, Add(g(t, x, u, ws[i].0), V(p, f(t, x, u, ws[i].0)))))
  }

  /** `E(t, x, u, W(t, x, u))`: the action value of the stochastic problem. */
  function Expected(W: (int, int, int) -> Distribution, f: (int, int, int, Disturbance) -> int,
                    g: (int, int, int, Disturbance) -> ExtReal): ActionValue
  {
    (t: int, x: int, u: int, p: Table) => Total(Terms(W(t, x, u), f, g, t, x, u, p))
  }

  /** A sum is infinite exactly when one of its terms is. */
  lemma {:induction false} TotalInfinite(vs: seq<ExtReal>)
    ensures Total(vs) == PosInf <==> exists i :: 0 <= i < |vs| && vs[i] == PosInf
    decreases |vs|
  {
    if |vs| > 0 {
      var init := vs[..|vs| - 1];
      TotalInfinite(init);
      assert forall i :: 0 <= i < |init| ==> init[i] == vs[i];
      if Total(vs) == PosInf && Total(init) != PosInf {
        assert vs[|vs| - 1] == PosInf;
      }
    }
  }

  /** A sum of finite terms is the real sum of their values. */
  lemma {:induction false} TotalFinite(vs: seq<ExtReal>, rs: seq<real>)
    requires |rs| == |vs|
    requires forall i :: 0 <= i < |vs| ==> vs[i] == Fin(rs[i])
    ensures Total(vs) == Fin(Sum(rs))
    decreases |vs|
  {
    if |vs| > 0 {
      var n := |vs| - 1;
      TotalFinite(vs[..n], rs[..n]);
      assert rs == rs[..n] + [rs[n]];
      SumSnoc(rs[..n], rs[n]);
    }
  }

  /**
   * The expected value of an action is infinite exactly when some disturbance of
   * positive probability leads to an infinite cost-to-go (an infeasible state of
   * the inventory example, say).
   */
  lemma ExpectedInfinite(W: (int, int, int) -> Distribution, f: (int, int, int, Disturbance) -> int,
                         g: (int, int, int, Disturbance) -> ExtReal, t: int, x: int, u: int, p: Table)
    ensures Expected(W, f, g)(t, x, u, p) == PosInf <==>
      exists i :: 0 <= i < |W(t, x, u)| && W(t, x, u)[i].1 > 0.0
        && Add(g(t, x, u, W(t, x, u)[i].0), V(p, f(t, x, u, W(t, x, u)[i].0))) == PosInf
  {
    var ws := W(t, x, u);
    var vs := Terms(ws, f, g, t, x, u, p);
    assert |vs| == |ws|;
    assert forall i :: 0 <= i < |ws| ==> vs[i] == Scale(ws[i].1, Add(g(t, x, u, ws[i].0), V(p, f(t, x, u, ws[i].0))));
    TotalInfinite(vs);
    assert Expected(W, f, g)(t, x, u, p) == Total(vs);
  }

  /** Under a point mass at `w` the expectation is the cost-to-go of `w`. */
  lemma ExpectedPointMass(W: (int, int, int) -> Distribution, f: (int, int, int, Disturbance) -> int,
                          g: (int, int, int, Disturbance) -> ExtReal, t: int, x: int, u: int, p: Table, w: Disturbance)
    requires W(t, x, u) == [(w, 1.0)]
    ensures Expected(W, f, g)(t, x, u, p) == Add(g(t, x, u, w), V(p, f(t, x, u, w)))
  {
    var a := Add(g(t, x, u, w), V(p, f(t, x, u, w)));
    var vs := Terms(W(t, x, u), f, g, t, x, u, p);
    assert vs == [Scale(1.0, a)];
    assert vs[..0] == [];
    AddLaws(a, a, a);
    assert Expected(W, f, g)(t, x, u, p) == Total(vs);
  }

  /**
   * `f` and `g` with the disturbance fixed to `w(t, x, u)` and the horizon
   * ignored, as `bellman.policy` calls them (`w` is `None` for the default `W`).
   */
  function AtPoint(f: (int, int, int, Disturbance) -> int, w: (int, int, int) -> Disturbance): (int, int, int, int) -> int
  {
    (t: int, x: int, u: int, T: int) => f(t, x, u, w(t, x, u))
  }

  function CostAtPoint(g: (int, int, int, Disturbance) -> ExtReal, w: (int, int, int) -> Disturbance): (int, int, int, int) -> ExtReal
  {
    (t: int, x: int, u: int, T: int) => g(t, x, u, w(t, x, u))
  }

  /**
   * When every `W(t, x, u)` is a point mass at `w(t, x, u)` (the default
   * `{None: 1}` among them) the stochastic problem is the deterministic one of
   * `bellman.policy` with the disturbance fixed to `w`: the two runs are equal.
   */
  lemma PointMassIsDeterministic(T: int, X: int -> seq<int>, U: (int, int) -> seq<int>, W: (int, int, int) -> Distribution,
                                 w: (int, int, int) -> Disturbance,
                                 f: (int, int, int, Disturbance) -> int, g: (int, int, int, Disturbance) -> ExtReal,
                                 t: int, p0: Table)
    requires forall t, x, u :: W(t, x, u) == [(w(t, x, u), 1.0)]
    ensures StagesFrom(X, U, Expected(W, f, g), t, p0)
         == StagesFrom(X, U, Deterministic(T, AtPoint(f, w), CostAtPoint(g, w)), t, p0)
  {
    var Q1 := Expected(W, f, g);
    var Q2 := Deterministic(T, AtPoint(f, w), CostAtPoint(g, w));
    forall t, x, u, p
      ensures Q1(t, x, u, p) == Q2(t, x, u, p)
    {
      ExpectedPointMass(W, f, g, t, x, u, p, w(t, x, u));
      assert Q2(t, x, u, p) == Add(g(t, x, u, w(t, x, u)), V(p, f(t, x, u, w(t, x, u))));
    }
    StagesAgree(X, U, Q1, Q2, t, p0);
  }

  /**
   * `MDP(T, X, U, W)` with its `step` and `cost` methods: the horizon, the
   * states of each stage, the actions of each state (all states of the stage
   * by default) and the distribution of the disturbance (`{None: 1}` by default).
   */
  class MDP {
    const T: int
    const X: int -> seq<int>
    const U: (int, int) -> seq<int>
    const W: (int, int, int) -> Distribution
    const step: (int, int, int, Disturbance) -> int
    const cost: (int, int, int, Disturbance) -> ExtReal

    constructor (T: int, X: int -> seq<int>, U: Option<(int, int) -> seq<int>>, W: Option<(int, int, int) -> Distribution>,
                 step: (int, int, int, Disturbance) -> int, cost: (int, int, int, Disturbance) -> ExtReal)
      ensures this.T == T && this.X == X && this.step == step && this.cost == cost
      ensures U.Some? ==> this.U == U.value
      ensures U.None? ==> forall t, x :: this.U(t, x) == X(t)
      ensures W.Some? ==> this.W == W.value
      ensures W.None? ==> forall t, x, u :: this.W(t, x, u) == PointMass
    {
      this.T := T;
      this.X := X;
      if U.Some? {
        this.U := U.value;
      } else {
        this.U := (t: int, x: int) => X(t);
      }
      if W.Some? {
        this.W := W.value;
      } else {
        this.W := (t: int, x: int, u: int) => PointMass;
      }
      this.step := step;
      this.cost := cost;
    }

    /**
     * `policy(p)`: for `t = T - 1` down to 0, the table of stage `t` built from
     * the previous one with the expected action values, collected with a flag
     * telling whether every stage could be built.
     */
    method Policy(p0: Table) returns (stages: seq<(int, Table)>, ok: bool)
      ensures (stages, ok) == StagesFrom(X, U, Expected(W, step, cost), T - 1, p0)
    {
      var E := Expected(W, step, cost);
      var p := p0;
      var t := T - 1;
      stages := [];
      assert stages + StagesFrom(X, U, E, t, p).0 == StagesFrom(X, U, E, t, p).0;
      while t >= 0
        invariant StagesFrom(X, U, E, T - 1, p0) == (stages + StagesFrom(X, U, E, t, p).0, StagesFrom(X, U, E, t, p).1)
        decreases t + 1
      {
        if !Feasible(X, U, t) {
          ok := false;
          assert stages + [] == stages;
          return;
        }
        var q := StageTable(X, U, E, t, p);
        StagesFromStep(X, U, E, t, p, q);
        assert stages + ([(t, q)] + StagesFrom(X, U, E, t - 1, q).0)
            == (stages + [(t, q)]) + StagesFrom(X, U, E, t - 1, q).0;
        stages := stages + [(t, q)];
        p := q;
        t := t - 1;
      }
      ok := true;
      assert stages + [] == stages;
    }
  }
}
