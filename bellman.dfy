/**
 * Deterministic finite-horizon dynamic programming by backward induction
 * (`bellman.policy`), and the stage machinery shared with the stochastic version:
 * a stage's table maps every state to the `(value, action)` pair that is least in
 * tuple order among its actions, the value of an action being computed from the
 * table of the stage after it.
 */
module Bellman {
  import opened Wrappers
  import opened ExtReals

  /** A table entry `(v, u)`: the optimal value and the action achieving it. */
  datatype Entry = Entry(value: ExtReal, action: int)

  /** A stage's table, the dict `{x: (v, u)}`. */
  type Table = map<int, Entry>

  /** `p.get(x, (0, None))[0]`: a state missing from the table is worth 0. */
  function V(p: Table, x: int): ExtReal
  {
    if x in p then p[x].value else Fin(0.0)
  }

  /** Python's order on `(value, action)` tuples. */
  predicate EntryLe(a: Entry, b: Entry)
  {
    Lt(a.value, b.value) || (a.value == b.value && a.action <= b.action)
  }

  /** The tuple order is total and transitive. */
  lemma EntryOrder(a: Entry, b: Entry, c: Entry)
    ensures EntryLe(a, b) || EntryLe(b, a)
    ensures EntryLe(a, b) && EntryLe(b, a) ==> a == b
    ensures EntryLe(a, b) && EntryLe(b, c) ==> EntryLe(a, c)
  {
    LtOrder(a.value, b.value, c.value);
    LtOrder(b.value, a.value, c.value);
  }

  /** `min` of a non-empty sequence of `(value, action)` tuples. */
  function Min(cands: seq<Entry>): (r: Entry)
    requires |cands| > 0
    ensures exists i :: 0 <= i < |cands| && cands[i] == r
    ensures forall i :: 0 <= i < |cands| ==> EntryLe(r, cands[i])
  {
    if |cands| == 1 then cands[0]
    else
      var m := Min(cands[1..]);
      EntryOrder(cands[0], m, m);
      assert forall i :: 1 <= i < |cands| ==> cands[i] == cands[1..][i - 1];
      assert forall i :: 1 <= i < |cands| ==> EntryLe(cands[0], m) ==> EntryLe(cands[0], cands[i]) by {
        forall i | 1 <= i < |cands| { EntryOrder(cands[0], m, cands[i]); }
      }
      if EntryLe(cands[0], m) then cands[0] else m
  }

  /** The minimum is the one candidate that is below all the others. */
  lemma MinUnique(cands: seq<Entry>, e: Entry)
    requires exists i :: 0 <= i < |cands| && cands[i] == e
    requires forall i :: 0 <= i < |cands| ==> EntryLe(e, cands[i])
    ensures Min(cands) == e
  {
    EntryOrder(e, Min(cands), e);
  }

  /**
   * The value of an action at a state and stage, given the table of the next
   * stage: `g(t, x, u, T) + V(f(t, x, u, T))` here, an expectation in the
   * stochastic version.
   */
  type ActionValue = (int, int, int, Table) -> ExtReal

  /** The candidates `(Q(t, x, u, p), u) for u in U(t, x)` that `min` compares. */
  function Candidates(Q: ActionValue, t: int, x: int, us: seq<int>, p: Table): seq<Entry>
  {
    seq(|us|, i requires 0 <= i < |us| => Entry(Q(t, x, us[i], p), us[i]))
  }

  /** Every state of stage `t` has at least one action (otherwise `min` fails). */
  predicate Feasible(X: int -> seq<int>, U: (int, int) -> seq<int>, t: int)
  {
    forall x :: x in X(t) ==> |U(t, x)| > 0
  }

  /** `{x: min((Q(t, x, u, p), u) for u in U(t, x)) for x in X(t)}`. */
  function StageTable(X: int -> seq<int>, U: (int, int) -> seq<int>, Q: ActionValue, t: int, p: Table): Table
    requires Feasible(X, U, t)
  {
    map x | x in X(t) :: Min(Candidates(Q, t, x, U(t, x), p))
  }

  /** The table of stage `t` built from the table `p` of stage `t + 1`, or `None` if `min` fails. */
  function Stage(X: int -> seq<int>, U: (int, int) -> seq<int>, Q: ActionValue, t: int, p: Table): Option<Table>
  {
    if Feasible(X, U, t) then Some(StageTable(X, U, Q, t, p)) else None
  }

  /**
   * What the backward loop yields from stage `t` down to 0, starting from the
   * table `p` of stage `t + 1`, and whether it ran to the end without failing.
   */
  function StagesFrom(X: int -> seq<int>, U: (int, int) -> seq<int>, Q: ActionValue, t: int, p: Table): (seq<(int, Table)>, bool)
    decreases t + 1
  {
    if t < 0 then ([], true)
    else
      match Stage(X, U, Q, t, p)
      case None => ([], false)
      case Some(q) =>
        var rest := StagesFrom(X, U, Q, t - 1, q);
        ([(t, q)] + rest.0, rest.1)
  }

  /** The action value of the deterministic problem. */
  function Deterministic(T: int, f: (int, int, int, int) -> int, g: (int, int, int, int) -> ExtReal): ActionValue
  {
    (t: int, x: int, u: int, p: Table) => Add(g(t, x, u, T), V(p, f(t, x, u, T)))
  }

  /**
   * `policy(T, X, U, f, g, p)`: for `t = T - 1` down to 0, the table of stage `t`
   * built from the previous one, collected with a flag telling whether every
   * stage could be built (`min` of an empty action list stops the generator).
   */
  method Policy(T: int, X: int -> seq<int>, U: (int, int) -> seq<int>,
                f: (int, int, int, int) -> int, g: (int, int, int, int) -> ExtReal, p0: Table)
    returns (stages: seq<(int, Table)>, ok: bool)
    ensures (stages, ok) == StagesFrom(X, U, Deterministic(T, f, g), T - 1, p0)
  {
    var Q := Deterministic(T, f, g);
    var p := p0;
    var t := T - 1;
    stages := [];
    assert stages + StagesFrom(X, U, Q, t, p).0 == StagesFrom(X, U, Q, t, p).0;
    while t >= 0
      invariant StagesFrom(X, U, Q, T - 1, p0) == (stages + StagesFrom(X, U, Q, t, p).0, StagesFrom(X, U, Q, t, p).1)
      decreases t + 1
    {
      if !Feasible(X, U, t) {
        ok := false;
        assert stages + [] == stages;
        return;
      }
      var q := StageTable(X, U, Q, t, p);
      StagesFromStep(X, U, Q, t, p, q);
      assert stages + ([(t, q)] + StagesFrom(X, U, Q, t - 1, q).0)
          == (stages + [(t, q)]) + StagesFrom(X, U, Q, t - 1, q).0;
      stages := stages + [(t, q)];
      p := q;
      t := t - 1;
    }
    ok := true;
    assert stages + [] == stages;
  }

  /** One step of the run: a stage that can be built is yielded, then the run goes on from it. */
  lemma StagesFromStep(X: int -> seq<int>, U: (int, int) -> seq<int>, Q: ActionValue, t: int, p: Table, q: Table)
    requires t >= 0 && Stage(X, U, Q, t, p) == Some(q)
    ensures StagesFrom(X, U, Q, t, p) == ([(t, q)] + StagesFrom(X, U, Q, t - 1, q).0, StagesFrom(X, U, Q, t - 1, q).1)
  {
  }

  /**
   * The loop yields stages `t, t - 1, ...` in that order, one each, never one
   * above `t`; when it does not fail it yields all of `t` down to 0.
   */
  lemma {:induction false} StagesDescend(X: int -> seq<int>, U: (int, int) -> seq<int>, Q: ActionValue, t: int, p: Table)
    ensures var r := StagesFrom(X, U, Q, t, p);
      && |r.0| <= (if t >= 0 then t + 1 else 0)
      && (r.1 ==> |r.0| == (if t >= 0 then t + 1 else 0))
      && (forall i :: 0 <= i < |r.0| ==> r.0[i].0 == t - i)
    decreases t + 1
  {
    if t >= 0 {
      match Stage(X, U, Q, t, p)
      case None =>
      case Some(q) =>
        StagesDescend(X, U, Q, t - 1, q);
    }
  }

  /**
   * Each yielded table is built from the one yielded just before it (from `p`
   * for the first), and a run that fails stops at the first stage that cannot
   * be built.
   */
  lemma {:induction false} StagesChain(X: int -> seq<int>, U: (int, int) -> seq<int>, Q: ActionValue, t: int, p: Table)
    ensures var r := StagesFrom(X, U, Q, t, p);
      && (|r.0| > 0 ==> Stage(X, U, Q, t, p) == Some(r.0[0].1))
      && (forall i :: 0 < i < |r.0| ==> Stage(X, U, Q, t - i, r.0[i - 1].1) == Some(r.0[i].1))
      && (!r.1 && |r.0| == 0 ==> Stage(X, U, Q, t, p) == None)
      && (!r.1 && |r.0| > 0 ==> Stage(X, U, Q, t - |r.0|, r.0[|r.0| - 1].1) == None)
    decreases t + 1
  {
    if t >= 0 {
      match Stage(X, U, Q, t, p)
      case None =>
      case Some(q) =>
        StagesChain(X, U, Q, t - 1, q);
        var r := StagesFrom(X, U, Q, t, p);
        var rest := StagesFrom(X, U, Q, t - 1, q);
        assert r.0 == [(t, q)] + rest.0;
        forall i | 0 < i < |r.0|
          ensures Stage(X, U, Q, t - i, r.0[i - 1].1) == Some(r.0[i].1)
        {
          if i > 1 {
            assert r.0[i - 1] == rest.0[i - 2] && r.0[i] == rest.0[i - 1];
            assert t - 1 - (i - 1) == t - i;
          }
        }
    }
  }

  /**
   * A stage table has exactly one entry per state of `X(t)`. Each entry `(v, u)`
   * has `u` among the actions, `v` the value of `u`, `v` at most the value of any
   * action, and `u` the smallest among the actions of value `v`. A stage can be
   * built exactly when no state has an empty action list.
   */
  lemma StageOptimal(X: int -> seq<int>, U: (int, int) -> seq<int>, Q: ActionValue, t: int, p: Table)
    ensures Stage(X, U, Q, t, p).Some? <==> Feasible(X, U, t)
    ensures Stage(X, U, Q, t, p).Some? ==>
      var q := Stage(X, U, Q, t, p).value;
      && (forall x :: x in q <==> x in X(t))
      && (forall x :: x in q ==>
            && q[x].action in U(t, x)
            && q[x].value == Q(t, x, q[x].action, p)
            && (forall u :: u in U(t, x) ==> Le(q[x].value, Q(t, x, u, p)))
            && (forall u :: u in U(t, x) && Q(t, x, u, p) == q[x].value ==> q[x].action <= u))
  {
    if Feasible(X, U, t) {
      var q := Stage(X, U, Q, t, p).value;
      forall x | x in q
        ensures q[x].action in U(t, x)
        ensures q[x].value == Q(t, x, q[x].action, p)
        ensures forall u :: u in U(t, x) ==> Le(q[x].value, Q(t, x, u, p))
        ensures forall u :: u in U(t, x) && Q(t, x, u, p) == q[x].value ==> q[x].action <= u
      {
        var us := U(t, x);
        var cands := Candidates(Q, t, x, us, p);
        assert q[x] == Min(cands);
        var k :| 0 <= k < |cands| && cands[k] == q[x];
        forall u | u in us
          ensures Le(q[x].value, Q(t, x, u, p))
          ensures Q(t, x, u, p) == q[x].value ==> q[x].action <= u
        {
          var j :| 0 <= j < |us| && us[j] == u;
          assert EntryLe(q[x], cands[j]);
        }
      }
    }
  }

  lemma CandidatesAgree(Q1: ActionValue, Q2: ActionValue, t: int, x: int, us: seq<int>, p: Table)
    requires forall u :: Q1(t, x, u, p) == Q2(t, x, u, p)
    ensures Candidates(Q1, t, x, us, p) == Candidates(Q2, t, x, us, p)
  {
    var c1, c2 := Candidates(Q1, t, x, us, p), Candidates(Q2, t, x, us, p);
    forall i | 0 <= i < |us| ensures c1[i] == c2[i] {
      assert c1[i] == Entry(Q1(t, x, us[i], p), us[i]) && c2[i] == Entry(Q2(t, x, us[i], p), us[i]);
    }
  }

  lemma StageAgree(X: int -> seq<int>, U: (int, int) -> seq<int>, Q1: ActionValue, Q2: ActionValue, t: int, p: Table)
    requires forall x, u :: Q1(t, x, u, p) == Q2(t, x, u, p)
    ensures Stage(X, U, Q1, t, p) == Stage(X, U, Q2, t, p)
  {
    if Feasible(X, U, t) {
      var m1 := StageTable(X, U, Q1, t, p);
      var m2 := StageTable(X, U, Q2, t, p);
      forall x | x in X(t)
        ensures m1[x] == m2[x]
      {
        CandidatesAgree(Q1, Q2, t, x, U(t, x), p);
      }
      assert m1 == m2;
    }
  }

  /** Action values that agree everywhere give the same run. */
  lemma {:induction false} StagesAgree(X: int -> seq<int>, U: (int, int) -> seq<int>, Q1: ActionValue, Q2: ActionValue, t: int, p: Table)
    requires forall t, x, u, p :: Q1(t, x, u, p) == Q2(t, x, u, p)
    ensures StagesFrom(X, U, Q1, t, p) == StagesFrom(X, U, Q2, t, p)
    decreases t + 1
  {
    if t >= 0 {
      StageAgree(X, U, Q1, Q2, t, p);
      match Stage(X, U, Q1, t, p)
      case None =>
      case Some(q) =>
        StagesAgree(X, U, Q1, Q2, t - 1, q);
    }
  }
}
