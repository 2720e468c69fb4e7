/**
 * The shortest-path example of `bellman.py`: four nodes `a, b, c, d` (encoded
 * 0 to 3, which keeps their order), a horizon of 4 and a final cost that is 0
 * only at `d`.
 */
module BellmanExample {
  import opened Wrappers
  import opened ExtReals
  import opened Bellman

  /** `list('abcd')`. */
  const Nodes: seq<int> := [0, 1, 2, 3]

  /** `edges.get(x + u, inf)` for `edges = {'ab': 2, 'ac': 6, 'bc': 3, 'bd': 8, 'cb': 1, 'cd': 4, 'dd': 0}`. */
  function Edge(x: int, u: int): ExtReal
  {
    if x == 0 then (if u == 1 then Fin(2.0) else if u == 2 then Fin(6.0) else PosInf)
    else if x == 1 then (if u == 2 then Fin(3.0) else if u == 3 then Fin(8.0) else PosInf)
    else if x == 2 then (if u == 1 then Fin(1.0) else if u == 3 then Fin(4.0) else PosInf)
    else if x == 3 && u == 3 then Fin(0.0)
    else PosInf
  }

  /** Every node is a state at every stage, and every node is an action from every state. */
  function States(t: int): seq<int> { Nodes }

  function Actions(t: int, x: int): seq<int> { Nodes }

  function Step(t: int, x: int, u: int, T: int): int { u }

  function Cost(t: int, x: int, u: int, T: int): ExtReal
  {
    if t < T - 1 then Edge(x, u) else if x == 3 then Fin(0.0) else PosInf
  }

  function Q(): ActionValue { Deterministic(4, Step, Cost) }

  /** The table `q` holds exactly the four nodes, with entries `e0` to `e3` for `a` to `d`. */
  ghost predicate Rows(q: Table, e0: Entry, e1: Entry, e2: Entry, e3: Entry)
  {
    && (forall x :: x in q <==> x in Nodes)
    && 0 in q && 1 in q && 2 in q && 3 in q
    && q[0] == e0 && q[1] == e1 && q[2] == e2 && q[3] == e3
  }

  lemma QIs(t: int, x: int, u: int, p: Table)
    ensures Q()(t, x, u, p) == Add(Cost(t, x, u, 4), V(p, u))
  {
    assert Q()(t, x, u, p) == Add(Cost(t, x, u, 4), V(p, Step(t, x, u, 4)));
  }

  /** One state of one stage: the values of actions `a` to `d` are `v0` to `v3`, and `e` is the least entry. */
  lemma Cell(t: int, x: int, p: Table, v0: ExtReal, v1: ExtReal, v2: ExtReal, v3: ExtReal, e: Entry)
    requires Q()(t, x, 0, p) == v0
    requires Q()(t, x, 1, p) == v1
    requires Q()(t, x, 2, p) == v2
    requires Q()(t, x, 3, p) == v3
    requires e == Entry(v0, 0) || e == Entry(v1, 1) || e == Entry(v2, 2) || e == Entry(v3, 3)
    requires EntryLe(e, Entry(v0, 0)) && EntryLe(e, Entry(v1, 1)) && EntryLe(e, Entry(v2, 2)) && EntryLe(e, Entry(v3, 3))
    ensures Min(Candidates(Q(), t, x, Nodes, p)) == e
  {
    var cands := Candidates(Q(), t, x, Nodes, p);
    assert cands[0] == Entry(v0, 0);
    assert cands[1] == Entry(v1, 1);
    assert cands[2] == Entry(v2, 2);
    assert cands[3] == Entry(v3, 3);
    MinUnique(cands, e);
  }

  /** `e` is the least of the entries `(v0, 0)` to `(v3, 3)`. */
  predicate Least(e: Entry, v0: ExtReal, v1: ExtReal, v2: ExtReal, v3: ExtReal)
  {
    && (e == Entry(v0, 0) || e == Entry(v1, 1) || e == Entry(v2, 2) || e == Entry(v3, 3))
    && EntryLe(e, Entry(v0, 0)) && EntryLe(e, Entry(v1, 1)) && EntryLe(e, Entry(v2, 2)) && EntryLe(e, Entry(v3, 3))
  }

  /**
   * One state `x` of stage `t`: with stage costs `c0` to `c3` for the four
   * actions and next-stage values `w0` to `w3` of the four nodes, the entry is `e`.
   */
  lemma CellAt(t: int, x: int, p: Table, c0: ExtReal, c1: ExtReal, c2: ExtReal, c3: ExtReal,
               w0: ExtReal, w1: ExtReal, w2: ExtReal, w3: ExtReal, e: Entry)
    requires Cost(t, x, 0, 4) == c0 && Cost(t, x, 1, 4) == c1 && Cost(t, x, 2, 4) == c2 && Cost(t, x, 3, 4) == c3
    requires V(p, 0) == w0 && V(p, 1) == w1 && V(p, 2) == w2 && V(p, 3) == w3
    requires Least(e, Add(c0, w0), Add(c1, w1), Add(c2, w2), Add(c3, w3))
    ensures Min(Candidates(Q(), t, x, Nodes, p)) == e
  {
    QIs(t, x, 0, p); QIs(t, x, 1, p); QIs(t, x, 2, p); QIs(t, x, 3, p);
    Cell(t, x, p, Add(c0, w0), Add(c1, w1), Add(c2, w2), Add(c3, w3), e);
  }

  /** Every stage of the example is defined, on the four nodes, each with the least of its four candidates. */
  lemma StageShape(Qv: ActionValue, t: int, p: Table)
    ensures Stage(States, Actions, Qv, t, p).Some?
    ensures var q := Stage(States, Actions, Qv, t, p).value;
      && (forall x :: x in q <==> x in Nodes)
      && 0 in q && 1 in q && 2 in q && 3 in q
      && q[0] == Min(Candidates(Qv, t, 0, Nodes, p)) && q[1] == Min(Candidates(Qv, t, 1, Nodes, p))
      && q[2] == Min(Candidates(Qv, t, 2, Nodes, p)) && q[3] == Min(Candidates(Qv, t, 3, Nodes, p))
  {
    assert Feasible(States, Actions, t);
    assert Nodes[0] == 0 && Nodes[1] == 1 && Nodes[2] == 2 && Nodes[3] == 3;
  }

  /** A stage of the example whose entries for `a` to `d` are `es`. */
  lemma StageRows(t: int, p: Table, e0: Entry, e1: Entry, e2: Entry, e3: Entry)
    requires Min(Candidates(Q(), t, 0, Nodes, p)) == e0
    requires Min(Candidates(Q(), t, 1, Nodes, p)) == e1
    requires Min(Candidates(Q(), t, 2, Nodes, p)) == e2
    requires Min(Candidates(Q(), t, 3, Nodes, p)) == e3
    ensures Stage(States, Actions, Q(), t, p).Some?
    ensures Rows(Stage(States, Actions, Q(), t, p).value, e0, e1, e2, e3)
  {
    StageShape(Q(), t, p);
  }

  /** The stage costs of the four actions from `a` to `d` before the last stage: the edge lengths. */
  lemma CostsA(t: int)
    requires 0 <= t < 3
    ensures Cost(t, 0, 0, 4) == PosInf && Cost(t, 0, 1, 4) == Fin(2.0) && Cost(t, 0, 2, 4) == Fin(6.0) && Cost(t, 0, 3, 4) == PosInf
  {
  }

  lemma CostsB(t: int)
    requires 0 <= t < 3
    ensures Cost(t, 1, 0, 4) == PosInf && Cost(t, 1, 1, 4) == PosInf && Cost(t, 1, 2, 4) == Fin(3.0) && Cost(t, 1, 3, 4) == Fin(8.0)
  {
  }

  lemma CostsC(t: int)
    requires 0 <= t < 3
    ensures Cost(t, 2, 0, 4) == PosInf && Cost(t, 2, 1, 4) == Fin(1.0) && Cost(t, 2, 2, 4) == PosInf && Cost(t, 2, 3, 4) == Fin(4.0)
  {
  }

  lemma CostsD(t: int)
    requires 0 <= t < 3
    ensures Cost(t, 3, 0, 4) == PosInf && Cost(t, 3, 1, 4) == PosInf && Cost(t, 3, 2, 4) == PosInf && Cost(t, 3, 3, 4) == Fin(0.0)
  {
  }

  /** At the last stage only `d` costs nothing. */
  lemma CostsLast(t: int, x: int)
    requires t == 3 && 0 <= x <= 3
    ensures forall u :: Cost(t, x, u, 4) == if x == 3 then Fin(0.0) else PosInf
  {
  }

  /*
   * The sixteen cells of the run, stage by stage. The stage and the state are
   * passed as variables fixed by the precondition, so that the verifier looks
   * each cell up through `CellAt` rather than evaluating it from scratch.
   */

  lemma Row3a(p: Table, t: int, x: int)
    requires t == 3 && x == 0
    requires V(p, 0) == Fin(0.0) && V(p, 1) == Fin(0.0) && V(p, 2) == Fin(0.0) && V(p, 3) == Fin(0.0)
    ensures Min(Candidates(Q(), t, x, Nodes, p)) == Entry(PosInf, 0)
  {
    CostsLast(t, x);
    CellAt(t, x, p, PosInf, PosInf, PosInf, PosInf,
           Fin(0.0), Fin(0.0), Fin(0.0), Fin(0.0), Entry(PosInf, 0));
  }

  lemma Row3b(p: Table, t: int, x: int)
    requires t == 3 && x == 1
    requires V(p, 0) == Fin(0.0) && V(p, 1) == Fin(0.0) && V(p, 2) == Fin(0.0) && V(p, 3) == Fin(0.0)
    ensures Min(Candidates(Q(), t, x, Nodes, p)) == Entry(PosInf, 0)
  {
    CostsLast(t, x);
    CellAt(t, x, p, PosInf, PosInf, PosInf, PosInf,
           Fin(0.0), Fin(0.0), Fin(0.0), Fin(0.0), Entry(PosInf, 0));
  }

  lemma Row3c(p: Table, t: int, x: int)
    requires t == 3 && x == 2
    requires V(p, 0) == Fin(0.0) && V(p, 1) == Fin(0.0) && V(p, 2) == Fin(0.0) && V(p, 3) == Fin(0.0)
    ensures Min(Candidates(Q(), t, x, Nodes, p)) == Entry(PosInf, 0)
  {
    CostsLast(t, x);
    CellAt(t, x, p, PosInf, PosInf, PosInf, PosInf,
           Fin(0.0), Fin(0.0), Fin(0.0), Fin(0.0), Entry(PosInf, 0));
  }

  lemma Row3d(p: Table, t: int, x: int)
    requires t == 3 && x == 3
    requires V(p, 0) == Fin(0.0) && V(p, 1) == Fin(0.0) && V(p, 2) == Fin(0.0) && V(p, 3) == Fin(0.0)
    ensures Min(Candidates(Q(), t, x, Nodes, p)) == Entry(Fin(0.0), 0)
  {
    CostsLast(t, x);
    CellAt(t, x, p, Fin(0.0), Fin(0.0), Fin(0.0), Fin(0.0),
           Fin(0.0), Fin(0.0), Fin(0.0), Fin(0.0), Entry(Fin(0.0), 0));
  }

  lemma Stage3(p: Table) returns (q: Table)
    requires V(p, 0) == Fin(0.0) && V(p, 1) == Fin(0.0) && V(p, 2) == Fin(0.0) && V(p, 3) == Fin(0.0)
    ensures Stage(States, Actions, Q(), 3, p) == Some(q)
    ensures Rows(q,
                 Entry(PosInf, 0), Entry(PosInf, 0), Entry(PosInf, 0), Entry(Fin(0.0), 0))
  {
    Row3a(p, 3, 0); Row3b(p, 3, 1); Row3c(p, 3, 2); Row3d(p, 3, 3);
    StageRows(3, p, Entry(PosInf, 0), Entry(PosInf, 0), Entry(PosInf, 0), Entry(Fin(0.0), 0));
    q := Stage(States, Actions, Q(), 3, p).value;
  }


  lemma Row2a(p: Table, t: int, x: int)
    requires t == 2 && x == 0
    requires V(p, 0) == PosInf && V(p, 1) == PosInf && V(p, 2) == PosInf && V(p, 3) == Fin(0.0)
    ensures Min(Candidates(Q(), t, x, Nodes, p)) == Entry(PosInf, 0)
  {
    CostsA(t);
    CellAt(t, x, p, PosInf, Fin(2.0), Fin(6.0), PosInf,
           PosInf, PosInf, PosInf, Fin(0.0), Entry(PosInf, 0));
  }

  lemma Row2b(p: Table, t: int, x: int)
    requires t == 2 && x == 1
    requires V(p, 0) == PosInf && V(p, 1) == PosInf && V(p, 2) == PosInf && V(p, 3) == Fin(0.0)
    ensures Min(Candidates(Q(), t, x, Nodes, p)) == Entry(Fin(8.0), 3)
  {
    CostsB(t);
    CellAt(t, x, p, PosInf, PosInf, Fin(3.0), Fin(8.0),
           PosInf, PosInf, PosInf, Fin(0.0), Entry(Fin(8.0), 3));
  }

  lemma Row2c(p: Table, t: int, x: int)
    requires t == 2 && x == 2
    requires V(p, 0) == PosInf && V(p, 1) == PosInf && V(p, 2) == PosInf && V(p, 3) == Fin(0.0)
    ensures Min(Candidates(Q(), t, x, Nodes, p)) == Entry(Fin(4.0), 3)
  {
    CostsC(t);
    CellAt(t, x, p, PosInf, Fin(1.0), PosInf, Fin(4.0),
           PosInf, PosInf, PosInf, Fin(0.0), Entry(Fin(4.0), 3));
  }

  lemma Row2d(p: Table, t: int, x: int)
    requires t == 2 && x == 3
    requires V(p, 0) == PosInf && V(p, 1) == PosInf && V(p, 2) == PosInf && V(p, 3) == Fin(0.0)
    ensures Min(Candidates(Q(), t, x, Nodes, p)) == Entry(Fin(0.0), 3)
  {
    CostsD(t);
    CellAt(t, x, p, PosInf, PosInf, PosInf, Fin(0.0),
           PosInf, PosInf, PosInf, Fin(0.0), Entry(Fin(0.0), 3));
  }

  lemma Stage2(p: Table) returns (q: Table)
    requires V(p, 0) == PosInf && V(p, 1) == PosInf && V(p, 2) == PosInf && V(p, 3) == Fin(0.0)
    ensures Stage(States, Actions, Q(), 2, p) == Some(q)
    ensures Rows(q,
                 Entry(PosInf, 0), Entry(Fin(8.0), 3), Entry(Fin(4.0), 3), Entry(Fin(0.0), 3))
  {
    Row2a(p, 2, 0); Row2b(p, 2, 1); Row2c(p, 2, 2); Row2d(p, 2, 3);
    StageRows(2, p, Entry(PosInf, 0), Entry(Fin(8.0), 3), Entry(Fin(4.0), 3), Entry(Fin(0.0), 3));
    q := Stage(States, Actions, Q(), 2, p).value;
  }


  lemma Row1a(p: Table, t: int, x: int)
    requires t == 1 && x == 0
    requires V(p, 0) == PosInf && V(p, 1) == Fin(8.0) && V(p, 2) == Fin(4.0) && V(p, 3) == Fin(0.0)
    ensures Min(Candidates(Q(), t, x, Nodes, p)) == Entry(Fin(10.0), 1)
  {
    CostsA(t);
    CellAt(t, x, p, PosInf, Fin(2.0), Fin(6.0), PosInf,
           PosInf, Fin(8.0), Fin(4.0), Fin(0.0), Entry(Fin(10.0), 1));
  }

  lemma Row1b(p: Table, t: int, x: int)
    requires t == 1 && x == 1
    requires V(p, 0) == PosInf && V(p, 1) == Fin(8.0) && V(p, 2) == Fin(4.0) && V(p, 3) == Fin(0.0)
    ensures Min(Candidates(Q(), t, x, Nodes, p)) == Entry(Fin(7.0), 2)
  {
    CostsB(t);
    CellAt(t, x, p, PosInf, PosInf, Fin(3.0), Fin(8.0),
           PosInf, Fin(8.0), Fin(4.0), Fin(0.0), Entry(Fin(7.0), 2));
  }

  lemma Row1c(p: Table, t: int, x: int)
    requires t == 1 && x == 2
    requires V(p, 0) == PosInf && V(p, 1) == Fin(8.0) && V(p, 2) == Fin(4.0) && V(p, 3) == Fin(0.0)
    ensures Min(Candidates(Q(), t, x, Nodes, p)) == Entry(Fin(4.0), 3)
  {
    CostsC(t);
    CellAt(t, x, p, PosInf, Fin(1.0), PosInf, Fin(4.0),
           PosInf, Fin(8.0), Fin(4.0), Fin(0.0), Entry(Fin(4.0), 3));
  }

  lemma Row1d(p: Table, t: int, x: int)
    requires t == 1 && x == 3
    requires V(p, 0) == PosInf && V(p, 1) == Fin(8.0) && V(p, 2) == Fin(4.0) && V(p, 3) == Fin(0.0)
    ensures Min(Candidates(Q(), t, x, Nodes, p)) == Entry(Fin(0.0), 3)
  {
    CostsD(t);
    CellAt(t, x, p, PosInf, PosInf, PosInf, Fin(0.0),
           PosInf, Fin(8.0), Fin(4.0), Fin(0.0), Entry(Fin(0.0), 3));
  }

  lemma Stage1(p: Table) returns (q: Table)
    requires V(p, 0) == PosInf && V(p, 1) == Fin(8.0) && V(p, 2) == Fin(4.0) && V(p, 3) == Fin(0.0)
    ensures Stage(States, Actions, Q(), 1, p) == Some(q)
    ensures Rows(q,
                 Entry(Fin(10.0), 1), Entry(Fin(7.0), 2), Entry(Fin(4.0), 3), Entry(Fin(0.0), 3))
  {
    Row1a(p, 1, 0); Row1b(p, 1, 1); Row1c(p, 1, 2); Row1d(p, 1, 3);
    StageRows(1, p, Entry(Fin(10.0), 1), Entry(Fin(7.0), 2), Entry(Fin(4.0), 3), Entry(Fin(0.0), 3));
    q := Stage(States, Actions, Q(), 1, p).value;
  }


  lemma Row0a(p: Table, t: int, x: int)
    requires t == 0 && x == 0
    requires V(p, 0) == Fin(10.0) && V(p, 1) == Fin(7.0) && V(p, 2) == Fin(4.0) && V(p, 3) == Fin(0.0)
    ensures Min(Candidates(Q(), t, x, Nodes, p)) == Entry(Fin(9.0), 1)
  {
    CostsA(t);
    CellAt(t, x, p, PosInf, Fin(2.0), Fin(6.0), PosInf,
           Fin(10.0), Fin(7.0), Fin(4.0), Fin(0.0), Entry(Fin(9.0), 1));
  }

  lemma Row0b(p: Table, t: int, x: int)
    requires t == 0 && x == 1
    requires V(p, 0) == Fin(10.0) && V(p, 1) == Fin(7.0) && V(p, 2) == Fin(4.0) && V(p, 3) == Fin(0.0)
    ensures Min(Candidates(Q(), t, x, Nodes, p)) == Entry(Fin(7.0), 2)
  {
    CostsB(t);
    CellAt(t, x, p, PosInf, PosInf, Fin(3.0), Fin(8.0),
           Fin(10.0), Fin(7.0), Fin(4.0), Fin(0.0), Entry(Fin(7.0), 2));
  }

  lemma Row0c(p: Table, t: int, x: int)
    requires t == 0 && x == 2
    requires V(p, 0) == Fin(10.0) && V(p, 1) == Fin(7.0) && V(p, 2) == Fin(4.0) && V(p, 3) == Fin(0.0)
    ensures Min(Candidates(Q(), t, x, Nodes, p)) == Entry(Fin(4.0), 3)
  {
    CostsC(t);
    CellAt(t, x, p, PosInf, Fin(1.0), PosInf, Fin(4.0),
           Fin(10.0), Fin(7.0), Fin(4.0), Fin(0.0), Entry(Fin(4.0), 3));
  }

  lemma Row0d(p: Table, t: int, x: int)
    requires t == 0 && x == 3
    requires V(p, 0) == Fin(10.0) && V(p, 1) == Fin(7.0) && V(p, 2) == Fin(4.0) && V(p, 3) == Fin(0.0)
    ensures Min(Candidates(Q(), t, x, Nodes, p)) == Entry(Fin(0.0), 3)
  {
    CostsD(t);
    CellAt(t, x, p, PosInf, PosInf, PosInf, Fin(0.0),
           Fin(10.0), Fin(7.0), Fin(4.0), Fin(0.0), Entry(Fin(0.0), 3));
  }

  lemma Stage0(p: Table) returns (q: Table)
    requires V(p, 0) == Fin(10.0) && V(p, 1) == Fin(7.0) && V(p, 2) == Fin(4.0) && V(p, 3) == Fin(0.0)
    ensures Stage(States, Actions, Q(), 0, p) == Some(q)
    ensures Rows(q,
                 Entry(Fin(9.0), 1), Entry(Fin(7.0), 2), Entry(Fin(4.0), 3), Entry(Fin(0.0), 3))
  {
    Row0a(p, 0, 0); Row0b(p, 0, 1); Row0c(p, 0, 2); Row0d(p, 0, 3);
    StageRows(0, p, Entry(Fin(9.0), 1), Entry(Fin(7.0), 2), Entry(Fin(4.0), 3), Entry(Fin(0.0), 3));
    q := Stage(States, Actions, Q(), 0, p).value;
  }


  /** Four stages that each succeed on the previous one's table make the whole run. */
  lemma FourStages(X: int -> seq<int>, U: (int, int) -> seq<int>, Q: ActionValue, p0: Table,
                   q3: Table, q2: Table, q1: Table, q0: Table)
    requires Stage(X, U, Q, 3, p0) == Some(q3) && Stage(X, U, Q, 2, q3) == Some(q2)
    requires Stage(X, U, Q, 1, q2) == Some(q1) && Stage(X, U, Q, 0, q1) == Some(q0)
    ensures var r := StagesFrom(X, U, Q, 3, p0);
      r.1 && |r.0| == 4 && r.0[0] == (3, q3) && r.0[1] == (2, q2) && r.0[2] == (1, q1) && r.0[3] == (0, q0)
  {
    assert StagesFrom(X, U, Q, -1, q0) == ([], true);
    StagesFromStep(X, U, Q, 0, q1, q0);
    StagesFromStep(X, U, Q, 1, q2, q1);
    StagesFromStep(X, U, Q, 2, q3, q2);
    StagesFromStep(X, U, Q, 3, p0, q3);
    assert [(3, q3)] + ([(2, q2)] + ([(1, q1)] + ([(0, q0)] + []))) == [(3, q3), (2, q2), (1, q1), (0, q0)];
  }

  /**
   * `dict(policy(T=4, ...)) == P`: four stages, `3` down to `0`, with the hand-computed
   * tables, from any starting table that values every node at 0 (the empty table does).
   */
  lemma {:induction false} ShortestPaths(p0: Table)
    requires V(p0, 0) == Fin(0.0) && V(p0, 1) == Fin(0.0) && V(p0, 2) == Fin(0.0) && V(p0, 3) == Fin(0.0)
    ensures var r := StagesFrom(States, Actions, Q(), 3, p0);
      && r.1 && |r.0| == 4
      && r.0[0].0 == 3 && Rows(r.0[0].1, Entry(PosInf, 0), Entry(PosInf, 0), Entry(PosInf, 0), Entry(Fin(0.0), 0))
      && r.0[1].0 == 2 && Rows(r.0[1].1, Entry(PosInf, 0), Entry(Fin(8.0), 3), Entry(Fin(4.0), 3), Entry(Fin(0.0), 3))
      && r.0[2].0 == 1 && Rows(r.0[2].1, Entry(Fin(10.0), 1), Entry(Fin(7.0), 2), Entry(Fin(4.0), 3), Entry(Fin(0.0), 3))
      && r.0[3].0 == 0 && Rows(r.0[3].1, Entry(Fin(9.0), 1), Entry(Fin(7.0), 2), Entry(Fin(4.0), 3), Entry(Fin(0.0), 3))
  {
    var q3 := Stage3(p0);
    var q2 := Stage2(q3);
    var q1 := Stage1(q2);
    var q0 := Stage0(q1);
    FourStages(States, Actions, Q(), p0, q3, q2, q1, q0);
  }
}
