/**
 * Costs and values of the dynamic-programming tables: a real number or positive
 * infinity (`float('inf')`), with the sum, the scaling by a probability and the
 * order that the tables use; and the plain sum of a sequence of reals.
 */
module ExtReals {

  datatype ExtReal = Fin(r: real) | PosInf

  function Add(a: ExtReal, b: ExtReal): ExtReal
  {
    if a.PosInf? || b.PosInf? then PosInf else Fin(a.r + b.r)
  }

  /**
   * `e * p` for a probability `p`. Infinity times a positive number is infinity;
   * infinity times zero, NaN in floating point, is taken to be 0.
   */
  function Scale(p: real, e: ExtReal): ExtReal
    requires p >= 0.0
  {
    if e.PosInf? then (if p > 0.0 then PosInf else Fin(0.0)) else Fin(p * e.r)
  }

  /** `a < b`, with infinity above every real and not below itself. */
  predicate Lt(a: ExtReal, b: ExtReal)
  {
    match (a, b)
    case (Fin(x), Fin(y)) => x < y
    case (Fin(_), PosInf) => true
    case (PosInf, _) => false
  }

  predicate Le(a: ExtReal, b: ExtReal)
  {
    Lt(a, b) || a == b
  }

  /** `<` is a strict total order. */
  lemma LtOrder(a: ExtReal, b: ExtReal, c: ExtReal)
    ensures !Lt(a, a)
    ensures Lt(a, b) && Lt(b, c) ==> Lt(a, c)
    ensures Lt(a, b) || a == b || Lt(b, a)
  {
  }

  /** `0` is neutral, `1` scales nothing, and the sum is associative and commutative. */
  lemma AddLaws(a: ExtReal, b: ExtReal, c: ExtReal)
    ensures Add(Fin(0.0), a) == a && Add(a, Fin(0.0)) == a
    ensures Scale(1.0, a) == a
    ensures Add(a, b) == Add(b, a)
    ensures Add(Add(a, b), c) == Add(a, Add(b, c))
  {
  }

  /** `sum(rs)` of reals (exact arithmetic, so the order of the additions does not matter). */
  function Sum(rs: seq<real>): real
    decreases |rs|
  {
    if |rs| == 0 then 0.0 else rs[0] + Sum(rs[1..])
  }

  /** Adding one more term at the end, as Python's `sum` does. */
  lemma {:induction false} SumSnoc(rs: seq<real>, x: real)
    ensures Sum(rs + [x]) == Sum(rs) + x
    decreases |rs|
  {
    if |rs| > 0 {
      assert (rs + [x])[1..] == rs[1..] + [x];
      SumSnoc(rs[1..], x);
    }
  }
}
