/**
 * The Markov-chain toolkit of `markov.py`: distributions and value vectors as
 * dicts from states to reals, kept here as association lists in insertion
 * order, which the model takes as the dicts' enumeration order; transition
 * kernels as dicts of such rows; cumulative distributions and inverse-CDF
 * picking; expectations; total variation; forward propagation of a
 * distribution and backward propagation of values.
 */
module Markov {
  import opened Wrappers
  import opened ExtReals

  /** A dict `{state: real}` (a distribution or a value vector), its keys in insertion order. */
  type Dist = seq<(int, real)>

  /** A dict of rows `{i: {j: P(i, j)}}`, its keys in insertion order. */
  type Kernel = seq<(int, Dist)>

  /** The keys of a dict, `set(d)`. */
  function KeySet(d: Dist): set<int>
    decreases |d|
  {
    if |d| == 0 then {} else {d[0].0} + KeySet(d[1..])
  }

  /** A dict has each key once. */
  predicate IsDict(d: Dist)
    decreases |d|
  {
    |d| == 0 || (d[0].0 !in KeySet(d[1..]) && IsDict(d[1..]))
  }

  function RowKeys(P: Kernel): set<int>
    decreases |P|
  {
    if |P| == 0 then {} else {P[0].0} + RowKeys(P[1..])
  }

  /** Each row's key appears once, and every row is a dict. */
  predicate IsKernel(P: Kernel)
    decreases |P|
  {
    |P| == 0 || (P[0].0 !in RowKeys(P[1..]) && IsDict(P[0].1) && IsKernel(P[1..]))
  }

  /** `d.get(k, 0)`. */
  function Get(d: Dist, k: int): real
    decreases |d|
  {
    if |d| == 0 then 0.0 else if d[0].0 == k then d[0].1 else Get(d[1..], k)
  }

  /** `P.get(i, {})`. */
  function RowOf(P: Kernel, i: int): Dist
    decreases |P|
  {
    if |P| == 0 then [] else if P[0].0 == i then P[0].1 else RowOf(P[1..], i)
  }

  /** `d[k] = v`: an existing key keeps its place, a new one goes last in insertion order. */
  function Put(d: Dist, k: int, v: real): Dist
    decreases |d|
  {
    if |d| == 0 then [(k, v)]
    else if d[0].0 == k then [(k, v)] + d[1..]
    else [d[0]] + Put(d[1..], k, v)
  }

  /** The lookup function of a dict. */
  function Lookup(d: Dist): int -> real
  {
    k => Get(d, k)
  }

  /** `sum(d[k] * w(k) for k in d)`. */
  function WSum(d: Dist, w: int -> real): real
    decreases |d|
  {
    if |d| == 0 then 0.0 else d[0].1 * w(d[0].0) + WSum(d[1..], w)
  }

  function Unit(k: int): real { 1.0 }

  /** The total mass `sum(d.values())`. */
  function Mass(d: Dist): real
  {
    WSum(d, Unit)
  }

  /** `dot(x, y)`: `sum(x[k] * y.get(k, 0) for k in x)`. */
  function Dot(x: Dist, y: Dist): real
  {
    WSum(x, Lookup(y))
  }

  // ---------------------------------------------------------------- dicts

  /** The value stored under a key, and 0 for a key that is not there. */
  lemma {:induction false} GetKeys(d: Dist, k: int)
    requires IsDict(d)
    ensures forall i :: 0 <= i < |d| && d[i].0 == k ==> Get(d, k) == d[i].1
    ensures k !in KeySet(d) ==> Get(d, k) == 0.0
    decreases |d|
  {
    if |d| > 0 {
      GetKeys(d[1..], k);
      assert forall i :: 1 <= i < |d| ==> d[i] == d[1..][i - 1];
      if d[0].0 == k {
        KeySetHas(d[1..]);
      }
    }
  }

  /** Every key of the list is in its key set. */
  lemma {:induction false} KeySetHas(d: Dist)
    ensures forall i :: 0 <= i < |d| ==> d[i].0 in KeySet(d)
    decreases |d|
  {
    if |d| > 0 {
      KeySetHas(d[1..]);
      assert forall i :: 1 <= i < |d| ==> d[i] == d[1..][i - 1];
    }
  }

  /** After `d[k] = v`, `k` reads `v` and every other key reads as before. */
  lemma {:induction false} PutGet(d: Dist, k: int, v: real)
    ensures forall j :: Get(Put(d, k, v), j) == if j == k then v else Get(d, j)
    decreases |d|
  {
    if |d| > 0 && d[0].0 != k {
      PutGet(d[1..], k, v);
      assert ([d[0]] + Put(d[1..], k, v))[1..] == Put(d[1..], k, v);
    }
  }

  /** `d[k] = v` adds `k` to the keys, and a dict stays a dict. */
  lemma {:induction false} PutKeys(d: Dist, k: int, v: real)
    ensures KeySet(Put(d, k, v)) == KeySet(d) + {k}
    ensures IsDict(d) ==> IsDict(Put(d, k, v))
    decreases |d|
  {
    if |d| == 0 {
      assert Put(d, k, v)[1..] == [];
    } else if d[0].0 == k {
      assert ([(k, v)] + d[1..])[1..] == d[1..];
    } else {
      PutKeys(d[1..], k, v);
      assert ([d[0]] + Put(d[1..], k, v))[1..] == Put(d[1..], k, v);
    }
  }

  /** The weighted sum changes by the weight of the key times the change of its value. */
  lemma {:induction false} PutWSum(d: Dist, k: int, v: real, w: int -> real)
    requires IsDict(d)
    ensures WSum(Put(d, k, v), w) == WSum(d, w) - Get(d, k) * w(k) + v * w(k)
    decreases |d|
  {
    if |d| > 0 {
      if d[0].0 == k {
        GetKeys(d[1..], k);
        assert ([(k, v)] + d[1..])[1..] == d[1..];
      } else {
        PutWSum(d[1..], k, v, w);
        assert ([d[0]] + Put(d[1..], k, v))[1..] == Put(d[1..], k, v);
      }
    }
  }
  /** The weighted sum of a concatenation is the sum of the two. */
  lemma {:induction false} WSumAppend(a: Dist, b: Dist, w: int -> real)
    ensures WSum(a + b, w) == WSum(a, w) + WSum(b, w)
    decreases |a|
  {
    if |a| == 0 {
      assert a + b == b;
    } else {
      assert (a + b)[1..] == a[1..] + b;
      WSumAppend(a[1..], b, w);
    }
  }

  /** Weights that agree on the keys give the same weighted sum. */
  lemma {:induction false} WSumAgree(d: Dist, w1: int -> real, w2: int -> real)
    requires forall k :: k in KeySet(d) ==> w1(k) == w2(k)
    ensures WSum(d, w1) == WSum(d, w2)
    decreases |d|
  {
    if |d| > 0 {
      var k := d[0].0;
      assert k in KeySet(d) ==> w1(k) == w2(k);
      WSumAgree(d[1..], w1, w2);
    }
  }

  /** All values are non-negative (a distribution). */
  predicate NonNegative(d: Dist)
  {
    forall i :: 0 <= i < |d| ==> d[i].1 >= 0.0
  }

  /** The mass of the first `i` entries grows with `i` when no value is negative. */
  lemma MassMonotone(d: Dist, i: int, j: int)
    requires NonNegative(d) && 0 <= i <= j <= |d|
    ensures Mass(d[..i]) <= Mass(d[..j])
  {
    assert d[..j] == d[..i] + d[i..j];
    WSumAppend(d[..i], d[i..j], Unit);
    MassNonNegative(d[i..j]);
  }

  lemma {:induction false} MassNonNegative(d: Dist)
    requires NonNegative(d)
    ensures Mass(d) >= 0.0
    decreases |d|
  {
    if |d| > 0 {
      MassNonNegative(d[1..]);
    }
  }

  // ---------------------------------------------------------------- cumulative sums and picking

  /** The running totals `cumsum(vs, s)` yields. */
  function PrefixSums(vs: seq<real>, s: real): (r: seq<real>)
    ensures |r| == |vs|
    decreases |vs|
  {
    if |vs| == 0 then [] else [s + vs[0]] + PrefixSums(vs[1..], s + vs[0])
  }

  /** The `i`-th running total is the start plus the first `i + 1` values; the last one is the start plus the total. */
  lemma {:induction false} PrefixSumsAt(vs: seq<real>, s: real)
    ensures forall i :: 0 <= i < |vs| ==> PrefixSums(vs, s)[i] == s + Sum(vs[..i + 1])
    ensures |vs| > 0 ==> PrefixSums(vs, s)[|vs| - 1] == s + Sum(vs)
    decreases |vs|
  {
    if |vs| > 0 {
      PrefixSumsAt(vs[1..], s + vs[0]);
      forall i | 0 <= i < |vs| ensures PrefixSums(vs, s)[i] == s + Sum(vs[..i + 1]) {
        assert vs[..i + 1][1..] == vs[1..][..i];
      }
      assert vs[..|vs|] == vs;
    }
  }

  /** `cumsum(vs, s)`: the loop adding each value to `s` and yielding it. */
  method CumSum(vs: seq<real>, s0: real) returns (r: seq<real>)
    ensures r == PrefixSums(vs, s0)
  {
    var s := s0;
    r := [];
    var i := 0;
    while i < |vs|
      invariant 0 <= i <= |vs|
      invariant r + PrefixSums(vs[i..], s) == PrefixSums(vs, s0)
    {
      assert vs[i..][1..] == vs[i + 1..];
      assert r + PrefixSums(vs[i..], s) == (r + [s + vs[i]]) + PrefixSums(vs[i + 1..], s + vs[i]);
      s := s + vs[i];
      r := r + [s];
      i := i + 1;
    }
    assert r + [] == r;
  }

  /** `pi.values()`. */
  function DictValues(d: Dist): (r: seq<real>)
    ensures |r| == |d|
  {
    seq(|d|, i requires 0 <= i < |d| => d[i].1)
  }

  /** The total of the values is the mass. */
  lemma {:induction false} SumDictValues(d: Dist)
    ensures Sum(DictValues(d)) == Mass(d)
    decreases |d|
  {
    if |d| > 0 {
      assert DictValues(d)[1..] == DictValues(d[1..]);
      SumDictValues(d[1..]);
    }
  }

  /** `cumdist(pi)`: each key with the running sum of the values. */
  function CumDist(pi: Dist): (r: Dist)
    ensures |r| == |pi|
  {
    var c := PrefixSums(DictValues(pi), 0.0);
    seq(|pi|, i requires 0 <= i < |pi| => (pi[i].0, c[i]))
  }

  /** Each key of `cumdist(pi)` maps to the mass of the entries up to and including it. */
  lemma CumDistAt(pi: Dist)
    ensures forall i :: 0 <= i < |pi| ==> CumDist(pi)[i] == (pi[i].0, Mass(pi[..i + 1]))
  {
    PrefixSumsAt(DictValues(pi), 0.0);
    forall i | 0 <= i < |pi| ensures CumDist(pi)[i] == (pi[i].0, Mass(pi[..i + 1])) {
      assert DictValues(pi)[..i + 1] == DictValues(pi[..i + 1]);
      SumDictValues(pi[..i + 1]);
    }
  }

  /** `pick(u, c)`: the first key whose cumulative value reaches `u`; `None` when none does. */
  function PickFrom(c: Dist, u: real): Option<int>
    decreases |c|
  {
    if |c| == 0 then None else if u <= c[0].1 then Some(c[0].0) else PickFrom(c[1..], u)
  }

  /** `sample(pi)`'s `pick(u)` with its default `c = cumdist(pi)`. */
  function Pick(pi: Dist, u: real): Option<int>
  {
    PickFrom(CumDist(pi), u)
  }

  /** `pick` returns the key of the first boundary at or above `u`, and `None` exactly when there is none. */
  lemma {:induction false} PickFirst(c: Dist, u: real)
    ensures PickFrom(c, u).None? <==> forall i :: 0 <= i < |c| ==> c[i].1 < u
    ensures PickFrom(c, u).Some? ==>
      exists i :: 0 <= i < |c| && u <= c[i].1 && PickFrom(c, u).value == c[i].0 && forall j :: 0 <= j < i ==> c[j].1 < u
    decreases |c|
  {
    if |c| > 0 && c[0].1 < u {
      PickFirst(c[1..], u);
      assert forall i :: 1 <= i < |c| ==> c[i] == c[1..][i - 1];
      if PickFrom(c, u).Some? {
        var i :| 0 <= i < |c[1..]| && u <= c[1..][i].1 && PickFrom(c, u).value == c[1..][i].0
          && forall j :: 0 <= j < i ==> c[1..][j].1 < u;
        assert forall j :: 1 <= j < i + 1 ==> c[j] == c[1..][j - 1];
        assert u <= c[i + 1].1 && PickFrom(c, u).value == c[i + 1].0;
      }
    }
  }

  /**
   * Inverse-CDF sampling: with no negative probability, `pick(u)` returns the
   * `i`-th key for every `u` above the mass before it and at most the mass up
   * to it. `PickInverseCdfOnly` proves the converse, and `PickAboveMass` the
   * `None` above the total mass.
   */
  lemma PickInverseCdf(pi: Dist, u: real, i: int)
    requires NonNegative(pi) && 0 <= i < |pi|
    requires Mass(pi[..i]) < u <= Mass(pi[..i + 1])
    ensures Pick(pi, u) == Some(pi[i].0)
  {
    var c := CumDist(pi);
    CumDistAt(pi);
    PickFirst(c, u);
    assert c[i].1 == Mass(pi[..i + 1]);
    var j :| 0 <= j < |c| && u <= c[j].1 && Pick(pi, u).value == c[j].0 && forall k :: 0 <= k < j ==> c[k].1 < u;
    if j < i {
      MassMonotone(pi, j + 1, i);
    }
  }

  /** In a dict, no later entry has the first entry's key. */
  lemma HeadKeyUnique(d: Dist)
    requires IsDict(d) && |d| > 0
    ensures forall k :: 1 <= k < |d| ==> d[k].0 != d[0].0
  {
    KeySetHas(d[1..]);
    assert forall k :: 1 <= k < |d| ==> d[k] == d[1..][k - 1];
  }

  /** In a dict, two entries with the same key are the same entry. */
  lemma {:induction false} DictKeysDistinct(d: Dist, i: int, j: int)
    requires IsDict(d) && 0 <= i < |d| && 0 <= j < |d| && d[i].0 == d[j].0
    ensures i == j
    decreases |d|
  {
    HeadKeyUnique(d);
    if i > 0 && j > 0 {
      assert d[1..][i - 1] == d[i] && d[1..][j - 1] == d[j];
      DictKeysDistinct(d[1..], i - 1, j - 1);
    }
  }

  /**
   * The converse of `PickInverseCdf`: in a dict, a positive `u` picks the
   * `i`-th key only when it is above the mass before it and at most the mass
   * up to it.
   */
  lemma PickInverseCdfOnly(pi: Dist, u: real, i: int)
    requires IsDict(pi) && 0 <= i < |pi| && u > 0.0
    requires Pick(pi, u) == Some(pi[i].0)
    ensures Mass(pi[..i]) < u <= Mass(pi[..i + 1])
  {
    var c := CumDist(pi);
    CumDistAt(pi);
    PickFirst(c, u);
    var j :| 0 <= j < |c| && u <= c[j].1 && Pick(pi, u).value == c[j].0 && forall k :: 0 <= k < j ==> c[k].1 < u;
    DictKeysDistinct(pi, i, j);
    if i > 0 {
      assert c[i - 1].1 == Mass(pi[..i]);
    } else {
      assert pi[..i] == [];
    }
  }

  /** Above the total mass of a distribution, `pick` finds nothing. */
  lemma PickAboveMass(pi: Dist, u: real)
    requires NonNegative(pi) && u > Mass(pi)
    ensures Pick(pi, u) == None
  {
    var c := CumDist(pi);
    CumDistAt(pi);
    PickFirst(c, u);
    forall i | 0 <= i < |c| ensures c[i].1 < u {
      MassMonotone(pi, i + 1, |pi|);
      assert pi[..|pi|] == pi;
    }
  }

  /** A picked state is a key of the distribution. */
  lemma PickInSupport(pi: Dist, u: real)
    ensures Pick(pi, u).Some? ==> Pick(pi, u).value in KeySet(pi)
  {
    var c := CumDist(pi);
    PickFirst(c, u);
    KeySetHas(pi);
  }
  // ---------------------------------------------------------------- expectations

  /** The keys of a dict in insertion order, `list(pi)`. */
  function Keys(d: Dist): (r: seq<int>)
    ensures |r| == |d|
  {
    seq(|d|, i requires 0 <= i < |d| => d[i].0)
  }

  /** `expected(pi, f, X)`: `sum(f(x) * pi.get(x, 0) for x in X)`. */
  function Expected(pi: Dist, f: int -> real, X: seq<int>): real
    decreases |X|
  {
    if |X| == 0 then 0.0 else f(X[0]) * Get(pi, X[0]) + Expected(pi, f, X[1..])
  }

  /** `probability(pi, E)`: `sum(pi.get(e, 0) for e in E)`. */
  function Probability(pi: Dist, E: seq<int>): real
    decreases |E|
  {
    if |E| == 0 then 0.0 else Get(pi, E[0]) + Probability(pi, E[1..])
  }

  /** The probability of an event is the expectation of its indicator. */
  lemma {:induction false} ProbabilityIsExpected(pi: Dist, E: seq<int>)
    ensures Probability(pi, E) == Expected(pi, Unit, E)
    decreases |E|
  {
    if |E| > 0 {
      ProbabilityIsExpected(pi, E[1..]);
    }
  }

  /** Distributions that agree on the domain have the same expectation. */
  lemma {:induction false} ExpectedAgree(pi1: Dist, pi2: Dist, f: int -> real, X: seq<int>)
    requires forall i :: 0 <= i < |X| ==> Get(pi1, X[i]) == Get(pi2, X[i])
    ensures Expected(pi1, f, X) == Expected(pi2, f, X)
    decreases |X|
  {
    if |X| > 0 {
      assert forall i :: 1 <= i < |X| ==> X[1..][i - 1] == X[i];
      ExpectedAgree(pi1, pi2, f, X[1..]);
    }
  }

  /**
   * Over the support of a dict, `expected` is the weighted sum of `f` and
   * `probability` is the total mass.
   */
  lemma {:induction false} ExpectedOnSupport(pi: Dist, f: int -> real)
    requires IsDict(pi)
    ensures Expected(pi, f, Keys(pi)) == WSum(pi, f)
    ensures Probability(pi, Keys(pi)) == Mass(pi)
    decreases |pi|
  {
    if |pi| > 0 {
      var rest := pi[1..];
      var K := Keys(pi);
      assert K[1..] == Keys(rest);
      KeySetHas(rest);
      forall i | 0 <= i < |K[1..]| ensures Get(pi, K[1..][i]) == Get(rest, K[1..][i]) {
        assert K[1..][i] == rest[i].0 && rest[i].0 in KeySet(rest);
      }
      ExpectedAgree(pi, rest, f, K[1..]);
      ExpectedAgree(pi, rest, Unit, K[1..]);
      ExpectedOnSupport(rest, f);
      ProbabilityIsExpected(pi, K);
      ProbabilityIsExpected(rest, Keys(rest));
      ExpectedOnSupport(rest, Unit);
    }
  }

  /** A state outside the support adds nothing to an expectation. */
  lemma {:induction false} ExpectedOutsideSupport(pi: Dist, f: int -> real, X: seq<int>, x: int)
    requires IsDict(pi) && x !in KeySet(pi)
    ensures Expected(pi, f, X + [x]) == Expected(pi, f, X)
    decreases |X|
  {
    GetKeys(pi, x);
    if |X| == 0 {
      assert X + [x] == [x];
    } else {
      assert (X + [x])[1..] == X[1..] + [x];
      ExpectedOutsideSupport(pi, f, X[1..], x);
    }
  }

  // ---------------------------------------------------------------- total variation

  lemma {:induction false} MinExists(s: set<int>)
    requires s != {}
    ensures exists m :: m in s && forall k :: k in s ==> m <= k
    decreases |s|
  {
    if forall y :: y !in s {
      assert false;
    }
    var x :| x in s;
    if s != {x} {
      MinExists(s - {x});
      var m :| m in s - {x} && forall k :: k in s - {x} ==> m <= k;
      if x < m {
        forall k | k in s ensures x <= k {
          if k != x { assert k in s - {x}; }
        }
      } else {
        forall k | k in s ensures m <= k {
          if k != x { assert k in s - {x}; }
        }
      }
    } else {
      assert forall k :: k in s ==> x <= k;
    }
  }

  function SetMin(s: set<int>): (m: int)
    requires s != {}
    ensures m in s && forall k :: k in s ==> m <= k
  {
    MinExists(s);
    var m :| m in s && forall k :: k in s ==> m <= k;
    m
  }

  /** `sum(f(k) for k in s)` over a set (exact arithmetic, so the iteration order does not matter). */
  function SetSum(s: set<int>, f: int -> real): real
    decreases |s|
  {
    if s == {} then 0.0 else var m := SetMin(s); f(m) + SetSum(s - {m}, f)
  }

  /** Any element can be taken out first. */
  lemma {:induction false} SetSumRemove(s: set<int>, f: int -> real, k: int)
    requires k in s
    ensures SetSum(s, f) == f(k) + SetSum(s - {k}, f)
    decreases |s|
  {
    var m := SetMin(s);
    if k != m {
      SetSumRemove(s - {m}, f, k);
      SetSumRemove(s - {k}, f, m);
      assert s - {m} - {k} == s - {k} - {m};
    }
  }

  /** The sum over a disjoint union is the sum of the sums. */
  lemma {:induction false} SetSumUnion(a: set<int>, b: set<int>, f: int -> real)
    requires a !! b
    ensures SetSum(a + b, f) == SetSum(a, f) + SetSum(b, f)
    decreases |a|
  {
    if a == {} {
      assert a + b == b;
    } else {
      var m := SetMin(a);
      SetSumUnion(a - {m}, b, f);
      SetSumRemove(a + b, f, m);
      assert (a + b) - {m} == (a - {m}) + b;
    }
  }

  /** Functions that agree on the set have the same sum. */
  lemma {:induction false} SetSumAgree(s: set<int>, f: int -> real, g: int -> real)
    requires forall k :: k in s ==> f(k) == g(k)
    ensures SetSum(s, f) == SetSum(s, g)
    decreases |s|
  {
    if s != {} {
      var m := SetMin(s);
      assert m in s ==> f(m) == g(m);
      SetSumAgree(s - {m}, f, g);
    }
  }

  /** A sum of zeros, or of non-negative terms. */
  lemma {:induction false} SetSumSign(s: set<int>, f: int -> real)
    ensures (forall k :: k in s ==> f(k) == 0.0) ==> SetSum(s, f) == 0.0
    ensures (forall k :: k in s ==> f(k) >= 0.0) ==> SetSum(s, f) >= 0.0
    decreases |s|
  {
    if s != {} {
      var m := SetMin(s);
      assert m in s;
      SetSumSign(s - {m}, f);
    }
  }

  /** Summing a dict's values over its key set gives its mass. */
  lemma {:induction false} SetSumMass(d: Dist)
    requires IsDict(d)
    ensures SetSum(KeySet(d), Lookup(d)) == Mass(d)
    decreases |d|
  {
    if |d| > 0 {
      var k := d[0].0;
      var rest := d[1..];
      SetSumRemove(KeySet(d), Lookup(d), k);
      assert KeySet(d) - {k} == KeySet(rest);
      forall j | j in KeySet(rest) ensures Lookup(d)(j) == Lookup(rest)(j) {
        assert j != k;
      }
      SetSumAgree(KeySet(rest), Lookup(d), Lookup(rest));
      SetSumMass(rest);
    }
  }

  function Abs(r: real): real { if r < 0.0 then -r else r }

  /** `|pi.get(k, 0) - pi_.get(k, 0)|`. */
  function Gap(a: Dist, b: Dist): int -> real
  {
    k => Abs(Get(a, k) - Get(b, k))
  }

  /** `total_variation(pi, pi_)`: half the sum of the gaps over `set(pi) | set(pi_)`. */
  function TotalVariation(a: Dist, b: Dist): real
  {
    SetSum(KeySet(a) + KeySet(b), Gap(a, b)) / 2.0
  }

  /** Total variation is non-negative. */
  lemma TotalVariationNonNegative(a: Dist, b: Dist)
    ensures TotalVariation(a, b) >= 0.0
  {
    SetSumSign(KeySet(a) + KeySet(b), Gap(a, b));
  }

  /** Total variation is symmetric. */
  lemma TotalVariationSymmetric(a: Dist, b: Dist)
    ensures TotalVariation(a, b) == TotalVariation(b, a)
  {
    var s := KeySet(a) + KeySet(b);
    assert s == KeySet(b) + KeySet(a);
    forall k | k in s ensures Gap(a, b)(k) == Gap(b, a)(k) {
    }
    SetSumAgree(s, Gap(a, b), Gap(b, a));
  }

  /** A distribution is at total variation 0 from itself. */
  lemma TotalVariationSelf(a: Dist)
    ensures TotalVariation(a, a) == 0.0
  {
    var s := KeySet(a) + KeySet(a);
    forall k | k in s ensures Gap(a, a)(k) == 0.0 {
      assert Gap(a, a)(k) == Abs(Get(a, k) - Get(a, k));
    }
    SetSumSign(s, Gap(a, a));
  }

  /** A key that is not in a list reads 0. */
  lemma {:induction false} GetOutsideKeys(d: Dist, k: int)
    requires k !in KeySet(d)
    ensures Get(d, k) == 0.0
    decreases |d|
  {
    if |d| > 0 {
      GetOutsideKeys(d[1..], k);
    }
  }

  /** A sum of non-negative terms that is 0 has every term 0. */
  lemma SetSumZeroTerms(s: set<int>, f: int -> real)
    requires forall k :: k in s ==> f(k) >= 0.0
    requires SetSum(s, f) == 0.0
    ensures forall k :: k in s ==> f(k) == 0.0
  {
    forall k | k in s ensures f(k) == 0.0 {
      SetSumRemove(s, f, k);
      SetSumSign(s - {k}, f);
    }
  }

  /** Total variation is 0 exactly when the two dicts read the same at every state. */
  lemma TotalVariationZero(a: Dist, b: Dist)
    ensures TotalVariation(a, b) == 0.0 ==> forall k :: Get(a, k) == Get(b, k)
    ensures (forall k :: Get(a, k) == Get(b, k)) ==> TotalVariation(a, b) == 0.0
  {
    if TotalVariation(a, b) == 0.0 {
      ZeroGapsEqual(a, b);
    }
    if forall k :: Get(a, k) == Get(b, k) {
      EqualZeroGaps(a, b);
    }
  }

  lemma ZeroGapsEqual(a: Dist, b: Dist)
    requires TotalVariation(a, b) == 0.0
    ensures forall k :: Get(a, k) == Get(b, k)
  {
    var s := KeySet(a) + KeySet(b);
    SetSumZeroTerms(s, Gap(a, b));
    forall k ensures Get(a, k) == Get(b, k) {
      if k in s {
        assert Gap(a, b)(k) == 0.0;
      } else {
        GetOutsideKeys(a, k);
        GetOutsideKeys(b, k);
      }
    }
  }

  lemma EqualZeroGaps(a: Dist, b: Dist)
    requires forall k :: Get(a, k) == Get(b, k)
    ensures TotalVariation(a, b) == 0.0
  {
    var s := KeySet(a) + KeySet(b);
    forall k | k in s ensures Gap(a, b)(k) == 0.0 {
      assert Get(a, k) == Get(b, k);
    }
    SetSumSign(s, Gap(a, b));
  }

  /** Adding keys at which the summand is 0 leaves a sum unchanged. */
  lemma SetSumExtend(s: set<int>, t: set<int>, f: int -> real)
    requires s <= t && forall k :: k in t - s ==> f(k) == 0.0
    ensures SetSum(t, f) == SetSum(s, f)
  {
    SetSumUnion(s, t - s, f);
    assert s + (t - s) == t;
    SetSumSign(t - s, f);
  }

  /** A sum of terms each below the sum of two others is below the sum of the two sums. */
  lemma {:induction false} SetSumSubadditive(s: set<int>, f: int -> real, g: int -> real, h: int -> real)
    requires forall k :: k in s ==> f(k) <= g(k) + h(k)
    ensures SetSum(s, f) <= SetSum(s, g) + SetSum(s, h)
    decreases |s|
  {
    if s != {} {
      var m := SetMin(s);
      assert m in s;
      SetSumSubadditive(s - {m}, f, g, h);
    }
  }

  /** Summing the gaps over a superset of the keys of both dicts gives twice their total variation. */
  lemma GapSumOver(a: Dist, b: Dist, all: set<int>)
    requires KeySet(a) + KeySet(b) <= all
    ensures SetSum(all, Gap(a, b)) == 2.0 * TotalVariation(a, b)
  {
    forall k | k in all - (KeySet(a) + KeySet(b)) ensures Gap(a, b)(k) == 0.0 {
      GetOutsideKeys(a, k);
      GetOutsideKeys(b, k);
    }
    SetSumExtend(KeySet(a) + KeySet(b), all, Gap(a, b));
  }

  /** The gaps obey the triangle inequality state by state. */
  lemma GapTriangle(a: Dist, b: Dist, c: Dist, all: set<int>)
    ensures forall k :: k in all ==> Gap(a, c)(k) <= Gap(a, b)(k) + Gap(b, c)(k)
  {
    forall k | k in all ensures Gap(a, c)(k) <= Gap(a, b)(k) + Gap(b, c)(k) {
      var x, y, z := Get(a, k), Get(b, k), Get(c, k);
      assert Abs(x - z) <= Abs(x - y) + Abs(y - z);
    }
  }

  /** The triangle inequality: together with the laws above, total variation is a metric. */
  lemma TotalVariationTriangle(a: Dist, b: Dist, c: Dist)
    ensures TotalVariation(a, c) <= TotalVariation(a, b) + TotalVariation(b, c)
  {
    var all := KeySet(a) + KeySet(b) + KeySet(c);
    GapSumOver(a, c, all);
    GapSumOver(a, b, all);
    GapSumOver(b, c, all);
    GapTriangle(a, b, c, all);
    SetSumSubadditive(all, Gap(a, c), Gap(a, b), Gap(b, c));
  }

  /** Two normalised distributions with disjoint supports are at total variation 1. */
  lemma TotalVariationDisjoint(a: Dist, b: Dist)
    requires IsDict(a) && IsDict(b) && NonNegative(a) && NonNegative(b)
    requires Mass(a) == 1.0 && Mass(b) == 1.0
    requires KeySet(a) !! KeySet(b)
    ensures TotalVariation(a, b) == 1.0
  {
    var ka, kb := KeySet(a), KeySet(b);
    SetSumUnion(ka, kb, Gap(a, b));
    GapOnSupport(a, b);
    SetSumAgree(ka, Gap(a, b), Lookup(a));
    SetSumAgree(kb, Gap(a, b), Lookup(b));
    SetSumMass(a);
    SetSumMass(b);
  }

  /** Two normalised distributions are at total variation at most 1, so disjoint supports reach the maximum. */
  lemma TotalVariationAtMostOne(a: Dist, b: Dist)
    requires IsDict(a) && IsDict(b) && NonNegative(a) && NonNegative(b)
    requires Mass(a) == 1.0 && Mass(b) == 1.0
    ensures TotalVariation(a, b) <= 1.0
  {
    var all := KeySet(a) + KeySet(b);
    forall k | k in all ensures Gap(a, b)(k) <= Lookup(a)(k) + Lookup(b)(k) {
      GetNonNegative(a, k);
      GetNonNegative(b, k);
    }
    SetSumSubadditive(all, Gap(a, b), Lookup(a), Lookup(b));
    forall k | k in all - KeySet(a) ensures Lookup(a)(k) == 0.0 {
      GetOutsideKeys(a, k);
    }
    forall k | k in all - KeySet(b) ensures Lookup(b)(k) == 0.0 {
      GetOutsideKeys(b, k);
    }
    SetSumExtend(KeySet(a), all, Lookup(a));
    SetSumExtend(KeySet(b), all, Lookup(b));
    SetSumMass(a);
    SetSumMass(b);
  }

  /** On the support of either of two disjoint distributions, the gap is that distribution's value. */
  lemma GapOnSupport(a: Dist, b: Dist)
    requires IsDict(a) && IsDict(b) && NonNegative(a) && NonNegative(b) && KeySet(a) !! KeySet(b)
    ensures forall k :: k in KeySet(a) ==> Gap(a, b)(k) == Lookup(a)(k)
    ensures forall k :: k in KeySet(b) ==> Gap(a, b)(k) == Lookup(b)(k)
  {
    forall k | k in KeySet(a) ensures Gap(a, b)(k) == Lookup(a)(k) {
      GapOutside(a, b, k);
    }
    forall k | k in KeySet(b) ensures Gap(a, b)(k) == Lookup(b)(k) {
      GapOutsideLeft(a, b, k);
    }
  }

  /** Off the support of `a`, the gap is the (non-negative) probability under `b`. */
  lemma GapOutsideLeft(a: Dist, b: Dist, k: int)
    requires NonNegative(b) && k !in KeySet(a)
    ensures Gap(a, b)(k) == Lookup(b)(k)
  {
    GetOutsideKeys(a, k);
    GetNonNegative(b, k);
  }

  /** Off the support of `b`, the gap is the (non-negative) probability under `a`. */
  lemma GapOutside(a: Dist, b: Dist, k: int)
    requires IsDict(b) && NonNegative(a) && k !in KeySet(b)
    ensures Gap(a, b)(k) == Lookup(a)(k)
  {
    GetKeys(b, k);
    GetNonNegative(a, k);
  }

  lemma {:induction false} GetNonNegative(d: Dist, k: int)
    requires NonNegative(d)
    ensures Get(d, k) >= 0.0
    decreases |d|
  {
    if |d| > 0 && d[0].0 != k {
      assert forall i :: 0 <= i < |d[1..]| ==> d[1..][i] == d[i + 1];
      GetNonNegative(d[1..], k);
    }
  }

  // ---------------------------------------------------------------- Monte Carlo and random walks

  /** The values `f(x)` for `x` in `X`. */
  function Apply<X>(f: X -> real, xs: seq<X>): (r: seq<real>)
    ensures |r| == |xs|
  {
    seq(|xs|, i requires 0 <= i < |xs| => f(xs[i]))
  }

  /**
   * `monte_carlo(f, X)`: the running sum of `f(x)`, divided by the number of
   * samples at the end; with no sample the final `e` is unbound and the call
   * fails, modelled as `None`.
   */
  method MonteCarlo<X>(f: X -> real, xs: seq<X>) returns (r: Option<real>)
    ensures |xs| == 0 ==> r == None
    ensures |xs| > 0 ==> r == Some(Sum(Apply(f, xs)) / (|xs| as real))
  {
    var e := 0.0;
    var n := 0;
    while n < |xs|
      invariant 0 <= n <= |xs|
      invariant e == Sum(Apply(f, xs)[..n])
    {
      assert Apply(f, xs)[..n + 1] == Apply(f, xs)[..n] + [f(xs[n])];
      SumSnoc(Apply(f, xs)[..n], f(xs[n]));
      e := e + f(xs[n]);
      n := n + 1;
    }
    if n == 0 {
      return None;
    }
    assert Apply(f, xs)[..n] == Apply(f, xs);
    r := Some(e / (n as real));
  }

  /** The mean of samples that all equal `c` is `c`. */
  lemma {:induction false} SumConstant(vs: seq<real>, c: real)
    requires forall i :: 0 <= i < |vs| ==> vs[i] == c
    ensures Sum(vs) == (|vs| as real) * c
    decreases |vs|
  {
    if |vs| > 0 {
      assert forall i :: 0 <= i < |vs[1..]| ==> vs[1..][i] == vs[i + 1];
      SumConstant(vs[1..], c);
    }
  }

  /** `P.get(x, {})` for the state of a walk, which is `None` once a pick found nothing. */
  function Next(P: Kernel, x: Option<int>): Dist
  {
    if x.None? then [] else RowOf(P, x.value)
  }

  /**
   * `rwalk(pi0, P, T)` with the uniform draws of `random.random()` given as
   * `draws`: the first state is picked from `pi0`, each next one from the row
   * of the current state.
   */
  method RandomWalk(pi0: Dist, P: Kernel, T: int, draws: seq<real>) returns (walk: seq<Option<int>>)
    requires |draws| > (if T > 0 then T else 0)
    ensures |walk| == (if T > 0 then T else 0) + 1
    ensures walk[0] == Pick(pi0, draws[0])
    ensures forall t :: 0 <= t < |walk| - 1 ==> walk[t + 1] == Pick(Next(P, walk[t]), draws[t + 1])
  {
    var x := Pick(pi0, draws[0]);
    walk := [x];
    var n := if T > 0 then T else 0;
    var t := 0;
    while t < n
      invariant 0 <= t <= n && |walk| == t + 1
      invariant walk[0] == Pick(pi0, draws[0]) && x == walk[t]
      invariant forall s :: 0 <= s < t ==> walk[s + 1] == Pick(Next(P, walk[s]), draws[s + 1])
    {
      x := Pick(Next(P, x), draws[t + 1]);
      walk := walk + [x];
      t := t + 1;
    }
  }

  /** Once no state is picked, the walk stays without one; a picked state is in the row it was picked from. */
  lemma WalkSteps(P: Kernel, x: Option<int>, u: real)
    ensures x.None? ==> Pick(Next(P, x), u) == None
    ensures Pick(Next(P, x), u).Some? ==> Pick(Next(P, x), u).value in KeySet(Next(P, x))
  {
    PickInSupport(Next(P, x), u);
  }

  // ---------------------------------------------------------------- forward propagation

  /** `d[j] = d.get(j, 0) + e` for an increment `(j, e)`. */
  function Shift(d: Dist, inc: (int, real)): Dist
  {
    Put(d, inc.0, Get(d, inc.0) + inc.1)
  }

  /** `pi1[j] = pi1.get(j, 0) + p * q` for one item `(j, q)` of a row. */
  function Bump(acc: Dist, p: real, item: (int, real)): Dist
  {
    Shift(acc, (item.0, p * item.1))
  }

  /** The inner loop of `propf`: `pi1[j] = pi1.get(j, 0) + p * q` for each `(j, q)` of the row. */
  function AddRow(acc: Dist, p: real, row: Dist): Dist
    decreases |row|
  {
    if |row| == 0 then acc else AddRow(Bump(acc, p, row[0]), p, row[1..])
  }

  /** The item at position `b` of the row is the next one added. */
  lemma AddRowStep(acc: Dist, p: real, row: Dist, b: int)
    requires 0 <= b < |row|
    ensures AddRow(acc, p, row[b..]) == AddRow(Bump(acc, p, row[b]), p, row[b + 1..])
  {
    assert row[b..][0] == row[b] && row[b..][1..] == row[b + 1..];
  }

  /** The outer loop of `propf`: the row `P.get(i, {})` of each `(i, p)` of `pi`, weighted by `p`. */
  function Spread(acc: Dist, pi: Dist, P: Kernel): Dist
    decreases |pi|
  {
    if |pi| == 0 then acc else Spread(AddRow(acc, pi[0].1, RowOf(P, pi[0].0)), pi[1..], P)
  }

  /** `propf(pi, P)`: the distribution one step later, filled in place. */
  method Propf(pi: Dist, P: Kernel) returns (r: Dist)
    ensures r == Spread([], pi, P)
  {
    r := [];
    var a := 0;
    while a < |pi|
      invariant 0 <= a <= |pi|
      invariant Spread(r, pi[a..], P) == Spread([], pi, P)
    {
      var i, p := pi[a].0, pi[a].1;
      var row := RowOf(P, i);
      ghost var r0 := r;
      var b := 0;
      while b < |row|
        invariant 0 <= b <= |row|
        invariant AddRow(r, p, row[b..]) == AddRow(r0, p, row)
      {
        AddRowStep(r, p, row, b);
        r := Bump(r, p, row[b]);
        b := b + 1;
      }
      assert pi[a..][1..] == pi[a + 1..];
      a := a + 1;
    }
  }

  /** Each row of a kernel is a dict. */
  lemma {:induction false} RowOfDict(P: Kernel, i: int)
    requires IsKernel(P)
    ensures IsDict(RowOf(P, i))
    decreases |P|
  {
    if |P| > 0 && P[0].0 != i {
      RowOfDict(P[1..], i);
    }
  }

  /** The row with every probability multiplied by `p`: the increments the inner loop adds. */
  function ScaleRow(p: real, row: Dist): Dist
    decreases |row|
  {
    if |row| == 0 then [] else [(row[0].0, p * row[0].1)] + ScaleRow(p, row[1..])
  }

  /** `d[j] = d.get(j, 0) + e` for each increment `(j, e)` of `es`, in order. */
  function AddAll(d: Dist, es: Dist): Dist
    decreases |es|
  {
    if |es| == 0 then d else AddAll(Shift(d, es[0]), es[1..])
  }

  /** Adding a row weighted by `p` is adding the scaled row. */
  lemma {:induction false} AddRowScaled(acc: Dist, p: real, row: Dist)
    ensures AddRow(acc, p, row) == AddAll(acc, ScaleRow(p, row))
    decreases |row|
  {
    if |row| > 0 {
      AddRowScaled(Bump(acc, p, row[0]), p, row[1..]);
    }
  }

  /** Scaling keeps the keys, and scales each value. */
  lemma {:induction false} ScaleRowGet(p: real, row: Dist)
    ensures KeySet(ScaleRow(p, row)) == KeySet(row)
    ensures IsDict(row) ==> IsDict(ScaleRow(p, row))
    ensures forall k :: Get(ScaleRow(p, row), k) == p * Get(row, k)
    decreases |row|
  {
    if |row| > 0 {
      ScaleRowGet(p, row[1..]);
    }
  }

  /** `(p * q) * a + p * R == p * S` when `S == q * a + R`. */
  lemma ScaleArith(p: real, q: real, a: real, R: real, S: real)
    requires S == q * a + R
    ensures (p * q) * a + p * R == p * S
  {
  }

  /** Scaling a row by `p` scales its weighted sum by `p`. */
  lemma {:induction false} ScaleRowWSum(p: real, row: Dist, w: int -> real)
    ensures WSum(ScaleRow(p, row), w) == p * WSum(row, w)
    decreases |row|
  {
    if |row| > 0 {
      ScaleRowWSum(p, row[1..], w);
      ScaleArith(p, row[0].1, w(row[0].0), WSum(row[1..], w), WSum(row, w));
    }
  }

  /** An increment adds to its own key and leaves the others alone. */
  lemma ShiftGet(d: Dist, inc: (int, real))
    ensures forall k :: Get(Shift(d, inc), k) == Get(d, k) + (if k == inc.0 then inc.1 else 0.0)
  {
    PutGet(d, inc.0, Get(d, inc.0) + inc.1);
  }

  /** Adding the increments of a dict adds its value at every key. */
  lemma {:induction false} AddAllGet(d: Dist, es: Dist)
    requires IsDict(es)
    ensures forall k :: Get(AddAll(d, es), k) == Get(d, k) + Get(es, k)
    decreases |es|
  {
    if |es| > 0 {
      ShiftGet(d, es[0]);
      AddAllGet(Shift(d, es[0]), es[1..]);
      GetKeys(es[1..], es[0].0);
    }
  }

  /** Adding a row weighted by `p` adds `p` times the row's value at every state. */
  lemma AddRowGet(acc: Dist, p: real, row: Dist)
    requires IsDict(row)
    ensures forall k :: Get(AddRow(acc, p, row), k) == Get(acc, k) + p * Get(row, k)
  {
    AddRowScaled(acc, p, row);
    ScaleRowGet(p, row);
    AddAllGet(acc, ScaleRow(p, row));
  }

  /** Replacing the value `G` of a key of weight `a` by `G + e`, as reals. */
  lemma ReplaceArith(W: real, G: real, a: real, e: real)
    ensures W - G * a + (G + e) * a == W + e * a
  {
  }

  /** An increment `(j, e)` keeps a dict a dict and adds `e * w(j)` to the weighted sum. */
  lemma ShiftWSum(d: Dist, inc: (int, real), w: int -> real)
    requires IsDict(d)
    ensures IsDict(Shift(d, inc))
    ensures WSum(Shift(d, inc), w) == WSum(d, w) + inc.1 * w(inc.0)
  {
    PutKeys(d, inc.0, Get(d, inc.0) + inc.1);
    PutWSum(d, inc.0, Get(d, inc.0) + inc.1, w);
    ReplaceArith(WSum(d, w), Get(d, inc.0), w(inc.0), inc.1);
  }

  /** Adding increments one by one keeps a dict a dict and adds their weighted sum. */
  lemma {:induction false} AddAllWSum(d: Dist, es: Dist, w: int -> real)
    requires IsDict(d)
    ensures IsDict(AddAll(d, es))
    ensures WSum(AddAll(d, es), w) == WSum(d, w) + WSum(es, w)
    decreases |es|
  {
    if |es| > 0 {
      ShiftWSum(d, es[0], w);
      AddAllWSum(Shift(d, es[0]), es[1..], w);
    }
  }

  /** Adding a row weighted by `p` keeps a dict a dict and adds `p` times the row's weighted sum. */
  lemma AddRowWSum(acc: Dist, p: real, row: Dist, w: int -> real)
    requires IsDict(acc)
    ensures IsDict(AddRow(acc, p, row))
    ensures WSum(AddRow(acc, p, row), w) == WSum(acc, w) + p * WSum(row, w)
  {
    AddRowScaled(acc, p, row);
    AddAllWSum(acc, ScaleRow(p, row), w);
    ScaleRowWSum(p, row, w);
  }

  /** The probability of reaching `j` from each state: `i => P.get(i, {}).get(j, 0)`. */
  function Column(P: Kernel, j: int): int -> real
  {
    i => Get(RowOf(P, i), j)
  }

  /** The weighted sum of each row: `i => sum(P.get(i, {})[k] * w(k) for k in P.get(i, {}))`. */
  function RowWeight(P: Kernel, w: int -> real): int -> real
  {
    i => WSum(RowOf(P, i), w)
  }

  lemma {:induction false} SpreadGet(acc: Dist, pi: Dist, P: Kernel)
    requires IsKernel(P)
    ensures forall j :: Get(Spread(acc, pi, P), j) == Get(acc, j) + WSum(pi, Column(P, j))
    decreases |pi|
  {
    if |pi| > 0 {
      var row := RowOf(P, pi[0].0);
      RowOfDict(P, pi[0].0);
      AddRowGet(acc, pi[0].1, row);
      SpreadGet(AddRow(acc, pi[0].1, row), pi[1..], P);
    }
  }

  lemma {:induction false} SpreadDict(acc: Dist, pi: Dist, P: Kernel)
    requires IsDict(acc)
    ensures IsDict(Spread(acc, pi, P))
    decreases |pi|
  {
    if |pi| > 0 {
      AddRowWSum(acc, pi[0].1, RowOf(P, pi[0].0), Unit);
      SpreadDict(AddRow(acc, pi[0].1, RowOf(P, pi[0].0)), pi[1..], P);
    }
  }

  /** `sum(pi[i] * sum(P.get(i, {})[k] * w(k) for k in P.get(i, {})) for i in pi)`. */
  function RowsWSum(pi: Dist, P: Kernel, w: int -> real): real
    decreases |pi|
  {
    if |pi| == 0 then 0.0 else pi[0].1 * WSum(RowOf(P, pi[0].0), w) + RowsWSum(pi[1..], P, w)
  }

  lemma {:induction false} RowsWSumIsWSum(pi: Dist, P: Kernel, w: int -> real)
    ensures RowsWSum(pi, P, w) == WSum(pi, RowWeight(P, w))
    decreases |pi|
  {
    if |pi| > 0 {
      RowsWSumIsWSum(pi[1..], P, w);
      WSumHead(pi, RowWeight(P, w), pi[0].1, WSum(RowOf(P, pi[0].0), w));
    }
  }

  lemma {:induction false} SpreadRowsWSum(acc: Dist, pi: Dist, P: Kernel, w: int -> real)
    requires IsDict(acc)
    ensures WSum(Spread(acc, pi, P), w) == WSum(acc, w) + RowsWSum(pi, P, w)
    decreases |pi|
  {
    if |pi| > 0 {
      var p, row := pi[0].1, RowOf(P, pi[0].0);
      var next := AddRow(acc, p, row);
      AddRowWSum(acc, p, row, w);
      SpreadRowsWSum(next, pi[1..], P, w);
    }
  }

  lemma SpreadWSum(acc: Dist, pi: Dist, P: Kernel, w: int -> real)
    requires IsDict(acc)
    ensures WSum(Spread(acc, pi, P), w) == WSum(acc, w) + WSum(pi, RowWeight(P, w))
  {
    SpreadRowsWSum(acc, pi, P, w);
    RowsWSumIsWSum(pi, P, w);
  }

  /** The first term of a weighted sum, with its probability named `p` and its weight `v`. */
  lemma WSumHead(d: Dist, w: int -> real, p: real, v: real)
    requires |d| > 0 && d[0].1 == p && w(d[0].0) == v
    ensures WSum(d, w) == p * v + WSum(d[1..], w)
  {
  }

  /**
   * `propf(pi, P)[j]` is `sum(pi[i] * P.get(i, {}).get(j, 0) for i in pi)`: a state
   * with no row in `P` passes nothing on.
   */
  lemma PropfGet(pi: Dist, P: Kernel, j: int)
    requires IsKernel(P)
    ensures Get(Spread([], pi, P), j) == WSum(pi, Column(P, j))
  {
    SpreadGet([], pi, P);
  }

  /**
   * The mass after one step is the sum over `i` of `pi[i]` times the mass of row
   * `i`; when every row of the support sums to 1 it is the mass of `pi`.
   */
  lemma PropfMass(pi: Dist, P: Kernel)
    ensures IsDict(Spread([], pi, P))
    ensures Mass(Spread([], pi, P)) == WSum(pi, RowWeight(P, Unit))
    ensures (forall i :: i in KeySet(pi) ==> Mass(RowOf(P, i)) == 1.0) ==> Mass(Spread([], pi, P)) == Mass(pi)
  {
    SpreadDict([], pi, P);
    SpreadWSum([], pi, P, Unit);
    if forall i :: i in KeySet(pi) ==> Mass(RowOf(P, i)) == 1.0 {
      forall i | i in KeySet(pi) ensures RowWeight(P, Unit)(i) == Unit(i) {
        assert Mass(RowOf(P, i)) == 1.0;
      }
      WSumAgree(pi, RowWeight(P, Unit), Unit);
    }
  }

  // ---------------------------------------------------------------- backward propagation

  /** `propr(P, v)`: each row's `dot` with `v`, under the row's key. */
  function Propr(P: Kernel, v: Dist): Dist
    decreases |P|
  {
    if |P| == 0 then [] else [(P[0].0, Dot(P[0].1, v))] + Propr(P[1..], v)
  }

  /** `propr(P, v)` has the keys of `P`, and state `i` reads the expected value of `v` one step after `i`. */
  lemma {:induction false} ProprGet(P: Kernel, v: Dist)
    requires IsKernel(P)
    ensures KeySet(Propr(P, v)) == RowKeys(P)
    ensures forall i :: Get(Propr(P, v), i) == Dot(RowOf(P, i), v)
    decreases |P|
  {
    if |P| > 0 {
      ProprGet(P[1..], v);
      assert Propr(P, v)[1..] == Propr(P[1..], v);
    }
  }

  /**
   * Forward and backward propagation are adjoint: the value of `v` under the
   * distribution one step after `pi` is the value under `pi` of `v` pulled back
   * one step.
   */
  lemma PropagationAdjoint(pi: Dist, P: Kernel, v: Dist)
    requires IsKernel(P)
    ensures Dot(Spread([], pi, P), v) == Dot(pi, Propr(P, v))
  {
    SpreadDict([], pi, P);
    SpreadWSum([], pi, P, Lookup(v));
    ProprGet(P, v);
    forall i | i in KeySet(pi) ensures RowWeight(P, Lookup(v))(i) == Lookup(Propr(P, v))(i) {
    }
    WSumAgree(pi, RowWeight(P, Lookup(v)), Lookup(Propr(P, v)));
  }

  /** `dict((x, f(x)) for x in X)`: entries in order, a repeated state keeping its first place. */
  function Tabulate(xs: seq<int>, f: int -> real): Dist
    decreases |xs|
  {
    if |xs| == 0 then [] else Put(Tabulate(xs[..|xs| - 1], f), xs[|xs| - 1], f(xs[|xs| - 1]))
  }

  /** The table is a dict with the states of `X` as keys, each mapped to `f` of it. */
  lemma {:induction false} TabulateGet(xs: seq<int>, f: int -> real)
    ensures IsDict(Tabulate(xs, f))
    ensures KeySet(Tabulate(xs, f)) == set x | x in xs
    ensures forall x :: Get(Tabulate(xs, f), x) == if x in xs then f(x) else 0.0
    decreases |xs|
  {
    if |xs| > 0 {
      var n := |xs| - 1;
      TabulateGet(xs[..n], f);
      PutGet(Tabulate(xs[..n], f), xs[n], f(xs[n]));
      PutKeys(Tabulate(xs[..n], f), xs[n], f(xs[n]));
      assert forall x :: x in xs <==> x in xs[..n] || x == xs[n] by {
        assert xs == xs[..n] + [xs[n]];
      }
    }
  }

  /** The terminal values `g(T, x, T)`. */
  function Terminal(g: (int, int, int) -> real, T: int): int -> real
  {
    x => g(T, x, T)
  }

  /** The values of stage `t`: `g(t, x, T) + r.get(x, 0)`. */
  function Backup(g: (int, int, int) -> real, t: int, T: int, r: Dist): int -> real
  {
    x => g(t, x, T) + Get(r, x)
  }

  /**
   * `values(T, X, P, g)`: the terminal values, then for `t = T - 1` down to 0 the
   * stage cost plus the expected values of the stage after.
   */
  method Values(T: int, X: seq<int>, P: Kernel, g: (int, int, int) -> real) returns (vs: seq<Dist>)
    ensures |vs| == (if T > 0 then T else 0) + 1
    ensures vs[0] == Tabulate(X, Terminal(g, T))
    ensures forall k :: 0 <= k < |vs| - 1 ==> vs[k + 1] == Tabulate(X, Backup(g, T - 1 - k, T, Propr(P, vs[k])))
  {
    var v := Tabulate(X, Terminal(g, T));
    vs := [v];
    var n := if T > 0 then T else 0;
    var k := 0;
    while k < n
      invariant 0 <= k <= n && |vs| == k + 1
      invariant vs[0] == Tabulate(X, Terminal(g, T)) && v == vs[k]
      invariant forall s :: 0 <= s < k ==> vs[s + 1] == Tabulate(X, Backup(g, T - 1 - s, T, Propr(P, vs[s])))
    {
      var t := T - 1 - k;
      var r := Propr(P, v);
      v := Tabulate(X, Backup(g, t, T, r));
      vs := vs + [v];
      k := k + 1;
    }
  }

  /**
   * A stage of `values`: a state of `X` reads its stage cost plus the expected
   * value, under its row of `P`, of the stage after (0 for a state with no row);
   * a state outside `X` is not in the table.
   */
  lemma ValuesStep(X: seq<int>, P: Kernel, g: (int, int, int) -> real, t: int, T: int, v: Dist)
    requires IsKernel(P)
    ensures KeySet(Tabulate(X, Backup(g, t, T, Propr(P, v)))) == set x | x in X
    ensures forall x :: Get(Tabulate(X, Backup(g, t, T, Propr(P, v))), x)
                        == if x in X then g(t, x, T) + Dot(RowOf(P, x), v) else 0.0
  {
    TabulateGet(X, Backup(g, t, T, Propr(P, v)));
    ProprGet(P, v);
  }
}
