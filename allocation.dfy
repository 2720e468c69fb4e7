/**
 * The resource-allocation problem of dynamic programming (`allocation.Allocator`):
 * a stock `x` is split into `y` units put to a use rewarded by `g(y)` and `x - y`
 * units rewarded by `h(x - y)`; the next stock is `a y + b (x - y)`. `xs` is the
 * trajectory of the stock under given allocations, `R` the total reward along it,
 * and `f(N)` the optimal `N + 1`-stage reward with its first allocation, found by
 * maximising over the integers `0 <= y <= x`.
 */
module Allocation {
  import opened Wrappers
  import opened ExtReals

  class Allocator {
    const a: real
    const b: real
    const g: real -> real
    const h: real -> real

    constructor (a: real, b: real, g: real -> real, h: real -> real)
      ensures this.a == a && this.b == b && this.g == g && this.h == h
    {
      this.a, this.b := a, b;
      this.g, this.h := g, h;
    }

    /** The stock after allocating `y` out of `x`. */
    function Next(x: real, y: real): real
    {
      a * y + b * (x - y)
    }

    /** The values `xs(x, *ys)` yields: `x`, then the stock after each allocation. */
    function Trajectory(x: real, ys: seq<real>): (r: seq<real>)
      ensures |r| == |ys| + 1 && r[0] == x
      decreases |ys|
    {
      if |ys| == 0 then [x] else [x] + Trajectory(Next(x, ys[0]), ys[1..])
    }

    /** `r` starts at `x` and each next stock follows from the previous one and its allocation. */
    predicate IsTrajectory(x: real, ys: seq<real>, r: seq<real>)
    {
      |r| == |ys| + 1 && r[0] == x && forall j :: 0 <= j < |ys| ==> r[j + 1] == Next(r[j], ys[j])
    }

    /** The trajectory is the one sequence that starts at `x` and follows the allocations. */
    lemma {:induction false} TrajectoryCharacterized(x: real, ys: seq<real>, r: seq<real>)
      ensures IsTrajectory(x, ys, r) <==> r == Trajectory(x, ys)
      decreases |ys|
    {
      if |ys| > 0 && |r| > 0 {
        var x' := Next(x, ys[0]);
        var t := Trajectory(x, ys);
        assert t[1..] == Trajectory(x', ys[1..]);
        TrajectoryCharacterized(x', ys[1..], r[1..]);
        TrajectoryCharacterized(x', ys[1..], t[1..]);
        if IsTrajectory(x, ys, r) {
          assert IsTrajectory(x', ys[1..], r[1..]) by {
            forall j | 0 <= j < |ys| - 1
              ensures r[1..][j + 1] == Next(r[1..][j], ys[1..][j])
            {
              assert r[j + 2] == Next(r[j + 1], ys[j + 1]);
            }
          }
          assert r == [r[0]] + r[1..];
        }
        if r == t {
          assert IsTrajectory(x', ys[1..], t[1..]);
          forall j | 0 <= j < |ys|
            ensures r[j + 1] == Next(r[j], ys[j])
          {
            if j > 0 {
              assert t[1..][j] == Next(t[1..][j - 1], ys[1..][j - 1]);
            }
          }
        }
      }
    }

    /** `xs(x, *ys)`, collected into a sequence. */
    method Xs(x: real, ys: seq<real>) returns (r: seq<real>)
      ensures IsTrajectory(x, ys, r)
      ensures r == Trajectory(x, ys)
    {
      var cur := x;
      r := [x];
      var i := 0;
      while i < |ys|
        invariant 0 <= i <= |ys|
        invariant |r| == i + 1 && r[0] == x && cur == r[i]
        invariant forall j :: 0 <= j < i ==> r[j + 1] == Next(r[j], ys[j])
      {
        cur := a * ys[i] + b * (cur - ys[i]);
        r := r + [cur];
        i := i + 1;
      }
      TrajectoryCharacterized(x, ys, r);
    }

    /** The terms `g(y_i) + h(x_i - y_i)` of `R`: the first allocation's, then those of the rest from the next stock. */
    function Rewards(x: real, ys: seq<real>): (r: seq<real>)
      ensures |r| == |ys|
      decreases |ys|
    {
      if |ys| == 0 then [] else [g(ys[0]) + h(x - ys[0])] + Rewards(Next(x, ys[0]), ys[1..])
    }

    /** The `i`-th term pairs the `i`-th stock of the trajectory with the `i`-th allocation, as `zip(xs(x, *ys), ys)` does. */
    lemma {:induction false} RewardsZip(x: real, ys: seq<real>)
      ensures forall i :: 0 <= i < |ys| ==> Rewards(x, ys)[i] == g(ys[i]) + h(Trajectory(x, ys)[i] - ys[i])
      decreases |ys|
    {
      if |ys| > 0 {
        var x' := Next(x, ys[0]);
        RewardsZip(x', ys[1..]);
        var t := Trajectory(x, ys);
        assert t[1..] == Trajectory(x', ys[1..]);
        forall i | 0 < i < |ys|
          ensures Rewards(x, ys)[i] == g(ys[i]) + h(t[i] - ys[i])
        {
          assert Rewards(x, ys)[i] == Rewards(x', ys[1..])[i - 1];
          assert ys[1..][i - 1] == ys[i] && t[1..][i - 1] == t[i];
        }
      }
    }

    /** `R(x, *ys)`. */
    function R(x: real, ys: seq<real>): real
    {
      Sum(Rewards(x, ys))
    }

    /** The reward of a plan is that of its first allocation plus the reward of the rest from the next stock. */
    lemma RFirstStep(x: real, y: real, ys: seq<real>)
      ensures R(x, [y] + ys) == g(y) + h(x - y) + R(Next(x, y), ys)
    {
      var zs := [y] + ys;
      assert zs[1..] == ys;
      assert Rewards(x, zs) == [g(y) + h(x - y)] + Rewards(Next(x, y), ys);
    }

    /** A plan allocates, at each stage, an integer between 0 and the stock it meets. */
    predicate Admissible(x: real, ys: seq<real>)
    {
      var xs := Trajectory(x, ys);
      forall i :: 0 <= i < |ys| ==> ys[i] == ys[i].Floor as real && 0.0 <= ys[i] <= xs[i]
    }

    lemma AdmissibleCons(x: real, y: real, ys: seq<real>)
      ensures Admissible(x, [y] + ys) <==>
        (y == y.Floor as real && 0.0 <= y <= x && Admissible(Next(x, y), ys))
    {
      var zs := [y] + ys;
      assert zs[1..] == ys;
      var xs := Trajectory(x, zs);
      assert xs[1..] == Trajectory(Next(x, y), ys);
      if Admissible(x, zs) {
        forall i | 0 <= i < |ys|
          ensures ys[i] == ys[i].Floor as real && 0.0 <= ys[i] <= Trajectory(Next(x, y), ys)[i]
        {
          assert zs[i + 1] == ys[i] && xs[i + 1] == Trajectory(Next(x, y), ys)[i];
        }
      }
    }

    // -------------------------------------------------------------------------
    // f: the optimal reward, maximised over integer allocations

    /**
     * `payoff(x, y)` inside `f(N)`: the reward of allocating `y` now plus, when
     * `N > 0`, the optimal value `f(N - 1)` at the next stock; `None` when that
     * inner maximisation fails.
     */
    function Payoff(N: nat, x: real, y: int): Option<real>
      decreases N, 0, 0
    {
      if N == 0 then Some(g(y as real) + h(x - y as real))
      else
        match F(N - 1, Next(x, y as real))
        case None => None
        case Some(best) => Some(g(y as real) + h(x - y as real) + best.0)
    }

    /**
     * `max((payoff(x, y), y) for y in xrange(k))` for `k >= 1`: a later `y`
     * replaces the best so far when its payoff is at least as large, since the
     * tuple with the larger `y` wins a tie. `None` if some payoff fails.
     */
    function MaxUpTo(N: nat, x: real, k: int): Option<(real, int)>
      requires k >= 1
      decreases N, 1, k
    {
      var p := Payoff(N, x, k - 1);
      if k == 1 then (if p.None? then None else Some((p.value, 0)))
      else
        var best := MaxUpTo(N, x, k - 1);
        if best.None? || p.None? then None
        else if p.value >= best.value.0 then Some((p.value, k - 1))
        else best
    }

    /**
     * `f(N)(x)`: the best `(payoff, y)` over the integers `0 <= y <= x`
     * (`xrange(int(x + 1))`); for `x < 0` the range is empty and `max` fails.
     */
    function F(N: nat, x: real): Option<(real, int)>
      decreases N, 2, 0
    {
      if x < 0.0 then None else MaxUpTo(N, x, x.Floor + 1)
    }

    /** Every payoff of an allocation in `[0, k)` is defined. */
    predicate AllDefined(N: nat, x: real, k: int)
    {
      forall y :: 0 <= y < k ==> Payoff(N, x, y).Some?
    }

    /**
     * `r = (v, y)` is the last maximiser of the payoff over `[0, k)`: `v` is the
     * payoff of `y`, no payoff exceeds it and every later allocation's is smaller.
     */
    predicate IsLastArgmax(N: nat, x: real, k: int, r: (real, int))
      requires AllDefined(N, x, k)
    {
      0 <= r.1 < k && Payoff(N, x, r.1) == Some(r.0)
      && (forall y :: 0 <= y < k ==> Payoff(N, x, y).value <= r.0)
      && (forall y :: r.1 < y < k ==> Payoff(N, x, y).value < r.0)
    }

    /** What `MaxUpTo` finds: the last maximiser of the payoff over `[0, k)`, defined exactly when every payoff is. */
    lemma {:induction false} MaxUpToSpec(N: nat, x: real, k: int)
      requires k >= 1
      ensures MaxUpTo(N, x, k).Some? <==> AllDefined(N, x, k)
      ensures MaxUpTo(N, x, k).Some? ==> IsLastArgmax(N, x, k, MaxUpTo(N, x, k).value)
      decreases k
    {
      var p := Payoff(N, x, k - 1);
      if k == 1 {
        assert forall y :: 0 <= y < k ==> Payoff(N, x, y) == p;
      } else {
        MaxUpToSpec(N, x, k - 1);
        var best := MaxUpTo(N, x, k - 1);
        if best.Some? && p.Some? {
          assert AllDefined(N, x, k) by {
            forall y | 0 <= y < k ensures Payoff(N, x, y).Some? {
              if y == k - 1 {
                assert Payoff(N, x, y) == p;
              }
            }
          }
          if p.value >= best.value.0 {
            assert MaxUpTo(N, x, k) == Some((p.value, k - 1));
            LastArgmaxAtEnd(N, x, k, best.value, p.value);
          } else {
            assert MaxUpTo(N, x, k) == best;
            LastArgmaxBefore(N, x, k, best.value, p.value);
          }
        } else {
          assert MaxUpTo(N, x, k).None?;
          if AllDefined(N, x, k) {
            assert Payoff(N, x, k - 1).Some?;
            assert AllDefined(N, x, k - 1);
          }
        }
      }
    }

    /** A new allocation whose payoff ties or beats the best so far becomes the last maximiser. */
    lemma LastArgmaxAtEnd(N: nat, x: real, k: int, best: (real, int), v: real)
      requires k >= 2 && AllDefined(N, x, k) && AllDefined(N, x, k - 1)
      requires IsLastArgmax(N, x, k - 1, best) && Payoff(N, x, k - 1) == Some(v) && v >= best.0
      ensures IsLastArgmax(N, x, k, (v, k - 1))
    {
      forall y | 0 <= y < k ensures Payoff(N, x, y).value <= v {
        if y < k - 1 {
          assert Payoff(N, x, y).value <= best.0;
        }
      }
    }

    /** A new allocation whose payoff is below the best so far leaves the last maximiser in place. */
    lemma LastArgmaxBefore(N: nat, x: real, k: int, best: (real, int), v: real)
      requires k >= 2 && AllDefined(N, x, k) && AllDefined(N, x, k - 1)
      requires IsLastArgmax(N, x, k - 1, best) && Payoff(N, x, k - 1) == Some(v) && v < best.0
      ensures IsLastArgmax(N, x, k, best)
    {
      forall y | 0 <= y < k ensures Payoff(N, x, y).value <= best.0 {
        if y < k - 1 {
          assert Payoff(N, x, y).value <= best.0;
        }
      }
      forall y | best.1 < y < k ensures Payoff(N, x, y).value < best.0 {
        if y < k - 1 {
          assert Payoff(N, x, y).value < best.0;
        }
      }
    }

    /**
     * `f(N)(x)` is defined exactly when `x >= 0` and every payoff in range is; it
     * then returns an integer allocation `0 <= y <= x` whose payoff is at least
     * every other one and exceeds that of every larger allocation.
     */
    lemma FSpec(N: nat, x: real)
      ensures F(N, x).Some? ==> x >= 0.0 && forall y :: 0 <= y <= x.Floor ==> Payoff(N, x, y).Some?
      ensures (x >= 0.0 && forall y :: 0 <= y <= x.Floor ==> Payoff(N, x, y).Some?) ==> F(N, x).Some?
      ensures F(N, x).Some? ==>
        var (v, y) := F(N, x).value;
        0 <= y <= x.Floor && 0.0 <= y as real <= x && Payoff(N, x, y) == Some(v)
        && (forall y' :: 0 <= y' <= x.Floor ==> Payoff(N, x, y').value <= v)
        && (forall y' :: y < y' <= x.Floor ==> Payoff(N, x, y').value < v)
    {
      if x >= 0.0 {
        var k := x.Floor + 1;
        MaxUpToSpec(N, x, k);
        assert F(N, x) == MaxUpTo(N, x, k);
        if AllDefined(N, x, k) {
          forall y | 0 <= y <= x.Floor ensures Payoff(N, x, y).Some? {
            assert y < k;
          }
        } else {
          var y :| 0 <= y < k && Payoff(N, x, y).None?;
          assert y <= x.Floor;
        }
        if F(N, x).Some? {
          var r := F(N, x).value;
          assert IsLastArgmax(N, x, k, r);
          assert 0.0 <= r.1 as real <= x by {
            assert r.1 <= x.Floor;
          }
          forall y' | 0 <= y' <= x.Floor ensures Payoff(N, x, y').value <= r.0 {
            assert y' < k;
          }
          forall y' | r.1 < y' <= x.Floor ensures Payoff(N, x, y').value < r.0 {
            assert y' < k;
          }
        }
      } else {
        assert F(N, x).None?;
      }
    }

    /** `f(0)`'s payoff is the reward of a single allocation. */
    lemma PayoffLastStage(x: real, y: int)
      ensures Payoff(0, x, y) == Some(g(y as real) + h(x - y as real))
    {
    }

    /** `f(N)` for `N > 0` adds the optimal value of `f(N - 1)` at the next stock. */
    lemma PayoffEarlierStage(N: nat, x: real, y: int)
      requires N > 0
      ensures Payoff(N, x, y).Some? <==> F(N - 1, Next(x, y as real)).Some?
      ensures Payoff(N, x, y).Some? ==>
        Payoff(N, x, y).value == g(y as real) + h(x - y as real) + F(N - 1, Next(x, y as real)).value.0
    {
    }

    // -------------------------------------------------------------------------
    // f's value is the best total reward over admissible plans

    /**
     * Where `f(N)` is defined, no admissible plan of `N + 1` allocations earns
     * more than its value.
     */
    lemma {:induction false} FBoundsPlans(N: nat, x: real, ys: seq<real>)
      requires F(N, x).Some? && |ys| == N + 1 && Admissible(x, ys)
      ensures R(x, ys) <= F(N, x).value.0
      decreases N
    {
      var y, rest := ys[0], ys[1..];
      assert ys == [y] + rest;
      AdmissibleCons(x, y, rest);
      var yi := y.Floor;
      PayoffBelowF(N, x, yi);
      var x' := Next(x, y);
      var c := g(y) + h(x - y);
      var p := Payoff(N, x, yi).value;
      RFirstStep(x, y, rest);
      if N == 0 {
        assert rest == [];
        assert R(x', rest) == 0.0;
        BoundStep(R(x, ys), c, R(x', rest), 0.0, p, F(N, x).value.0);
      } else {
        PayoffEarlierStage(N, x, yi);
        FBoundsPlans(N - 1, x', rest);
        BoundStep(R(x, ys), c, R(x', rest), F(N - 1, x').value.0, p, F(N, x).value.0);
      }
    }

    /** An allocation in range earns a defined payoff, no larger than `f(N)`'s value. */
    lemma PayoffBelowF(N: nat, x: real, y: int)
      requires F(N, x).Some? && 0 <= y && y as real <= x
      ensures Payoff(N, x, y).Some? && Payoff(N, x, y).value <= F(N, x).value.0
    {
      FSpec(N, x);
      assert y <= x.Floor;
    }

    /** Closing step of `FBoundsPlans`: a reward split as `c + t` with `t` below the best tail is below `f`. */
    lemma BoundStep(r: real, c: real, t: real, best: real, p: real, f: real)
      requires r == c + t && t <= best && p == c + best && p <= f
      ensures r <= f
    {
    }

    /** The plan `f` describes: its chosen allocation now, then the plan of `f(N - 1)` at the next stock. */
    function Plan(N: nat, x: real): seq<real>
      decreases N
    {
      match F(N, x)
      case None => []
      case Some(best) => [best.1 as real] + (if N == 0 then [] else Plan(N - 1, Next(x, best.1 as real)))
    }

    /** Where `f(N)` is defined, its plan is an admissible plan of `N + 1` allocations. */
    lemma {:induction false} PlanAdmissible(N: nat, x: real)
      requires F(N, x).Some?
      ensures |Plan(N, x)| == N + 1 && Admissible(x, Plan(N, x))
      decreases N
    {
      FChoice(N, x);
      var y := F(N, x).value.1;
      var yr := y as real;
      var x' := Next(x, yr);
      var rest := if N == 0 then [] else Plan(N - 1, x');
      assert Plan(N, x) == [yr] + rest;
      assert yr.Floor == y;
      if N == 0 {
        assert Admissible(x', rest);
      } else {
        PayoffEarlierStage(N, x, y);
        PlanAdmissible(N - 1, x');
      }
      AdmissibleCons(x, yr, rest);
    }

    /** Where `f(N)` is defined, its plan earns exactly `f(N)`'s value. */
    lemma {:induction false} PlanAttains(N: nat, x: real)
      requires F(N, x).Some?
      ensures R(x, Plan(N, x)) == F(N, x).value.0
      decreases N
    {
      FChoice(N, x);
      var (v, y) := F(N, x).value;
      var yr := y as real;
      var x' := Next(x, yr);
      var rest := if N == 0 then [] else Plan(N - 1, x');
      var plan := Plan(N, x);
      assert plan == [yr] + rest;
      var c := g(yr) + h(x - yr);
      RFirstStep(x, yr, rest);
      if N == 0 {
        assert R(x', rest) == 0.0;
        AttainStep(R(x, plan), c, R(x', rest), 0.0, v);
      } else {
        PayoffEarlierStage(N, x, y);
        PlanAttains(N - 1, x');
        AttainStep(R(x, plan), c, R(x', rest), F(N - 1, x').value.0, v);
      }
    }

    /** `f(N)`'s choice is an allocation in range whose payoff is `f(N)`'s value. */
    lemma FChoice(N: nat, x: real)
      requires F(N, x).Some?
      ensures 0 <= F(N, x).value.1 && F(N, x).value.1 as real <= x
      ensures Payoff(N, x, F(N, x).value.1) == Some(F(N, x).value.0)
    {
      FSpec(N, x);
    }

    /** Closing step of `PlanAttains`: a reward split as `c + t` with `t` the best tail is the payoff `c + best`. */
    lemma AttainStep(r: real, c: real, t: real, best: real, v: real)
      requires r == c + t && t == best && v == c + best
      ensures r == v
    {
    }
  }
}
