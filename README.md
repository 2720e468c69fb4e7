# Dynamic programming, Markov chains and Concrete Mathematics exercises in Dafny

This project models, in Dafny, the computational core of a collection of
research notebooks written in Python:

- **Finite-horizon dynamic programming** (`stochastic_control/bellman.py`,
  `stochastic_control/decision.py`). Backward induction walks the stages
  `T - 1` down to `0`. Each stage's table maps every state to the pair
  `(value, action)` that minimises stage cost plus the value of the next state.
  Python's `min` compares the pairs as tuples, so ties go to the smallest action.
  The stochastic version (`MDP.policy`) takes the action value as an expectation
  over a finite distribution of disturbances. Costs are extended reals: a finite
  real, or `+inf`.
- **A Markov-chain toolkit** (`stochastic_control/markov.py`):
  - running sums and cumulative distributions;
  - inverse-CDF picking;
  - expectation, probability and total variation;
  - the running-mean Monte Carlo helper and the random walk;
  - forward propagation of a distribution (`propf`) and backward propagation of
    values (`propr`, `values`).

  Distributions are association lists in insertion order, which the model takes as
  the order in which the dicts enumerate their keys (see "## Left out").
- **Resource allocation** (`dynamic_programming/allocation.py`). This is the
  class `Allocator`, with:
  - the stock trajectory `xs`;
  - the total reward `R`;
  - the optimal-value recursion `f(N)`, which maximises over the integer
    allocations `0 <= y <= x`.
- **Concrete Mathematics exercises** (`concrete_mathematics/*.py`):
  - Euclid's gcd, its continuant generator and its certificate generator;
  - primes and composites by trial division;
  - Farey sequences;
  - Stern–Brocot encoding and decoding;
  - Tower of Hanoi and Josephus, each in closed and recursive form, and the
    generalised recurrence `f`;
  - falling and rising factorial powers with the difference and shift
    operators;
  - integer `n`-th roots and the "roulette" count with its closed form.
- **Rational universal hyperbolic geometry** (`geometry/hyperbolic.py`):
  - the Laplace determinant, minors, cofactors and the trace;
  - the `zip`-based vector arithmetic;
  - the point/line duality: `join`, `meet`, `incident`, `dual` and
    perpendicularity.

Modules and files:

| module | file | models |
|---|---|---|
| `Wrappers` | `wrappers.dfy` | `Option` |
| `ExtReals` | `extreal.dfy` | finite-or-`+inf` costs, their sum and order |
| `Arith` | `arith.dfy` | divisibility facts |
| `Bellman` | `bellman.dfy` | `bellman.policy` |
| `BellmanExample` | `bellman_example.dfy` | the shortest-path doctest of `bellman.py` |
| `Decision` | `decision.dfy` | `decision.MDP` |
| `Markov` | `markov.dfy` | `markov.py` |
| `Allocation` | `allocation.dfy` | `allocation.Allocator` |
| `NumberTheory` | `numbertheory.dfy` | `gcd`, `gcd_gen`, `gcd_cert`, `primes`, `composites` |
| `SternBrocot` | `sternbrocot.dfy` | `farey`, `stern_brocot`, `brocot_stern` |
| `Recurrence` | `recurrence.dfy` | `recurrence.py` |
| `Sums` | `sums.dfy` | `sums.py` |
| `Integers` | `integers.dfy` | `integers.py` |
| `Hyperbolic` | `hyperbolic.dfy` | `hyperbolic.py` |

Where the source loops while changing variables, the model is a `method` with
a loop (`while` or `for`). Examples are `cumsum`, `propf`, `monte_carlo`, `rwalk`,
`values`, `xs`, `gcd_gen`, `gcd_cert`, `primes`, `composites`, `stern_brocot`,
`brocot_stern`, and the stage loops of both `policy` functions. Each such method
is proved equal to a specification function, and the lemmas about that function
state what the source promises. Where the source is pure recursion or a
comprehension, the model is a function.

Modelling choices:

- **States.** States, actions and disturbances are integers. The nodes `a..d` of
  the `bellman.py` doctest are encoded `0..3`, which keeps their order, so tuple
  tie-breaks agree.
- **Numbers.** Costs and probabilities are exact `real`s, and Python's `float('inf')`
  is the `PosInf` of `ExtReals`. Integers are unbounded, as in Python.
- **Python operators.** Python's floor division and `%` are written out where
  operands can be negative (`NumberTheory.PyDiv`, `NumberTheory.PyMod`).
- **Errors become `None`.** A Python error on a reachable input is a `None`
  result, or a `false` flag for a generator that stops early, except for the
  inputs that "## Left out" names as excluded by a precondition or a `nat`
  type. This covers:
  - `min` or `max` of an empty sequence;
  - an unbound variable;
  - division by zero.

## Model

| member | source | states |
|---|---|---|
| `ExtReals.AddLaws` | stochastic_control/bellman.py:29 | adding extended-real costs is commutative and associative with `0` as its unit, and scaling by probability `1` changes nothing |
| `ExtReals.LtOrder` | stochastic_control/bellman.py:29 | the comparison of extended reals that `min` relies on is a strict total order |
| `Bellman.V` | stochastic_control/bellman.py:27 | the definition of `V(x) = p.get(x, (0, None))[0]`: the value stored for `x`, and `0` for a state missing from the table (`decision.py` reads the table the same way) |
| `Bellman.EntryOrder` | stochastic_control/bellman.py:29 | Python's order on `(value, action)` tuples is total, antisymmetric and transitive |
| `Bellman.Min` | stochastic_control/bellman.py:29 | `min` of a non-empty candidate list returns one of the candidates, and it is below every candidate in tuple order |
| `Bellman.MinUnique` | stochastic_control/bellman.py:29 | a candidate that is below all the others is the one `min` returns |
| `Bellman.Deterministic` | stochastic_control/bellman.py:29 | the definition of the deterministic action value `g(t, x, u, T) + V(f(t, x, u, T))`; `Bellman.StageOptimal` states what the stage table makes of it |
| `Bellman.Stage` | stochastic_control/bellman.py:29 | the definition of one stage: the dict `{x: min((Q(t, x, u, p), u) for u in U(t, x)) for x in X(t)}`, or a failure when some `min` has no candidate; `Bellman.StageOptimal` states its properties |
| `Bellman.StagesFrom` | stochastic_control/bellman.py:28-30 | the definition of the run of the loop: the pairs `(t, p)` for `t` from the given stage down to `0`, each table built from the one before, cut short at the first stage that fails |
| `Bellman.Policy` | stochastic_control/bellman.py:26-30 | the backward loop yields exactly the run `StagesFrom(T - 1, p)` of the deterministic action value `g + V(f)`, and a failing `min` stops it |
| `Bellman.StagesFromStep` | stochastic_control/bellman.py:28-30 | one round of the loop: a stage that can be built is yielded, and the loop goes on from its table |
| `Bellman.StagesDescend` | stochastic_control/bellman.py:28-30 | the stages come out as `t, t - 1, ...`, one each and never above `t`; when nothing fails, all of `t` down to `0` come out |
| `Bellman.StagesChain` | stochastic_control/bellman.py:27-30 | each yielded table is built from the table yielded just before it (the first from `p`), and a failing run stops at the first stage that cannot be built |
| `Bellman.StageOptimal` | stochastic_control/bellman.py:27-29 | a stage table has exactly the states of `X(t)`; each entry's action is in `U(t, x)` with the entry's value, that value is at most the value of every action, and the action is the smallest among those of least value; a stage can be built exactly when no state has an empty action list |
| `Bellman.CandidatesAgree` | stochastic_control/bellman.py:29 | action values that agree give the same candidates |
| `Bellman.StageAgree` | stochastic_control/bellman.py:29 | action values that agree at a stage give the same stage table |
| `Bellman.StagesAgree` | stochastic_control/bellman.py:28-30 | action values that agree everywhere give the same run |
| `BellmanExample.QIs` | stochastic_control/bellman.py:9-10 | the example's action value is the stage cost of the move plus the table's value of the node moved to |
| `BellmanExample.StageShape` | stochastic_control/bellman.py:11 | every stage of the example can be built; its table holds exactly the four nodes, each with the least of its four candidates |
| `BellmanExample.Stage3` | stochastic_control/bellman.py:15 | from a table valuing every node at `0`, stage 3 is `{a: (inf, a), b: (inf, a), c: (inf, a), d: (0, a)}` |
| `BellmanExample.Stage2` | stochastic_control/bellman.py:14 | stage 2 is `{a: (inf, a), b: (8, d), c: (4, d), d: (0, d)}` |
| `BellmanExample.Stage1` | stochastic_control/bellman.py:13 | stage 1 is `{a: (10, b), b: (7, c), c: (4, d), d: (0, d)}` |
| `BellmanExample.Stage0` | stochastic_control/bellman.py:12 | stage 0 is `{a: (9, b), b: (7, c), c: (4, d), d: (0, d)}` |
| `BellmanExample.FourStages` | stochastic_control/bellman.py:28-30 | four stages that each succeed on the previous table make the whole run `3, 2, 1, 0` |
| `BellmanExample.ShortestPaths` | stochastic_control/bellman.py:6-17 | `policy(T=4, ...)` on the `a..d` graph yields the four hand-computed tables `P` of the doctest, from any start table that values every node at `0`, the empty default included |
| `Decision.Expected` | stochastic_control/decision.py:36 | the definition of the action value `E`: the sum, over the items `(w, p)` of `W(t, x, u)`, of `(g(t, x, u, w) + V(f(t, x, u, w))) * p`; `Decision.ExpectedInfinite` and `Decision.ExpectedPointMass` state its properties |
| `Decision.TotalInfinite` | stochastic_control/decision.py:36 | Python's `sum` of extended reals is infinite exactly when one of its terms is |
| `Decision.TotalFinite` | stochastic_control/decision.py:36 | a sum of finite terms is the real sum |
| `Decision.ExpectedInfinite` | stochastic_control/decision.py:36 | an action's expected value is infinite exactly when some disturbance of positive probability leads to an infinite cost-to-go |
| `Decision.ExpectedPointMass` | stochastic_control/decision.py:36 | under a point mass at `w`, the expectation is the cost-to-go of `w` |
| `Decision.PointMassIsDeterministic` | stochastic_control/decision.py:25-40 | when every `W(t, x, u)` is a point mass at some `w(t, x, u)` (the default `{None: 1}` among them), `MDP.policy` yields the same run as `bellman.policy` with the disturbance fixed to `w(t, x, u)` |
| `Decision.MDP.constructor` | stochastic_control/decision.py:21-25 | the fields are the arguments; a missing `U` defaults to `X(t)` and a missing `W` to `{None: 1}` |
| `Decision.MDP.Policy` | stochastic_control/decision.py:33-40 | the backward loop yields exactly the run `StagesFrom(T - 1, p)` of the expected action value `E`, each stage built from the previous one's table |
| `Markov.Dot` | stochastic_control/markov.py:46-47 | the definition of `dot(x, y)`: the sum over the keys `k` of `x` of `x[k] * y.get(k, 0)` |
| `Markov.GetKeys` | stochastic_control/markov.py:47 | `d.get(k, 0)` is the value stored under `k`, and `0` when `k` is absent |
| `Markov.PutGet` | stochastic_control/markov.py:96 | after `d[k] = v`, `k` reads `v` and every other key reads as before |
| `Markov.PutKeys` | stochastic_control/markov.py:96 | `d[k] = v` adds `k` to the keys, and a dict stays a dict |
| `Markov.PutWSum` | stochastic_control/markov.py:96 | `d[k] = v` changes a weighted sum by the weight of `k` times the change of its value |
| `Markov.WSumAppend` | stochastic_control/markov.py:47 | the weighted sum of two concatenated lists is the sum of their weighted sums |
| `Markov.WSumAgree` | stochastic_control/markov.py:47 | weights that agree on the keys give the same weighted sum |
| `Markov.MassMonotone` | stochastic_control/markov.py:57-58 | with no negative value, the mass of a prefix grows with its length |
| `Markov.MassNonNegative` | stochastic_control/markov.py:57-58 | a distribution with no negative value has non-negative mass |
| `Markov.PrefixSumsAt` | stochastic_control/markov.py:52-55 | the `i`-th running total is the start plus the first `i + 1` values, and the last is the start plus the total |
| `Markov.CumSum` | stochastic_control/markov.py:52-55 | the `cumsum` loop yields exactly the running totals |
| `Markov.SumDictValues` | stochastic_control/markov.py:58 | the sum of `pi.values()` is the total mass |
| `Markov.CumDist` | stochastic_control/markov.py:57-58 | `cumdist(pi)` has one entry per entry of `pi`; `Markov.CumDistAt` gives each entry |
| `Markov.CumDistAt` | stochastic_control/markov.py:57-58 | `cumdist(pi)` maps the `i`-th key to the mass of the entries up to and including it, in iteration order |
| `Markov.Pick` | stochastic_control/markov.py:60-64 | the definition of `pick(u)` with its default `c = cumdist(pi)`: the first key whose cumulative value is at least `u`, and `None` when there is none |
| `Markov.PickFirst` | stochastic_control/markov.py:61-64 | `pick(u)` returns the key of the first cumulative value at or above `u`, and `None` exactly when there is none |
| `Markov.PickInverseCdf` | stochastic_control/markov.py:61-64 | with no negative probability, `pick(u)` returns the `i`-th key for every `u` above the mass before it and at most the mass up to it |
| `Markov.PickInverseCdfOnly` | stochastic_control/markov.py:61-64 | the converse: in a dict, a positive `u` picks the `i`-th key only when it is above the mass before that key and at most the mass up to it |
| `Markov.PickAboveMass` | stochastic_control/markov.py:61-64 | above the total mass of a distribution, `pick` finds nothing |
| `Markov.PickInSupport` | stochastic_control/markov.py:61-64 | a picked state is a key of the distribution |
| `Markov.Expected` | stochastic_control/markov.py:71-72 | the definition of `expected(pi, f, X)`: the sum over `x` in `X` of `f(x) * pi.get(x, 0)` |
| `Markov.Probability` | stochastic_control/markov.py:74-75 | the definition of `probability(pi, E)`: the sum over `e` in `E` of `pi.get(e, 0)` |
| `Markov.ProbabilityIsExpected` | stochastic_control/markov.py:71-75 | `probability(pi, E)` is `expected(pi, 1, E)` |
| `Markov.ExpectedAgree` | stochastic_control/markov.py:71-72 | distributions that read the same on the domain have the same expectation |
| `Markov.ExpectedOnSupport` | stochastic_control/markov.py:71-75 | over the support of `pi`, `expected` is the weighted sum of `f`, and `probability` is the total mass |
| `Markov.ExpectedOutsideSupport` | stochastic_control/markov.py:71-72 | a state outside the support adds nothing to an expectation |
| `Markov.SetSumMass` | stochastic_control/markov.py:78 | summing a dict's values over its key set gives its mass |
| `Markov.TotalVariation` | stochastic_control/markov.py:77-78 | the definition of `total_variation`: half the sum of `abs(pi.get(k, 0) - pi_.get(k, 0))` over the union of the two key sets |
| `Markov.TotalVariationNonNegative` | stochastic_control/markov.py:77-78 | total variation is non-negative |
| `Markov.TotalVariationSymmetric` | stochastic_control/markov.py:77-78 | total variation is symmetric |
| `Markov.TotalVariationSelf` | stochastic_control/markov.py:77-78 | a distribution is at total variation `0` from itself |
| `Markov.TotalVariationZero` | stochastic_control/markov.py:77-78 | total variation is `0` exactly when the two dicts read the same at every state |
| `Markov.TotalVariationTriangle` | stochastic_control/markov.py:77-78 | the triangle inequality `tv(a, c) <= tv(a, b) + tv(b, c)`, so with the laws above total variation is a metric |
| `Markov.TotalVariationDisjoint` | stochastic_control/markov.py:77-78 | two normalised distributions with disjoint supports are at total variation `1` |
| `Markov.TotalVariationAtMostOne` | stochastic_control/markov.py:77-78 | total variation of two normalised distributions is at most `1`, so the value `1` reached by disjoint supports is the maximum |
| `Markov.GapOnSupport` | stochastic_control/markov.py:78 | for disjoint supports, the gap on either support is that distribution's value |
| `Markov.MonteCarlo` | stochastic_control/markov.py:80-83 | `monte_carlo` returns the mean of `f` over the samples, and fails on no sample |
| `Markov.SumConstant` | stochastic_control/markov.py:80-83 | samples that all equal `c` sum to their count times `c`, so their mean is `c` |
| `Markov.RandomWalk` | stochastic_control/markov.py:85-90 | given the draws, `rwalk` yields `T + 1` states: the first picked from `pi0`, each next one from the row of the current state |
| `Markov.WalkSteps` | stochastic_control/markov.py:89 | once no state is picked the walk stays without one, and a picked state is in the row it was picked from |
| `Markov.Spread` | stochastic_control/markov.py:94-96 | the specification of the loops of `propf`: each item `(i, p)` of `pi` adds `p` times each entry of `P.get(i, {})` to the result, in order |
| `Markov.AddRowStep` | stochastic_control/markov.py:95-96 | the inner loop of `propf` adds the row's items one at a time, in order |
| `Markov.Propf` | stochastic_control/markov.py:92-97 | the nested loops of `propf` fill the result exactly as the specification `Spread` does |
| `Markov.AddRowScaled` | stochastic_control/markov.py:95-96 | adding a row weighted by `p` is adding the scaled row |
| `Markov.AddRowGet` | stochastic_control/markov.py:95-96 | adding a row weighted by `p` adds `p` times the row's value at every state |
| `Markov.AddRowWSum` | stochastic_control/markov.py:95-96 | adding a row weighted by `p` keeps a dict a dict and adds `p` times the row's weighted sum |
| `Markov.SpreadGet` | stochastic_control/markov.py:94-96 | after the outer loop, state `j` holds its start value plus `sum(pi[i] * P.get(i, {}).get(j, 0))` |
| `Markov.SpreadWSum` | stochastic_control/markov.py:94-96 | the outer loop adds to every weighted sum the `pi`-weighted sum of the rows' weighted sums |
| `Markov.PropfGet` | stochastic_control/markov.py:92-97 | `propf(pi, P)[j]` is `sum(pi[i] * P(i)(j))`, and a state with no row in `P` passes nothing on |
| `Markov.PropfMass` | stochastic_control/markov.py:92-97 | the mass after a step is `sum(pi[i] * rowsum(i))`, so it is the mass of `pi` when every row of the support sums to `1` |
| `Markov.Propr` | stochastic_control/markov.py:99-100 | the definition of `propr(P, v)`: the dict mapping each row key `i` of `P` to `dot(P[i], v)` |
| `Markov.ProprGet` | stochastic_control/markov.py:99-100 | `propr(P, v)` has the keys of `P`, and state `i` reads `dot(P(i), v)`, a missing `v` entry counting as `0` |
| `Markov.PropagationAdjoint` | stochastic_control/markov.py:92-100 | forward and backward propagation are adjoint: `dot(propf(pi, P), v) == dot(pi, propr(P, v))` |
| `Markov.Tabulate` | stochastic_control/markov.py:103 | the definition of `dict((x, f(x)) for x in X)`: the entries put one by one in the order of `X` |
| `Markov.TabulateGet` | stochastic_control/markov.py:103 | `dict((x, f(x)) for x in X)` is a dict whose key set is exactly the states of `X`, each mapped to `f` of it |
| `Markov.Values` | stochastic_control/markov.py:102-108 | `values` yields `T + 1` tables: first the terminal values `g(T, x, T)`, then for `t = T - 1` down to `0` the table of `g(t, x, T) + propr(P, v).get(x, 0)` |
| `Markov.ValuesStep` | stochastic_control/markov.py:106-107 | a stage table of `values` has exactly the states of `X` as keys; a state of `X` reads its stage cost plus the expected next value under its row (`0` with no row) |
| `Allocation.Allocator.constructor` | dynamic_programming/allocation.py:3-5 | the fields `a, b, g, h` are the arguments |
| `Allocation.Allocator.Trajectory` | dynamic_programming/allocation.py:7-11 | the trajectory has one more value than there are allocations, and starts at `x` |
| `Allocation.Allocator.TrajectoryCharacterized` | dynamic_programming/allocation.py:7-11 | the trajectory is the one sequence that starts at `x` and has each next stock equal to `a y + b (prev - y)` |
| `Allocation.Allocator.Xs` | dynamic_programming/allocation.py:7-11 | the `xs` loop yields exactly the trajectory |
| `Allocation.Allocator.R` | dynamic_programming/allocation.py:13-15 | the definition of `R(x, *ys)`: the sum of `g(y_i) + h(x_i - y_i)` over the trajectory stocks `x_i` paired with the allocations `y_i` |
| `Allocation.Allocator.RewardsZip` | dynamic_programming/allocation.py:13-15 | the `i`-th reward term pairs the `i`-th trajectory stock with the `i`-th allocation, as the `zip` does |
| `Allocation.Allocator.RFirstStep` | dynamic_programming/allocation.py:13-15 | the reward of a plan is that of its first allocation plus the reward of the rest from the next stock |
| `Allocation.Allocator.AdmissibleCons` | dynamic_programming/allocation.py:20-24 | a plan is admissible (integer allocations between `0` and the stock met) exactly when its first allocation is and the rest is from the next stock |
| `Allocation.Allocator.Payoff` | dynamic_programming/allocation.py:21-23 | the definition of `payoff(x, y)`: `g(y) + h(x - y)` plus, for `N > 0`, the value of `f(N - 1)` at the next stock `a y + b (x - y)`, failing when that fails |
| `Allocation.Allocator.MaxUpTo` | dynamic_programming/allocation.py:24 | the definition of the tuple `max` of `(payoff(x, y), y)` over `y` in `xrange(k)`, failing on an empty range or a failing payoff |
| `Allocation.Allocator.F` | dynamic_programming/allocation.py:17-24 | the definition of `f(N)(x)`: the `max` over `y` in `xrange(int(x + 1))`; `Allocation.Allocator.FSpec` states its properties |
| `Allocation.Allocator.MaxUpToSpec` | dynamic_programming/allocation.py:24 | the tuple `max` over `xrange(k)` is defined exactly when every payoff is, and then returns the last allocation of greatest payoff |
| `Allocation.Allocator.LastArgmaxAtEnd` | dynamic_programming/allocation.py:24 | a new allocation whose payoff ties or beats the best so far becomes the maximum, since the larger `y` wins a tie |
| `Allocation.Allocator.LastArgmaxBefore` | dynamic_programming/allocation.py:24 | a new allocation whose payoff is below the best so far leaves the maximum in place |
| `Allocation.Allocator.FSpec` | dynamic_programming/allocation.py:17-24 | `f(N)(x)` is defined exactly when `x >= 0` and every payoff in range is; it then returns an integer `0 <= y <= x` whose payoff is its value, at least every other payoff and above that of every larger `y` |
| `Allocation.Allocator.PayoffLastStage` | dynamic_programming/allocation.py:21-23 | `f(0)`'s payoff is `g(y) + h(x - y)` |
| `Allocation.Allocator.PayoffEarlierStage` | dynamic_programming/allocation.py:21-23 | `f(N)`'s payoff for `N > 0` adds the optimal value of `f(N - 1)` at the next stock, and is defined exactly when that is |
| `Allocation.Allocator.PayoffBelowF` | dynamic_programming/allocation.py:21-24 | an allocation in range has a defined payoff, no larger than `f(N)`'s value |
| `Allocation.Allocator.FBoundsPlans` | dynamic_programming/allocation.py:13-24 | where `f(N)(x)` is defined, no admissible plan of `N + 1` allocations earns `R` above its value |
| `Allocation.Allocator.FChoice` | dynamic_programming/allocation.py:24 | `f(N)`'s choice is an allocation in range whose payoff is `f(N)`'s value |
| `Allocation.Allocator.PlanAdmissible` | dynamic_programming/allocation.py:17-24 | the plan read off `f` is an admissible plan of `N + 1` allocations |
| `Allocation.Allocator.PlanAttains` | dynamic_programming/allocation.py:13-24 | the plan read off `f` earns exactly `f(N)`'s value, so `f` is the optimum of `R` |
| `NumberTheory.PyMod` | concrete_mathematics/numbertheory.py:4 | Python's `%` takes the sign of the divisor and agrees with the Euclidean remainder for positive divisors |
| `NumberTheory.PyDiv` | concrete_mathematics/numbertheory.py:18 | Python's `//` and `%` satisfy `n == m * (n // m) + n % m` |
| `NumberTheory.Gcd` | concrete_mathematics/numbertheory.py:1-4 | the definition of `gcd(m, n)`: `n` when `m` is `0`, otherwise `gcd(n % m, m)` with Python's `%` |
| `NumberTheory.GcdDividesBoth` | concrete_mathematics/numbertheory.py:1-4 | on naturals, `gcd` is a natural dividing both arguments |
| `NumberTheory.GcdGreatest` | concrete_mathematics/numbertheory.py:1-4 | every common divisor of two naturals divides their `gcd` |
| `NumberTheory.GcdCharacterised` | concrete_mathematics/numbertheory.py:1-4 | a positive common divisor that every common divisor divides is the `gcd` |
| `NumberTheory.GenOutput` | concrete_mathematics/numbertheory.py:6-11 | `gcd_gen(g, A)` yields `1 + len(A)` values |
| `NumberTheory.GcdGen` | concrete_mathematics/numbertheory.py:6-11 | the `gcd_gen` loop yields exactly the specified output |
| `NumberTheory.GcdGenRecurrence` | concrete_mathematics/numbertheory.py:6-11 | `gcd_gen` yields `0`, then `g`, then each next value is the quotient times the previous value plus the one before |
| `NumberTheory.GcdGenRebuilds` | concrete_mathematics/numbertheory.py:1-11 | fed `gcd(m, n)` and Euclid's quotients of `(m, n)` last one first, `gcd_gen` ends in the state `(m, n)` and yields Euclid's remainders back to `m` |
| `NumberTheory.GcdStep` | concrete_mathematics/numbertheory.py:4 | `gcd(m, n) == gcd(n % m, m)` for positive `m` |
| `NumberTheory.GcdCert` | concrete_mathematics/numbertheory.py:13-18 | within the given rounds, every triple yielded is a certificate `d = m' m + n' n`, and a run that stops normally ends with a `d` that divides both `m` and `n` |
| `NumberTheory.CertRunSound` | concrete_mathematics/numbertheory.py:15-18 | any run of the certificate loop yields only certificates and stops only on a `d` dividing both |
| `NumberTheory.GcdCertNeverStopsOn5And3` | concrete_mathematics/numbertheory.py:13-18 | `gcd_cert(5, 3)` as written never stops, however many rounds it is given |
| `NumberTheory.GcdCertCorrected` | concrete_mathematics/numbertheory.py:13-18 | with the quotient of the two latest remainders, the generator yields certificates only, nothing exactly when `n` divides `m`, and otherwise starts at `(0, 1, n)` and ends at `gcd(m, n)` |
| `NumberTheory.EuclidStep` | concrete_mathematics/numbertheory.py:4 | one extended-Euclid step turns two certificates into a certificate of their remainder and keeps the `gcd` |
| `NumberTheory.CertIsGcd` | concrete_mathematics/numbertheory.py:13-15 | a positive common divisor that is an integer combination of `m` and `n` is their `gcd` |
| `NumberTheory.PrimesUpTo` | concrete_mathematics/numbertheory.py:20-25 | the specification of `primes(N)`: exactly the primes of `[2, N]`, increasing |
| `NumberTheory.CompositesUpTo` | concrete_mathematics/numbertheory.py:27-33 | the specification of `composites(N)`: exactly the non-primes of `[2, N]`, increasing |
| `NumberTheory.PrimeFactor` | concrete_mathematics/numbertheory.py:23 | a number with a proper divisor has a prime divisor no larger than it |
| `NumberTheory.TrialDivision` | concrete_mathematics/numbertheory.py:23 | `n` is prime exactly when no prime below it divides it |
| `NumberTheory.PrimesBelowNext` | concrete_mathematics/numbertheory.py:23-25 | adding `n` to the set exactly when it is prime keeps the set equal to the primes below the loop bound |
| `NumberTheory.Primes` | concrete_mathematics/numbertheory.py:20-25 | the `primes` loop with its growing set yields exactly the primes of `[2, N]`, increasing |
| `NumberTheory.Composites` | concrete_mathematics/numbertheory.py:27-33 | the `composites` loop yields exactly the non-primes of `[2, N]`, increasing |
| `NumberTheory.PrimesCompositesPartition` | concrete_mathematics/numbertheory.py:20-33 | the outputs of `primes(N)` and `composites(N)` split `[2, N]` between them |
| `SternBrocot.InsertMediants` | concrete_mathematics/numbertheory.py:39-46 | the body of `farey(N)` keeps the first and last elements and never shortens the sequence |
| `SternBrocot.Farey` | concrete_mathematics/numbertheory.py:35-46 | `farey(N)` starts at `(0, 1)` and ends at `(1, 1)` |
| `SternBrocot.WithoutInserted` | concrete_mathematics/numbertheory.py:41-46 | dropping the inserted mediants (denominator `N`) gives back `farey(N - 1)` |
| `SternBrocot.InsertAdjacent` | concrete_mathematics/numbertheory.py:41-46 | inserting mediants keeps every pair of neighbours at determinant `1` |
| `SternBrocot.InsertInRange` | concrete_mathematics/numbertheory.py:41-46 | inserting mediants keeps every element a fraction of `[0, 1]` with denominator at most `N` |
| `SternBrocot.FareyShape` | concrete_mathematics/numbertheory.py:35-46 | every element of `farey(N)` is in `[0, 1]` with denominator at most `N`, and neighbours `m/n`, `m'/n'` have `n m' - m n' = 1` |
| `SternBrocot.FareyExtends` | concrete_mathematics/numbertheory.py:35-46 | `farey(N)` holds `farey(N - 1)` in order |
| `SternBrocot.FareyReduced` | concrete_mathematics/numbertheory.py:35-46 | every fraction of `farey(N)` is in lowest terms |
| `SternBrocot.Run` | concrete_mathematics/numbertheory.py:48-55 | the definition of the `stern_brocot` loop from given bounds: `L` moves the upper bound, `R` the lower bound, to the mediant, any other character is skipped, and the result is the final mediant |
| `SternBrocot.SternBrocotDecode` | concrete_mathematics/numbertheory.py:48-55 | the `stern_brocot` loop computes the mediant reached by the moves, and `(1, 1)` for the empty path |
| `SternBrocot.RunIgnoresOtherCharacters` | concrete_mathematics/numbertheory.py:50-54 | only the `L`/`R` letters of a path matter, in either case |
| `SternBrocot.RunLinear` | concrete_mathematics/numbertheory.py:48-55 | the result from any bounds is the bounds' linear map applied to the result from the start |
| `SternBrocot.RunAfterLeft` | concrete_mathematics/numbertheory.py:51-52 | an `L` first turns the fraction `x/y` of the rest into `x/(x + y)` |
| `SternBrocot.RunAfterRight` | concrete_mathematics/numbertheory.py:53-54 | an `R` first turns the fraction `x/y` of the rest into `(x + y)/y` |
| `SternBrocot.RunFromValid` | concrete_mathematics/numbertheory.py:48-55 | from bounds with determinant `1`, every path ends at a positive fraction in lowest terms |
| `SternBrocot.SternBrocotReduced` | concrete_mathematics/numbertheory.py:48-55 | `stern_brocot` always gives a positive fraction in lowest terms |
| `SternBrocot.Path` | concrete_mathematics/numbertheory.py:57-64 | the definition of the moves of `brocot_stern(m, n)`: `L` and subtract `m` from `n` while `m < n`, `R` and subtract `n` from `m` while `m > n`, until they are equal |
| `SternBrocot.BrocotStern` | concrete_mathematics/numbertheory.py:57-64 | for positive `m, n` or `m == n`, the `brocot_stern` loop ends; it yields only `L`/`R`, and nothing exactly when `m == n` |
| `SternBrocot.MovesOnly` | concrete_mathematics/numbertheory.py:57-64 | `brocot_stern` yields only `L` and `R` |
| `SternBrocot.GcdSubtractLeft` | concrete_mathematics/numbertheory.py:61 | subtracting the smaller of two positive numbers from the larger keeps the `gcd` |
| `SternBrocot.DecodeEncode` | concrete_mathematics/numbertheory.py:48-64 | decoding the path of a positive `m/n` gives `m/n` in lowest terms, `(m, n)` divided by their `gcd` |
| `SternBrocot.DecodeEncodeCoprime` | concrete_mathematics/numbertheory.py:48-64 | for coprime positive `m, n`, `stern_brocot(brocot_stern(m, n)) == (m, n)` |
| `SternBrocot.EncodeDecode` | concrete_mathematics/numbertheory.py:48-64 | encoding the fraction a path decodes to gives back the path's moves, upper-cased and with other characters dropped |
| `Recurrence.Hanoi` | concrete_mathematics/recurrence.py:1-2 | the definition of `hanoi(n) = 2 ** n - 1` for a natural `n` |
| `Recurrence.HanoiR` | concrete_mathematics/recurrence.py:4-7 | the definition of `hanoi_r`: `0` for no disc, otherwise `2 hanoi_r(n - 1) + 1` |
| `Recurrence.HanoiClosedForm` | concrete_mathematics/recurrence.py:1-7 | `hanoi(n) == hanoi_r(n)` for every number of discs |
| `Recurrence.Josephus` | concrete_mathematics/recurrence.py:9-10 | `josephus(n)` is odd: a masked left shift plus one |
| `Recurrence.JosephusR` | concrete_mathematics/recurrence.py:12-15 | `josephus_r(n)` is odd and between `1` and `max(n, 1)` |
| `Recurrence.BitLengthBounds` | concrete_mathematics/recurrence.py:10 | a positive `n` has `2^(L-1) <= n < 2^L` for its bit length `L` |
| `Recurrence.JosephusLeadingBit` | concrete_mathematics/recurrence.py:9-10 | for positive `n`, the masked shift removes the leading bit: `josephus(n) == 2n - 2^L + 1` |
| `Recurrence.JosephusClosedForm` | concrete_mathematics/recurrence.py:9-15 | `josephus(n) == josephus_r(n)` for every `n >= 0` |
| `Recurrence.F` | concrete_mathematics/recurrence.py:17-20 | the definition of `f(n, alpha, beta, gamma)`: `alpha` for `n <= 1`, otherwise twice `f(n // 2)` with the default parameters plus `gamma` for odd `n` and `beta` for even `n` |
| `Recurrence.FDefaultsAreJosephus` | concrete_mathematics/recurrence.py:12-20 | `f` with its default parameters is `josephus_r` |
| `Recurrence.FParametersOnlyAtTop` | concrete_mathematics/recurrence.py:17-20 | non-default `alpha, beta, gamma` act only at the top-level call, since the recursive call drops them |
| `Sums.Delta` | concrete_mathematics/sums.py:4-5 | the definition of `delta(f)`: `x -> f(x + 1) - f(x)` |
| `Sums.Shift` | concrete_mathematics/sums.py:7-8 | the definition of `shift(f)`: `x -> f(x + 1)` |
| `Sums.Falling` | concrete_mathematics/sums.py:10-13 | `falling(x, m)` is the product `x (x-1) ... (x-m+1)` for `m >= 0`; for `m < 0` it is the reciprocal of `falling(x - m, -m)`, and fails exactly when that product is `0` |
| `Sums.Rising` | concrete_mathematics/sums.py:15-18 | `rising(x, m)` is `x (x+1) ... (x+m-1)` for `m >= 0`; for `m < 0` it is the reciprocal of `rising(x + m, -m)`, and fails exactly when that product is `0` |
| `Sums.ProductZeroIff` | concrete_mathematics/sums.py:13 | `reduce(mul, s, 1)` is `0` exactly when a factor is |
| `Sums.FallingZeroIff` | concrete_mathematics/sums.py:13 | a falling power is `0` exactly when `0` lies among its factors |
| `Sums.RisingZeroIff` | concrete_mathematics/sums.py:18 | a rising power is `0` exactly when `0` lies among its factors |
| `Sums.ZerothPowers` | concrete_mathematics/sums.py:13-18 | `falling(x, 0) == rising(x, 0) == 1`, the empty product |
| `Sums.FallingStep` | concrete_mathematics/sums.py:13 | `falling(x, m + 1) == falling(x, m) (x - m)` |
| `Sums.RisingStep` | concrete_mathematics/sums.py:18 | `rising(x, m + 1) == rising(x, m) (x + m)` |
| `Sums.FallingFirstFactor` | concrete_mathematics/sums.py:13 | `falling(x, m + 1) == x falling(x - 1, m)` |
| `Sums.FallingExponentLaw` | concrete_mathematics/sums.py:13 | `falling(x, m + n) == falling(x, m) falling(x - m, n)` for non-negative exponents |
| `Sums.RisingIsFallingFromTop` | concrete_mathematics/sums.py:13-18 | `rising(x, m) == falling(x + m - 1, m)` |
| `Sums.FallingVanishes` | concrete_mathematics/sums.py:13 | `falling(x, m) == 0` for integers `0 <= x < m` |
| `Sums.DeltaIsShiftMinusIdentity` | concrete_mathematics/sums.py:4-8 | `delta(f)(x) == shift(f)(x) - f(x)` |
| `Sums.DeltaOfFalling` | concrete_mathematics/sums.py:4-13 | the power rule of finite calculus: `delta` of `x^m` (falling) is `m x^(m-1)` |
| `Sums.DeltaOfRising` | concrete_mathematics/sums.py:4-18 | `delta` of `x^m` (rising) is `m (x+1)^(m-1)` |
| `Integers.NthRoot` | concrete_mathematics/integers.py:3-6 | for `N >= 0` and `n >= 1`, `nth_root` returns an `i <= N` with `i^n <= N < (i+1)^n`; it returns `None` for negative `N`, and for `n == 0` it returns a value only when `N == 0` |
| `Integers.Search` | concrete_mathematics/integers.py:4-6 | the search returns the first candidate from `i` on that overshoots, and `None` when every candidate up to `N` undershoots |
| `Integers.PowMonotone` | concrete_mathematics/integers.py:5 | `a^n <= b^n` for `0 <= a <= b` |
| `Integers.NthRootUnique` | concrete_mathematics/integers.py:3-6 | the root is the only `i >= 0` with `i^n <= N < (i+1)^n` |
| `Integers.BlockSumClosedForm` | concrete_mathematics/integers.py:10 | `2 * sum(3n + 4 for n in 1..K-1) == 3K^2 + 5K - 8` |
| `Integers.RouletteI` | concrete_mathematics/integers.py:8-10 | the definition of `roulette_i(N)`: with `K` the cube root of `N`, the block sum over `1 <= n < K` plus `N // K - K^2 + 1`, failing when the cube root fails (`N < 0`) or is `0` (`N // 0`) |
| `Integers.Roulette` | concrete_mathematics/integers.py:12-14 | the definition of `roulette(N)`: `(K^2 + 5K) / 2 - 3 + N // K`, failing as `roulette_i` does |
| `Integers.RouletteClosedForm` | concrete_mathematics/integers.py:8-14 | `roulette_i` and `roulette` both fail exactly when `N < 1`, and otherwise agree |
| `Integers.RouletteAtOne` | concrete_mathematics/integers.py:8-14 | both give `1` at `N = 1` |
| `Integers.RootStep` | concrete_mathematics/integers.py:3-6 | the cube roots of `N - 1` and `N` are equal, except at a perfect cube, where the root of `N` is one more |
| `Integers.RouletteIStep` | concrete_mathematics/integers.py:8-10 | from `N - 1` to `N`, `roulette_i` grows by one exactly when the cube root of `N` divides `N` |
| `Integers.RouletteCounts` | concrete_mathematics/integers.py:8-10 | `roulette_i(N)` counts the `1 <= n <= N` divisible by their integer cube root |
| `Hyperbolic.Dot` | geometry/hyperbolic.py:35-36 | the definition of `dot(X, Y)`: the sum of the products over `zip(X, Y)`; `Hyperbolic.DotSymmetric` and `Hyperbolic.DotLinear` state its properties |
| `Hyperbolic.Products` | geometry/hyperbolic.py:89 | the products over `zip(X, Y)` stop at the shorter vector |
| `Hyperbolic.Add` | geometry/hyperbolic.py:38-39 | `add` stops at the shorter vector |
| `Hyperbolic.Sub` | geometry/hyperbolic.py:41-42 | `sub` stops at the shorter vector |
| `Hyperbolic.Mul` | geometry/hyperbolic.py:44-45 | `mul` keeps the length |
| `Hyperbolic.AddSubInverse` | geometry/hyperbolic.py:38-42 | `sub(add(X, Y), Y) == X` when `X` is no longer than `Y` |
| `Hyperbolic.DotSymmetric` | geometry/hyperbolic.py:35-36 | `dot` is symmetric |
| `Hyperbolic.DotLinear` | geometry/hyperbolic.py:35-45 | `dot` distributes over `add` and commutes with `mul` in its first argument |
| `Hyperbolic.Signed` | geometry/hyperbolic.py:57-59 | `signed` keeps the length, and maps empty to empty |
| `Hyperbolic.SignedInvolutive` | geometry/hyperbolic.py:57-59 | `signed(signed(X)) == X` |
| `Hyperbolic.Incident` | geometry/hyperbolic.py:88-89 | the definition of `incident(a, L)`: the signed sum of the products over `zip(a, L)` is `0` |
| `Hyperbolic.IncidentForm` | geometry/hyperbolic.py:88-89 | for 3-vectors, `incident(a, L)` is the vanishing of `a0 L0 + a1 L1 - a2 L2` |
| `Hyperbolic.IncidentSymmetric` | geometry/hyperbolic.py:88-89 | `incident(a, L) == incident(L, a)` |
| `Hyperbolic.Without` | geometry/hyperbolic.py:26 | `s[:k] + s[k + 1:]` is `s` with index `k` removed |
| `Hyperbolic.Det` | geometry/hyperbolic.py:20-23 | the definition of `determinant(A, j)`: the single entry of a 1×1 matrix, otherwise the expansion down column `j` (`0` for the empty matrix); `Hyperbolic.Det2` and `Hyperbolic.Det3` state its values |
| `Hyperbolic.Cofactor` | geometry/hyperbolic.py:14-15 | the definition of `cofactor(A, i, j)`: the minor with the sign `(-1)^(i + j)` |
| `Hyperbolic.Minor` | geometry/hyperbolic.py:25-26 | the definition of `minor(A, i, j)`: the determinant of `A` without row `i` and column `j` |
| `Hyperbolic.Submatrix` | geometry/hyperbolic.py:25-26 | the matrix `minor` takes the determinant of is square, with row `i` and column `j` removed |
| `Hyperbolic.Cofactors` | geometry/hyperbolic.py:17-18 | `cofactors` has one entry per column, so `cofactors([])` is `[]` |
| `Hyperbolic.Minor2` | geometry/hyperbolic.py:25-26 | a minor of a 2×2 matrix is the entry in the other row and column |
| `Hyperbolic.Det2` | geometry/hyperbolic.py:20-23 | the 2×2 determinant is `ad - bc`, expanding down either column |
| `Hyperbolic.Minor3` | geometry/hyperbolic.py:25-26 | a minor of a 3×3 matrix is the 2×2 determinant of the other rows and columns |
| `Hyperbolic.Expansion3` | geometry/hyperbolic.py:14-15 | a 3×3 determinant is the sum of the column's entries times their minors, with signs alternating from `(-1)^j` |
| `Hyperbolic.Det3` | geometry/hyperbolic.py:14-26 | expanding a 3×3 determinant down any column gives the rule of Sarrus, so the result does not depend on the column |
| `Hyperbolic.ExpansionFirst` | geometry/hyperbolic.py:23 | only the first term of the expansion survives down a column that is zero below the first row |
| `Hyperbolic.DetIdentity` | geometry/hyperbolic.py:20-26 | the determinant of the identity matrix of any size is `1` |
| `Hyperbolic.Trace` | geometry/hyperbolic.py:28-29 | the definition of `trace(A)`: the sum of the diagonal entries |
| `Hyperbolic.TraceLaws` | geometry/hyperbolic.py:28-29 | the trace of the `n`×`n` identity is `n`, and the trace commutes with scaling by a number |
| `Hyperbolic.Scaled` | geometry/hyperbolic.py:120-122 | `A * a` keeps the shape of `A` |
| `Hyperbolic.Partitions` | geometry/hyperbolic.py:53-55 | `partitions(s)` has one pair per element |
| `Hyperbolic.PartitionsRebuild` | geometry/hyperbolic.py:53-55 | putting the `i`-th element back at index `i` of the others gives `s`, so nothing is lost or repeated |
| `Hyperbolic.Point.Dual` | geometry/hyperbolic.py:171-172 | the definition of `point.dual()`: the line with the same coordinates; `Hyperbolic.DualInvolutive` states its properties |
| `Hyperbolic.Line.Dual` | geometry/hyperbolic.py:199-200 | the definition of `line.dual()`: the point with the same coordinates; `Hyperbolic.DualInvolutive` states its properties |
| `Hyperbolic.Point.IsPerpendicular` | geometry/hyperbolic.py:168-169 | the definition of `point.isperpendicular(other)`: `other` is incident with this point's dual line; `Hyperbolic.PerpendicularSymmetric` states its properties |
| `Hyperbolic.Line.IsPerpendicular` | geometry/hyperbolic.py:196-197 | the definition of `line.isperpendicular(other)`: this line's dual point is incident with `other`; `Hyperbolic.PerpendicularSymmetric` states its symmetry |
| `Hyperbolic.DualInvolutive` | geometry/hyperbolic.py:171-172 | `dual` keeps the coordinates and swaps points and lines, so taking it twice is the identity |
| `Hyperbolic.PerpendicularSymmetric` | geometry/hyperbolic.py:168-169 | point perpendicularity and line perpendicularity (lines 196-197) are symmetric, and point perpendicularity is preserved by duality |
| `Hyperbolic.Join` | geometry/hyperbolic.py:70-71 | the definition of `join(*points)`: the line whose coordinates are the signed first-row cofactors of `([], ) + points`; `Hyperbolic.JoinCoords` and `Hyperbolic.JoinIncident` state its properties |
| `Hyperbolic.Meet` | geometry/hyperbolic.py:73-74 | the definition of `meet(*lines)`: the point computed from the lines as `join` computes a line from points |
| `Hyperbolic.MeetIsJoin` | geometry/hyperbolic.py:70-74 | `meet` computes exactly the coordinates `join` computes from the duals of the lines |
| `Hyperbolic.CofactorsCross` | geometry/hyperbolic.py:17-18 | the first-row cofactors of `([], a, b)` are the cross product of `a` and `b` |
| `Hyperbolic.TripleZero` | geometry/hyperbolic.py:70-71 | each of `a` and `b` is orthogonal to the cross product `a × b` |
| `Hyperbolic.CrossIncident` | geometry/hyperbolic.py:70-71 | each of `a` and `b` is incident with the signed cross product of the two |
| `Hyperbolic.JoinCoords` | geometry/hyperbolic.py:70-71 | the join of two points of the plane has the signed cross product as its coordinates |
| `Hyperbolic.JoinIncident` | geometry/hyperbolic.py:70-71 | in the plane, the join of two points is a line incident with both of them |
| `Hyperbolic.MeetIncident` | geometry/hyperbolic.py:73-74 | in the plane, the meet of two lines is a point incident with both of them |
| `Hyperbolic.JoinAntisymmetric` | geometry/hyperbolic.py:98-101 | swapping the two points gives the negated line, and joining a point with itself gives the zero vector |

## Left out

- Randomness: `random.random()` in `sample`, `estimate` and `rwalk` becomes an
  argument. `Markov.Pick` takes the uniform draw `u`, and `Markov.RandomWalk`
  takes the sequence of draws. `sample` (an endless generator of picks) and
  `estimate` (the mean of `N` picks) are not modelled apart from `pick`. The
  statistical doctests of `markov.py` (Monte Carlo estimates within a range)
  are not claims about any fixed input, so they are not stated.
- `irange` (an endless counter) and generator laziness are not modelled. Every
  generator is collected into a finite sequence.
- Floating point: costs, probabilities, allocation stocks and the result of
  `roulette` (whose `/ 2.` gives a float) are exact reals.
  Python's `inf * 0` is NaN, but `ExtReals.Scale` gives `0`. A disturbance of
  probability `0` therefore contributes nothing to `Decision.Expected`. Probabilities
  are non-negative reals (`Decision.Prob`).
- `Decision.MDP.constructor`: the source's `step` and `cost` are methods that the
  doctest overrides on the instance. Here they are constructor arguments.
- The keys of `W(t, x, u)` are `Option<int>`, with `None` the key of the default
  point mass.
- The inventory doctests of `decision.py` (50 stages, float costs) and of
  `markov.py` are not stated. Their arithmetic would have to be evaluated
  stage by stage; the shortest-path doctest of `bellman.py` is proved instead.
- Dict order: the model takes a dict's keys in insertion order. Python 2 dicts,
  which the source targets, enumerate their keys in hash order. So the order of
  `cumdist(pi)`, of the result of `propf`, and with them which key `pick` and
  `rwalk` return for a given draw, follow insertion order here, which Python 2
  does not guarantee. Sums over a dict do not depend on the order, so `dot`,
  `expected`, `probability`, `total_variation` and the masses are unaffected.
- `Hyperbolic.Trace`: requires every row to reach the diagonal. `trace` of a
  matrix with a shorter row raises `IndexError`, which the model does not
  represent.
- `Hyperbolic.Join`: requires each point to have one more coordinate than there
  are points, and `Hyperbolic.Meet` the same of lines. On other sizes `join` and
  `meet` index ragged matrices with Python's lenient slicing; that is not
  modelled.
- `Recurrence.Hanoi`: takes a natural `n`. `hanoi(-1)` is the float `-0.5`,
  and `Recurrence.HanoiR` leaves out negative `n` too, where `hanoi_r`
  recurses without end.
- `Integers.NthRoot`: takes a natural exponent `n`. With a negative exponent the
  source compares float powers, returning `0` for `N == 0` and nothing for
  `N >= 1`; that case is not modelled.
- `SternBrocot.Farey`: `farey(N)` for `N < 1` recurses without end in the source.
  The model requires `N >= 1`.
- `SternBrocot.BrocotStern`: `brocot_stern(m, n)` loops forever unless `m`
  and `n` are both positive or equal. The model requires that.
- `Allocation.Allocator.FSpec`: `f(N)` with a negative `N` recurses without end
  in the source, so `N` is a `nat`. The stock `x` and the allocations are exact
  reals. `xrange(int(x + 1))` is taken as the integers `0 .. x.Floor` for
  `x >= 0`, and as empty for `x < 0`, where Python's range is empty as well.
- `NumberTheory.GcdCert`: the source loop may run forever (see Findings), so the
  model runs for a given number of rounds and reports `OutOfFuel` when they are
  used up.
- `Hyperbolic.Cofactors`: the row argument `i` of `cofactors(A, i)` is never
  used by the source, which always expands along row 0. The model has no such
  argument.
- `Hyperbolic.Det`: Python's negative indices and lenient slicing are excluded
  by the preconditions (a column index in range and a square matrix).
  `determinant` of a ragged matrix is not modelled.
- `Hyperbolic.Det3`: independence of the column is proved for 3×3 matrices
  only, the size `join` and `meet` use in the plane.
- `Hyperbolic.JoinIncident`: incidence of `join` and `meet` is proved for two
  points or lines with three coordinates (the projective plane) only. The source
  itself marks `signed` as correct only there.
- Not modelled from `hyperbolic.py`:
  - `ratio`, `cross_ratio`, `quadrance` and `spread`: `Fraction` division, and
    `ratio` reads only the first coordinates;
  - `null`, `side`, `vertex` and `couple`, which only build tuples;
  - `div`;
  - the `matrix` operators other than `__neg__` (`Mul` by `-1`) and scalar
    `__mul__` (`Scaled`), which dispatch on the shapes of their arguments;
  - `vector.projective`, which is not valid syntax for a method;
  - `conjugate`, `altitude`, `parallel`, `base` and `isdual` (which calls an
    undefined name);
  - `polar` and `pole`, which are aliases of `dual`;
  - the `triangle` and `trilateral` classes.

## Findings

| source | as written | input that shows it | evidently intended | confidence | as-written member | corrected member |
|---|---|---|---|---|---|---|
| concrete_mathematics/numbertheory.py:18 | `gcd_cert` updates the coefficients with the fixed quotient `n // m` of the inputs on every round | `gcd_cert(5, 3)`: the triples `(0, 1, 3)`, `(1, 0, 5)`, `(0, 1, 3)`, ... repeat forever, and `d` never divides both `5` and `3` | the extended Euclidean algorithm, where each round uses the quotient of the two latest remainders and the loop stops at `gcd(m, n)` | not executed | `NumberTheory.GcdCertNeverStopsOn5And3` | `NumberTheory.GcdCertCorrected` |
