/**
 * Integer roots by linear search and the "roulette" count of chapter 3 of
 * Concrete Mathematics: how many `1 <= n <= N` are divisible by the integer
 * cube root of `n`, as a sum and in closed form.
 */
module Integers {
  import opened Wrappers
  import opened Arith

  function Pow(b: int, e: nat): int
  {
    if e == 0 then 1 else b * Pow(b, e - 1)
  }

  /**
   * `nth_root(N, n)`: the first `i` in `0 .. N` with `(i + 1)^n > N`, or `None` when
   * the search range is exhausted (always so when `N` is negative).
   */
  function NthRoot(N: int, n: nat): (r: Option<nat>)
    ensures N < 0 ==> r == None
    ensures r.Some? ==> r.value <= N
    ensures N >= 0 && n >= 1 ==> r.Some? && Pow(r.value, n) <= N < Pow(r.value + 1, n)
    ensures n == 0 ==> (r.Some? <==> N == 0)
  {
    SearchFromZero(N, n);
    Search(N, n, 0)
  }

  lemma SearchFromZero(N: int, n: nat)
    ensures var r := Search(N, n, 0);
      && (N >= 0 && n >= 1 ==> r.Some? && Pow(r.value, n) <= N)
      && (n == 0 ==> (r.Some? <==> N == 0))
  {
    var r := Search(N, n, 0);
    if N >= 0 && n >= 1 {
      PowAboveBase(N + 1, n);
      SearchReachesTop(N, n, 0);
      if r.Some? && r.value > 0 {
        assert Undershoots(N, n, r.value - 1);
      }
      if r.Some? && r.value == 0 {
        PowZero(n);
      }
    }
    if n == 0 && N > 0 {
      assert Undershoots(N, n, 0);
    }
  }

  /** The loop of `nth_root` from candidate `i` on, as a recursion. */
  function Search(N: int, n: nat, i: nat): (r: Option<nat>)
    ensures r.Some? ==> i <= r.value <= N && Pow(r.value + 1, n) > N
    ensures r.Some? ==> forall j :: i <= j < r.value ==> Undershoots(N, n, j)
    ensures r.None? ==> forall j :: i <= j <= N ==> Undershoots(N, n, j)
    decreases N + 1 - i
  {
    if i >= N + 1 then None
    else if Pow(i + 1, n) > N then Some(i)
    else Search(N, n, i + 1)
  }

  lemma {:induction false} SearchReachesTop(N: int, n: nat, i: nat)
    requires i <= N + 1 && Pow(N + 1, n) > N
    ensures i <= N ==> Search(N, n, i).Some?
    decreases N + 1 - i
  {
    if i < N {
      SearchReachesTop(N, n, i + 1);
    }
  }

  /** Candidate `j` is still too small: `(j + 1)^n <= N`. */
  predicate Undershoots(N: int, n: nat, j: int)
  {
    Pow(j + 1, n) <= N
  }

  lemma {:induction false} PowZero(n: nat)
    requires n >= 1
    ensures Pow(0, n) == 0
  {
  }

  lemma {:induction false} PowAboveBase(b: int, n: nat)
    requires b >= 1 && n >= 1
    ensures Pow(b, n) >= b
  {
    if n > 1 {
      PowAboveBase(b, n - 1);
      assert b * Pow(b, n - 1) >= b * 1;
    }
  }

  lemma {:induction false} PowMonotone(a: int, b: int, n: nat)
    requires 0 <= a <= b
    ensures 0 <= Pow(a, n) <= Pow(b, n)
  {
    if n > 0 {
      PowMonotone(a, b, n - 1);
      MulMonotone(a, b, Pow(a, n - 1), Pow(b, n - 1));
    }
  }

  lemma MulMonotone(a: int, b: int, x: int, y: int)
    requires 0 <= a <= b && 0 <= x <= y
    ensures 0 <= a * x <= b * y
  {
    assert a * x <= b * x;
  }

  /** The root is the only `i >= 0` with `i^n <= N < (i + 1)^n`. */
  lemma NthRootUnique(N: int, n: nat, i: int)
    requires N >= 0 && n >= 1
    requires 0 <= i && Pow(i, n) <= N < Pow(i + 1, n)
    ensures NthRoot(N, n) == Some(i)
  {
    var k := NthRoot(N, n).value;
    if i < k {
      PowMonotone(i + 1, k, n);
    } else if k < i {
      PowMonotone(k + 1, i, n);
    }
  }

  /** `sum(3 * n + 4 for n in xrange(1, K))`. */
  function BlockSum(K: int): int
    decreases K
  {
    if K <= 1 then 0 else BlockSum(K - 1) + 3 * (K - 1) + 4
  }

  /**
   * `roulette_i(N)`: the blocks `k^3 <= n < (k+1)^3` for `k < K` contribute `3k + 4`
   * multiples of `k` each, the last block `N // K - K^2 + 1`. With `K = 0` the
   * floor division fails and with `K = None` the range does, so `N < 1` is an error.
   */
  function RouletteI(N: int): Option<int>
  {
    match NthRoot(N, 3)
    case Some(K) => if K == 0 then None else Some(BlockSum(K) + N / K - K * K + 1)
    case None => None
  }

  /** `roulette(N)`: the closed form `(K^2 + 5K) / 2 - 3 + N // K`, on exact reals. */
  function Roulette(N: int): Option<real>
  {
    match NthRoot(N, 3)
    case Some(K) => if K == 0 then None else Some((K * K + 5 * K) as real / 2.0 - 3.0 + (N / K) as real)
    case None => None
  }

  lemma {:induction false} BlockSumClosedForm(K: int)
    requires K >= 1
    ensures 2 * BlockSum(K) == 3 * K * K + 5 * K - 8
  {
    if K > 1 {
      BlockSumClosedForm(K - 1);
    }
  }

  /** The sum and the closed form agree, and both fail exactly when `N < 1`. */
  lemma RouletteClosedForm(N: int)
    ensures RouletteI(N).Some? <==> N >= 1
    ensures Roulette(N).Some? <==> N >= 1
    ensures N >= 1 ==> RouletteI(N).value as real == Roulette(N).value
  {
    if N >= 1 {
      var K := NthRoot(N, 3).value;
      BlockSumClosedForm(K);
      RouletteArith(BlockSum(K), K, N / K);
    }
  }

  lemma RouletteArith(B: int, K: int, q: int)
    requires 2 * B == 3 * K * K + 5 * K - 8
    ensures (B + q - K * K + 1) as real == (K * K + 5 * K) as real / 2.0 - 3.0 + q as real
  {
  }

  lemma RouletteAtOne()
    ensures RouletteI(1) == Some(1) && Roulette(1) == Some(1.0)
  {
    NthRootUnique(1, 3, 1);
  }

  /**
   * The quantity the roulette exercise asks for: how many `1 <= n <= N` are
   * divisible by their integer cube root.
   */
  function RouletteCount(N: int): nat
    decreases N
  {
    if N < 1 then 0
    else
      var K := NthRoot(N, 3).value;
      RouletteCount(N - 1) + (if K != 0 && N % K == 0 then 1 else 0)
  }

  /** Moving from `N - 1` to `N` raises `N // K` by one exactly when `K` divides `N`. */
  lemma FloorDivStep(N: int, K: int)
    requires K > 0
    ensures N / K - (N - 1) / K == if N % K == 0 then 1 else 0
  {
    var q, r := (N - 1) / K, (N - 1) % K;
    if r + 1 < K {
      DivModUnique(N, K, q, r + 1);
    } else {
      DivModUnique(N, K, q + 1, 0);
    }
  }

  lemma CubeIsPow(b: int)
    ensures Pow(b, 3) == b * b * b
  {
    assert Pow(b, 1) == b;
    assert Pow(b, 2) == b * b;
    assert b * (b * b) == b * b * b;
  }

  lemma CubeStrictlyMonotone(a: int, b: int)
    requires 0 <= a < b
    ensures a * a * a < b * b * b
  {
    assert a * a <= a * b <= b * b;
    assert a * a * a <= a * b * b;
    assert a * b * b < b * b * b;
  }

  /**
   * The cube roots of `N - 1` and `N` are equal, except when `N` is a perfect cube,
   * where the root of `N` is one more.
   */
  lemma RootStep(N: int)
    requires N >= 2
    ensures var K0, K := NthRoot(N - 1, 3).value, NthRoot(N, 3).value;
      K == K0 || (K == K0 + 1 && N == K * K * K)
  {
    var K0, K := NthRoot(N - 1, 3).value, NthRoot(N, 3).value;
    CubeIsPow(K0); CubeIsPow(K0 + 1); CubeIsPow(K); CubeIsPow(K + 1);
    if K < K0 {
      CubeStrictlyMonotone(K, K0);
      if K + 1 < K0 {
        CubeStrictlyMonotone(K + 1, K0);
      }
    } else if K > K0 {
      if K0 + 1 < K {
        CubeStrictlyMonotone(K0 + 1, K);
      }
    }
  }

  /** Exact division of a cube: `K^3 // K = K^2` and `(K^3 - 1) // (K - 1) = K^2 + K + 1`. */
  lemma CubeQuotients(K: int)
    requires K >= 2
    ensures (K * K * K) / K == K * K
    ensures (K * K * K - 1) / (K - 1) == K * K + K + 1
  {
    DivModUnique(K * K * K, K, K * K, 0);
    assert K * K * K - 1 == (K - 1) * (K * K + K + 1);
    DivModUnique(K * K * K - 1, K - 1, K * K + K + 1, 0);
  }

  /** `roulette_i` on a positive argument, with its cube root named. */
  lemma RouletteIAt(N: int) returns (K: int)
    requires N >= 1
    ensures K == NthRoot(N, 3).value && K >= 1
    ensures RouletteI(N) == Some(BlockSum(K) + N / K - K * K + 1)
  {
    K := NthRoot(N, 3).value;
    RouletteClosedForm(N);
  }

  /** From `N - 1` to `N`, `roulette_i` grows by one exactly when the cube root divides `N`. */
  lemma RouletteIStep(N: int)
    requires N >= 2
    ensures RouletteI(N).Some? && RouletteI(N - 1).Some?
    ensures var K := NthRoot(N, 3).value;
      RouletteI(N).value == RouletteI(N - 1).value + (if N % K == 0 then 1 else 0)
  {
    var K := RouletteIAt(N);
    var K0 := RouletteIAt(N - 1);
    RootStep(N);
    if K == K0 {
      FloorDivStep(N, K);
    } else {
      CubeStep(N, K);
    }
  }

  /** At a cube `N = K^3` the last block of `N - 1` closes and a new block of `K` opens, holding `N`. */
  lemma CubeStep(N: int, K: int)
    requires K >= 2 && N == K * K * K
    ensures N % K == 0
    ensures BlockSum(K) + N / K - K * K + 1 == BlockSum(K - 1) + (N - 1) / (K - 1) - (K - 1) * (K - 1) + 1 + 1
  {
    CubeQuotients(K);
    DivModUnique(N, K, K * K, 0);
    CubeStepArith(K, BlockSum(K), BlockSum(K - 1), K * K, (K - 1) * (K - 1));
  }

  lemma CubeStepArith(K: int, B: int, B0: int, S: int, S0: int)
    requires B == B0 + 3 * (K - 1) + 4 && S == K * K && S0 == (K - 1) * (K - 1)
    ensures B + S - S + 1 == B0 + (S + K + 1) - S0 + 1 + 1
  {
  }

  /** `roulette_i` counts exactly the `n <= N` divisible by their integer cube root. */
  lemma {:induction false} RouletteCounts(N: int)
    requires N >= 1
    ensures RouletteI(N) == Some(RouletteCount(N) as int)
  {
    if N == 1 {
      RouletteAtOne();
    } else {
      RouletteCounts(N - 1);
      RouletteIStep(N);
    }
  }
}
