/**
 * Finite calculus of section 2.6 of Concrete Mathematics: the difference and
 * shift operators and the falling and rising factorial powers, including the
 * negative powers defined through reciprocals.
 */
module Sums {
  import opened Wrappers

  /** The difference operator: `delta(f)(x) = f(x + 1) - f(x)`. */
  function Delta(f: int -> int): int -> int
  {
    x => Difference(f, x)
  }

  /** The shift operator: `shift(f)(x) = f(x + 1)`. */
  function Shift(f: int -> int): int -> int
  {
    x => Next(f, x)
  }

  // The lambdas above go through these two so that the solver does not chase
  // `f(x + 1)`, `f(x + 2)`, ... without end.
  function Difference(f: int -> int, x: int): int
  {
    f(x + 1) - f(x)
  }

  function Next(f: int -> int, x: int): int
  {
    f(x + 1)
  }

  /** `reduce(mul, s, 1)`: the product of `s`, folded from the left. */
  function Product(s: seq<int>): int
  {
    if s == [] then 1 else Product(s[..|s| - 1]) * s[|s| - 1]
  }

  /** `xrange(x, x - m, -1)`: the `m` integers counting down from `x`. */
  function CountDown(x: int, m: nat): (r: seq<int>)
  {
    seq(m, i => x - i)
  }

  /** `xrange(x, x + m)`: the `m` integers counting up from `x`. */
  function CountUp(x: int, m: nat): (r: seq<int>)
  {
    seq(m, i => x + i)
  }

  /** Falling power with a non-negative exponent: `x (x-1) ... (x-m+1)`. */
  function FallingNat(x: int, m: nat): int
  {
    Product(CountDown(x, m))
  }

  /** Rising power with a non-negative exponent: `x (x+1) ... (x+m-1)`. */
  function RisingNat(x: int, m: nat): int
  {
    Product(CountUp(x, m))
  }

  /**
   * `falling(x, m)`. A negative exponent gives the reciprocal `1 / falling(x - m, -m)`
   * (a `Fraction`), which fails with a division by zero exactly when one of the
   * factors `x + 1, ..., x - m` is zero.
   */
  function Falling(x: int, m: int): (r: Option<real>)
    ensures r.None? <==> m < 0 && x + 1 <= 0 <= x - m
    ensures m >= 0 ==> r == Some(FallingNat(x, m) as real)
    ensures m < 0 && r.Some? ==> r.value * FallingNat(x - m, -m) as real == 1.0
  {
    if m >= 0 then
      Some(FallingNat(x, m) as real)
    else
      var d := FallingNat(x - m, -m);
      FallingZeroIff(x - m, -m);
      if d == 0 then None else Some(1.0 / d as real)
  }

  /**
   * `rising(x, m)`. A negative exponent gives `1 / rising(x + m, -m)`, which fails
   * exactly when one of the factors `x + m, ..., x - 1` is zero.
   */
  function Rising(x: int, m: int): (r: Option<real>)
    ensures r.None? <==> m < 0 && x + m <= 0 <= x - 1
    ensures m >= 0 ==> r == Some(RisingNat(x, m) as real)
    ensures m < 0 && r.Some? ==> r.value * RisingNat(x + m, -m) as real == 1.0
  {
    if m >= 0 then
      Some(RisingNat(x, m) as real)
    else
      var d := RisingNat(x + m, -m);
      RisingZeroIff(x + m, -m);
      if d == 0 then None else Some(1.0 / d as real)
  }

  /** A product is zero exactly when one of its factors is. */
  lemma {:induction false} ProductZeroIff(s: seq<int>)
    ensures Product(s) == 0 <==> 0 in s
  {
    if s != [] {
      ProductZeroIff(s[..|s| - 1]);
      assert s == s[..|s| - 1] + [s[|s| - 1]];
    }
  }

  lemma FallingZeroIff(x: int, m: nat)
    ensures FallingNat(x, m) == 0 <==> x - m + 1 <= 0 <= x
  {
    ProductZeroIff(CountDown(x, m));
    if x - m + 1 <= 0 <= x {
      assert CountDown(x, m)[x] == 0;
    }
  }

  lemma RisingZeroIff(x: int, m: nat)
    ensures RisingNat(x, m) == 0 <==> x <= 0 <= x + m - 1
  {
    ProductZeroIff(CountUp(x, m));
    if x <= 0 <= x + m - 1 {
      assert CountUp(x, m)[-x] == 0;
    }
  }

  /** The empty product: `falling(x, 0) = rising(x, 0) = 1`. */
  lemma ZerothPowers(x: int)
    ensures Falling(x, 0) == Some(1.0) && Rising(x, 0) == Some(1.0)
  {
    assert CountDown(x, 0) == [] && CountUp(x, 0) == [];
  }

  /** One more factor at the low end: `falling(x, m+1) = falling(x, m) (x - m)`. */
  lemma FallingStep(x: int, m: nat)
    ensures FallingNat(x, m + 1) == FallingNat(x, m) * (x - m)
  {
    assert CountDown(x, m + 1)[..m] == CountDown(x, m);
  }

  /** One more factor at the high end: `rising(x, m+1) = rising(x, m) (x + m)`. */
  lemma RisingStep(x: int, m: nat)
    ensures RisingNat(x, m + 1) == RisingNat(x, m) * (x + m)
  {
    assert CountUp(x, m + 1)[..m] == CountUp(x, m);
  }

  /** Peeling the first factor: `falling(x, m+1) = x falling(x - 1, m)`. */
  lemma {:induction false} FallingFirstFactor(x: int, m: nat)
    ensures FallingNat(x, m + 1) == x * FallingNat(x - 1, m)
  {
    FallingStep(x, m);
    if m > 0 {
      FallingFirstFactor(x, m - 1);
      FallingStep(x - 1, m - 1);
    } else {
      assert CountDown(x - 1, 0) == [];
      assert CountDown(x, 0) == [];
    }
  }

  /** `x^(m+n) = x^m (x - m)^n` for falling powers with non-negative exponents. */
  lemma {:induction false} FallingExponentLaw(x: int, m: nat, n: nat)
    ensures FallingNat(x, m + n) == FallingNat(x, m) * FallingNat(x - m, n)
  {
    if n == 0 {
      assert CountDown(x - m, 0) == [];
    } else {
      FallingExponentLaw(x, m, n - 1);
      FallingStep(x, m + n - 1);
      FallingStep(x - m, n - 1);
      var a, b, c := FallingNat(x, m), FallingNat(x - m, n - 1), x - m - (n - 1);
      assert a * b * c == a * (b * c);
    }
  }

  /** A rising power is the falling power read from its other end. */
  lemma {:induction false} RisingIsFallingFromTop(x: int, m: nat)
    ensures RisingNat(x, m) == FallingNat(x + m - 1, m)
  {
    if m == 0 {
      assert CountUp(x, 0) == [] && CountDown(x - 1, 0) == [];
    } else {
      RisingIsFallingFromTop(x, m - 1);
      RisingStep(x, m - 1);
      FallingFirstFactor(x + m - 1, m - 1);
    }
  }

  /** For integers `0 <= x < m` one factor of `falling(x, m)` is zero. */
  lemma FallingVanishes(x: int, m: nat)
    requires 0 <= x < m
    ensures Falling(x, m) == Some(0.0)
  {
    FallingZeroIff(x, m);
  }

  /** `delta(f)(x) = shift(f)(x) - f(x)`. */
  lemma DeltaIsShiftMinusIdentity(f: int -> int, x: int)
    ensures Delta(f)(x) == Shift(f)(x) - f(x)
  {
  }

  /** The finite-calculus power rule: `delta(x^m) = m x^(m-1)` for falling powers. */
  lemma DeltaOfFalling(m: nat, x: int)
    requires m >= 1
    ensures Delta(y => FallingNat(y, m))(x) == m * FallingNat(x, m - 1)
  {
    FallingFirstFactor(x + 1, m - 1);
    FallingStep(x, m - 1);
  }

  /** The companion rule for rising powers: `delta(x^m) = m (x+1)^(m-1)`. */
  lemma DeltaOfRising(m: nat, x: int)
    requires m >= 1
    ensures Delta(y => RisingNat(y, m))(x) == m * RisingNat(x + 1, m - 1)
  {
    RisingIsFallingFromTop(x + 1, m);
    RisingIsFallingFromTop(x, m);
    RisingIsFallingFromTop(x + 1, m - 1);
    DeltaOfFalling(m, x + m - 1);
  }
}
