/**
 * Facts about Euclidean division and divisibility shared by the number-theory
 * models. Dafny's `/` and `%` agree with Python's floor division and modulo
 * whenever the divisor is positive, which is the only case used here.
 */
module Arith {

  /** `d` divides `a`; zero divides only zero. */
  predicate Divides(d: int, a: int)
  {
    if d == 0 then a == 0 else a % d == 0
  }

  /** Quotient and remainder are determined by `x == d * q + r` with `0 <= r < d`. */
  lemma DivModUnique(x: int, d: int, q: int, r: int)
    requires d > 0 && x == d * q + r && 0 <= r < d
    ensures x / d == q && x % d == r
  {
    var q', r' := x / d, x % d;
    assert x == d * q' + r' && 0 <= r' < d;
    var t := q - q';
    assert d * q - d * q' == r' - r;
    MulDistributes(d, q, q');
    assert d * t == r' - r;
    if t >= 1 {
      MulGrows(d, t);
    } else if t <= -1 {
      MulGrows(d, -t);
    }
  }

  lemma MulDistributes(d: int, a: int, b: int)
    ensures d * (a - b) == d * a - d * b
  {
  }

  lemma MulGrows(d: int, t: int)
    requires d > 0 && t >= 1
    ensures d * t >= d
  {
    assert d * t == d * (t - 1) + d;
    assert d * (t - 1) >= 0;
  }

  lemma DividesMultiple(d: int, k: int)
    requires d > 0
    ensures Divides(d, d * k)
  {
    DivModUnique(d * k, d, k, 0);
  }

  lemma DividesQuotient(d: int, a: int)
    requires d > 0 && Divides(d, a)
    ensures a == d * (a / d)
  {
  }

  /** A common divisor of `a` and `b` divides every integer combination of them. */
  lemma DividesCombination(d: int, a: int, b: int, x: int, y: int)
    requires d > 0 && Divides(d, a) && Divides(d, b)
    ensures Divides(d, x * a + y * b)
  {
    var ka, kb := a / d, b / d;
    DividesQuotient(d, a);
    DividesQuotient(d, b);
    assert x * a == d * (x * ka) by {
      assert x * (d * ka) == d * (x * ka);
    }
    assert y * b == d * (y * kb) by {
      assert y * (d * kb) == d * (y * kb);
    }
    assert x * a + y * b == d * (x * ka + y * kb);
    DividesMultiple(d, x * ka + y * kb);
  }

  lemma DividesTransitive(e: int, d: int, n: int)
    requires e > 0 && Divides(e, d) && Divides(d, n)
    ensures Divides(e, n)
  {
    if d != 0 {
      var k := n / d;
      DividesQuotient(e, d);
      assert n == d * k;
      DividesCombination(e, d, 0, k, 0);
      assert k * d == n;
    }
  }

  /** A positive multiple is at least as large as its divisor. */
  lemma DividesBounded(d: int, a: int)
    requires d > 0 && a > 0 && Divides(d, a)
    ensures d <= a
  {
    DividesQuotient(d, a);
    if a / d > 0 {
      MulGrows(d, a / d);
    }
  }

  lemma DividesAntisymmetric(a: int, b: int)
    requires a > 0 && b > 0 && Divides(a, b) && Divides(b, a)
    ensures a == b
  {
    DividesBounded(a, b);
    DividesBounded(b, a);
  }
}
