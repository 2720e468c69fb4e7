/**
 * Rational universal hyperbolic geometry (`geometry/hyperbolic.py`): a little
 * exact linear algebra (the Laplace determinant, minors, cofactors, the trace
 * and the `zip`-based vector arithmetic) and the duality between points and
 * lines of the projective plane: the `join` of points and the `meet` of lines,
 * both by cofactors, `incident`, `dual` and perpendicularity. Coordinates are
 * exact rationals (Python integers or `Fraction`s), modelled as `real`.
 */
module Hyperbolic {
  import ExtReals

  type Vector = seq<real>
  type Matrix = seq<Vector>

  function Min(m: int, n: int): int
  {
    if m <= n then m else n
  }

  /** `sum(xs)`. */
  function Sum(xs: seq<real>): real
  {
    ExtReals.Sum(xs)
  }

  // -------------------------------------------------------------------------
  // Vector arithmetic over `zip`, which stops at the shorter argument

  /** The products `x * y for x, y in zip(X, Y)`. */
  function Products(X: Vector, Y: Vector): (r: Vector)
    ensures |r| == Min(|X|, |Y|)
  {
    seq(Min(|X|, |Y|), i requires 0 <= i < Min(|X|, |Y|) => X[i] * Y[i])
  }

  /** `dot(X, Y)`. */
  function Dot(X: Vector, Y: Vector): real
  {
    Sum(Products(X, Y))
  }

  /** `add(X, Y)`. */
  function Add(X: Vector, Y: Vector): (r: Vector)
    ensures |r| == Min(|X|, |Y|)
  {
    seq(Min(|X|, |Y|), i requires 0 <= i < Min(|X|, |Y|) => X[i] + Y[i])
  }

  /** `sub(X, Y)`. */
  function Sub(X: Vector, Y: Vector): (r: Vector)
    ensures |r| == Min(|X|, |Y|)
  {
    seq(Min(|X|, |Y|), i requires 0 <= i < Min(|X|, |Y|) => X[i] - Y[i])
  }

  /** `mul(X, a)`. */
  function Mul(X: Vector, a: real): (r: Vector)
    ensures |r| == |X|
  {
    seq(|X|, i requires 0 <= i < |X| => X[i] * a)
  }

  /** A sum of terms scaled by `a` is `a` times the sum. */
  lemma {:induction false} SumScaled(r: seq<real>, s: seq<real>, a: real)
    requires |s| == |r| && forall i :: 0 <= i < |r| ==> s[i] == a * r[i]
    ensures Sum(s) == a * Sum(r)
    decreases |r|
  {
    if |r| > 0 {
      SumScaled(r[1..], s[1..], a);
    }
  }

  /** A sum of pointwise sums is the sum of the two sums. */
  lemma {:induction false} SumPointwise(r: seq<real>, s: seq<real>, t: seq<real>)
    requires |r| == |s| == |t| && forall i :: 0 <= i < |t| ==> t[i] == r[i] + s[i]
    ensures Sum(t) == Sum(r) + Sum(s)
    decreases |t|
  {
    if |t| > 0 {
      SumPointwise(r[1..], s[1..], t[1..]);
    }
  }

  /** Subtracting `Y` undoes adding it, for an `X` no longer than `Y`. */
  lemma AddSubInverse(X: Vector, Y: Vector)
    requires |X| <= |Y|
    ensures Sub(Add(X, Y), Y) == X
  {
  }

  /** `dot` is symmetric. */
  lemma DotSymmetric(X: Vector, Y: Vector)
    ensures Dot(X, Y) == Dot(Y, X)
  {
    assert Products(X, Y) == Products(Y, X);
  }

  /** `dot` is linear in its first argument: it distributes over `add` and commutes with `mul`. */
  lemma DotLinear(X: Vector, Y: Vector, Z: Vector, a: real)
    requires |X| == |Y| == |Z|
    ensures Dot(Add(X, Y), Z) == Dot(X, Z) + Dot(Y, Z)
    ensures Dot(Mul(X, a), Z) == a * Dot(X, Z)
  {
    SumPointwise(Products(X, Z), Products(Y, Z), Products(Add(X, Y), Z));
    SumScaled(Products(X, Z), Products(Mul(X, a), Z), a);
  }

  // -------------------------------------------------------------------------
  // Signs and incidence

  /** `signed(X)`: the last coordinate negated; the empty sequence stays empty. */
  function Signed(X: Vector): (r: Vector)
    ensures |r| == |X|
  {
    if |X| == 0 then X else X[..|X| - 1] + [-X[|X| - 1]]
  }

  /** Negating the last coordinate twice gives the vector back. */
  lemma SignedInvolutive(X: Vector)
    ensures Signed(Signed(X)) == X
  {
    if |X| > 0 {
      assert Signed(Signed(X))[..|X| - 1] == X[..|X| - 1];
    }
  }

  /** `incident(a, L)`: the signed sum of the products of the coordinates vanishes. */
  predicate Incident(a: Vector, L: Vector)
  {
    Sum(Signed(Products(a, L))) == 0.0
  }

  /** The bilinear form of the hyperbolic plane, `a0 L0 + a1 L1 - a2 L2`. */
  function Form(a: Vector, L: Vector): real
    requires |a| == 3 && |L| == 3
  {
    a[0] * L[0] + a[1] * L[1] - a[2] * L[2]
  }

  /** For 3-vectors, incidence is the vanishing of the form. */
  lemma IncidentForm(a: Vector, L: Vector)
    requires |a| == 3 && |L| == 3
    ensures Incident(a, L) <==> Form(a, L) == 0.0
  {
    var p := Products(a, L);
    assert |p| == 3 && p[0] == a[0] * L[0] && p[1] == a[1] * L[1] && p[2] == a[2] * L[2];
    var s := Signed(p);
    assert s == [p[0], p[1], -p[2]];
    Sum3(s);
  }

  /** A sum of three terms. */
  lemma Sum3(s: seq<real>)
    requires |s| == 3
    ensures Sum(s) == s[0] + s[1] + s[2]
  {
    var t := s[1..];
    var u := t[1..];
    assert u[1..] == [];
    assert ExtReals.Sum(u) == u[0];
    assert ExtReals.Sum(t) == t[0] + ExtReals.Sum(u);
    assert ExtReals.Sum(s) == s[0] + ExtReals.Sum(t);
  }

  /** Incidence does not depend on the order of its arguments. */
  lemma IncidentSymmetric(a: Vector, L: Vector)
    ensures Incident(a, L) <==> Incident(L, a)
  {
    assert Products(a, L) == Products(L, a);
  }

  // -------------------------------------------------------------------------
  // Determinants by Laplace expansion

  /** Every row is as long as the matrix has rows. */
  predicate Square(A: Matrix)
  {
    forall r :: 0 <= r < |A| ==> |A[r]| == |A|
  }

  /** Every row except row `i` is as long as the matrix has rows (`([], a, b)` in `join`). */
  predicate SquareBut(A: Matrix, i: int)
  {
    forall r :: 0 <= r < |A| && r != i ==> |A[r]| == |A|
  }

  /** `s[:k] + s[k + 1:]`. */
  function Without<T>(s: seq<T>, k: int): (r: seq<T>)
    requires 0 <= k < |s|
    ensures |r| == |s| - 1
    ensures forall m :: 0 <= m < |r| ==> r[m] == (if m < k then s[m] else s[m + 1])
  {
    s[..k] + s[k + 1..]
  }

  /** The matrix without row `i` and column `j`, which `minor` takes the determinant of. */
  function Submatrix(A: Matrix, i: int, j: int): (S: Matrix)
    requires 0 <= i < |A| && 0 <= j < |A| && SquareBut(A, i)
    ensures |S| == |A| - 1 && Square(S)
    ensures forall r, c :: 0 <= r < |A| - 1 && 0 <= c < |A| - 1 ==>
      S[r][c] == A[if r < i then r else r + 1][if c < j then c else c + 1]
  {
    var rows := Without(A, i);
    seq(|A| - 1, r requires 0 <= r < |A| - 1 => Without(rows[r], j))
  }

  /**
   * `determinant(A, j)`: the entry of a 1×1 matrix, otherwise the sum of
   * `A[i][j] * cofactor(A, i, j)` down column `j`; 0 for the empty matrix.
   */
  function Det(A: Matrix, j: int): real
    requires Square(A) && (|A| <= 1 || 0 <= j < |A|)
    decreases |A|, 3
  {
    if |A| == 1 then A[0][0] else Expansion(A, j, |A|)
  }

  /** The first `n` terms `A[i][j] * cofactor(A, i, j)` of the expansion, added from the left. */
  function Expansion(A: Matrix, j: int, n: int): real
    requires Square(A) && 0 <= n <= |A| && (n > 0 ==> 0 <= j < |A|)
    decreases |A|, 2, n
  {
    if n == 0 then 0.0 else Expansion(A, j, n - 1) + A[n - 1][j] * Cofactor(A, n - 1, j)
  }

  /** `cofactor(A, i, j)`: the minor, negated when `i + j` is odd. */
  function Cofactor(A: Matrix, i: int, j: int): real
    requires 0 <= i < |A| && 0 <= j < |A| && SquareBut(A, i)
    decreases |A|, 1
  {
    (if (i + j) % 2 == 1 then -1.0 else 1.0) * Minor(A, i, j)
  }

  /** `minor(A, i, j)`: the determinant of `A` without row `i` and column `j`. */
  function Minor(A: Matrix, i: int, j: int): real
    requires 0 <= i < |A| && 0 <= j < |A| && SquareBut(A, i)
    decreases |A|, 0
  {
    Det(Submatrix(A, i, j), 0)
  }

  /** `cofactors(A)`: the cofactors along the first row (the source's row argument is never used). */
  function Cofactors(A: Matrix): (r: Vector)
    requires SquareBut(A, 0)
    ensures |r| == |A|
  {
    seq(|A|, j requires 0 <= j < |A| => Cofactor(A, 0, j))
  }

  /** The 2×2 determinant is `ad - bc`, expanding down either column. */
  lemma Det2(A: Matrix)
    requires Square(A) && |A| == 2
    ensures Det(A, 0) == A[0][0] * A[1][1] - A[0][1] * A[1][0]
    ensures Det(A, 1) == A[0][0] * A[1][1] - A[0][1] * A[1][0]
  {
    Minor2(A, 0, 0);
    Minor2(A, 1, 0);
    Minor2(A, 0, 1);
    Minor2(A, 1, 1);
    assert Det(A, 0) == A[0][0] * Cofactor(A, 0, 0) + A[1][0] * Cofactor(A, 1, 0) by {
      assert Expansion(A, 0, 1) == A[0][0] * Cofactor(A, 0, 0);
    }
    assert Det(A, 1) == A[0][1] * Cofactor(A, 0, 1) + A[1][1] * Cofactor(A, 1, 1) by {
      assert Expansion(A, 1, 1) == A[0][1] * Cofactor(A, 0, 1);
    }
  }

  /** A minor of a 2×2 matrix is the entry in the other row and column. */
  lemma Minor2(A: Matrix, i: int, j: int)
    requires Square(A) && |A| == 2 && 0 <= i < 2 && 0 <= j < 2
    ensures Minor(A, i, j) == A[1 - i][1 - j]
  {
    var S := Submatrix(A, i, j);
    assert S[0][0] == A[1 - i][1 - j];
  }

  /** The rule of Sarrus for a 3×3 matrix. */
  function Sarrus(A: Matrix): real
    requires Square(A) && |A| == 3
  {
    A[0][0] * A[1][1] * A[2][2] + A[0][1] * A[1][2] * A[2][0] + A[0][2] * A[1][0] * A[2][1]
    - A[0][2] * A[1][1] * A[2][0] - A[0][0] * A[1][2] * A[2][1] - A[0][1] * A[1][0] * A[2][2]
  }

  /** The minor of a 3×3 matrix is the 2×2 determinant of the rows and columns other than `i` and `j`. */
  lemma Minor3(A: Matrix, i: int, j: int, r0: int, r1: int, c0: int, c1: int)
    requires Square(A) && |A| == 3 && 0 <= i < 3 && 0 <= j < 3
    requires r0 == (if i == 0 then 1 else 0) && r1 == (if i == 2 then 1 else 2)
    requires c0 == (if j == 0 then 1 else 0) && c1 == (if j == 2 then 1 else 2)
    ensures Minor(A, i, j) == A[r0][c0] * A[r1][c1] - A[r0][c1] * A[r1][c0]
  {
    var S := Submatrix(A, i, j);
    assert S[0][0] == A[r0][c0] && S[0][1] == A[r0][c1];
    assert S[1][0] == A[r1][c0] && S[1][1] == A[r1][c1];
    Det2(S);
    Substitute2(Minor(A, i, j), S[0][0], S[0][1], S[1][0], S[1][1], A[r0][c0], A[r0][c1], A[r1][c0], A[r1][c1]);
  }

  /** `ad - bc` of equal entries is equal. */
  lemma Substitute2(d: real, s00: real, s01: real, s10: real, s11: real, x00: real, x01: real, x10: real, x11: real)
    requires d == s00 * s11 - s01 * s10
    requires s00 == x00 && s01 == x01 && s10 == x10 && s11 == x11
    ensures d == x00 * x11 - x01 * x10
  {
  }

  /** Expanding a 3×3 determinant down any column gives the rule of Sarrus. */
  lemma Det3(A: Matrix, j: int)
    requires Square(A) && |A| == 3 && 0 <= j < 3
    ensures Det(A, j) == Sarrus(A)
  {
    var c0 := if j == 0 then 1 else 0;
    var c1 := if j == 2 then 1 else 2;
    Expansion3(A, j);
    Minor3(A, 0, j, 1, 2, c0, c1);
    Minor3(A, 1, j, 0, 2, c0, c1);
    Minor3(A, 2, j, 0, 1, c0, c1);
    if j == 0 {
      Sarrus0(A, Minor(A, 0, 0), Minor(A, 1, 0), Minor(A, 2, 0));
    } else if j == 1 {
      Sarrus1(A, Minor(A, 0, 1), Minor(A, 1, 1), Minor(A, 2, 1));
    } else {
      Sarrus2(A, Minor(A, 0, 2), Minor(A, 1, 2), Minor(A, 2, 2));
    }
  }

  /** A 3×3 determinant is the sum of the three terms down its column, each with its sign. */
  lemma Expansion3(A: Matrix, j: int)
    requires Square(A) && |A| == 3 && 0 <= j < 3
    ensures j != 1 ==> Det(A, j) == A[0][j] * Minor(A, 0, j) - A[1][j] * Minor(A, 1, j) + A[2][j] * Minor(A, 2, j)
    ensures j == 1 ==> Det(A, j) == -A[0][j] * Minor(A, 0, j) + A[1][j] * Minor(A, 1, j) - A[2][j] * Minor(A, 2, j)
  {
    ExpansionSteps3(A, j);
    if j == 1 {
      CofactorSigns3(A, j, -1.0);
      SignedTerms(Det(A, j), Expansion(A, j, 2), Expansion(A, j, 1), A[0][j], A[1][j], A[2][j],
                  Cofactor(A, 0, j), Cofactor(A, 1, j), Cofactor(A, 2, j), Minor(A, 0, j), Minor(A, 1, j), Minor(A, 2, j), -1.0);
    } else {
      CofactorSigns3(A, j, 1.0);
      SignedTerms(Det(A, j), Expansion(A, j, 2), Expansion(A, j, 1), A[0][j], A[1][j], A[2][j],
                  Cofactor(A, 0, j), Cofactor(A, 1, j), Cofactor(A, 2, j), Minor(A, 0, j), Minor(A, 1, j), Minor(A, 2, j), 1.0);
    }
  }

  /** The expansion of a 3×3 determinant, one term at a time. */
  lemma ExpansionSteps3(A: Matrix, j: int)
    requires Square(A) && |A| == 3 && 0 <= j < 3
    ensures Expansion(A, j, 1) == A[0][j] * Cofactor(A, 0, j)
    ensures Expansion(A, j, 2) == Expansion(A, j, 1) + A[1][j] * Cofactor(A, 1, j)
    ensures Det(A, j) == Expansion(A, j, 2) + A[2][j] * Cofactor(A, 2, j)
  {
  }

  /** Down column `j` of a 3×3 matrix the cofactor signs are `s, -s, s`, where `s` is `-1` for the middle column. */
  lemma CofactorSigns3(A: Matrix, j: int, s: real)
    requires Square(A) && |A| == 3 && 0 <= j < 3 && s == (if j == 1 then -1.0 else 1.0)
    ensures Cofactor(A, 0, j) == s * Minor(A, 0, j)
    ensures Cofactor(A, 1, j) == -s * Minor(A, 1, j)
    ensures Cofactor(A, 2, j) == s * Minor(A, 2, j)
  {
    assert (0 + j) % 2 == (2 + j) % 2 && (1 + j) % 2 != (0 + j) % 2;
  }

  /** Closing step of `Expansion3`: three terms added from the left, with signs `s, -s, s` for `s = 1` or `s = -1`. */
  lemma SignedTerms(d: real, e2: real, e1: real, a0: real, a1: real, a2: real, c0: real, c1: real, c2: real,
                    m0: real, m1: real, m2: real, s: real)
    requires d == e2 + a2 * c2 && e2 == e1 + a1 * c1 && e1 == a0 * c0
    requires c0 == s * m0 && c1 == -s * m1 && c2 == s * m2
    requires s == 1.0 || s == -1.0
    ensures s == 1.0 ==> d == a0 * m0 - a1 * m1 + a2 * m2
    ensures s == -1.0 ==> d == -a0 * m0 + a1 * m1 - a2 * m2
  {
  }

  lemma Sarrus0(A: Matrix, m0: real, m1: real, m2: real)
    requires Square(A) && |A| == 3
    requires m0 == A[1][1] * A[2][2] - A[1][2] * A[2][1]
    requires m1 == A[0][1] * A[2][2] - A[0][2] * A[2][1]
    requires m2 == A[0][1] * A[1][2] - A[0][2] * A[1][1]
    ensures A[0][0] * m0 - A[1][0] * m1 + A[2][0] * m2 == Sarrus(A)
  {
  }

  lemma Sarrus1(A: Matrix, m0: real, m1: real, m2: real)
    requires Square(A) && |A| == 3
    requires m0 == A[1][0] * A[2][2] - A[1][2] * A[2][0]
    requires m1 == A[0][0] * A[2][2] - A[0][2] * A[2][0]
    requires m2 == A[0][0] * A[1][2] - A[0][2] * A[1][0]
    ensures -A[0][1] * m0 + A[1][1] * m1 - A[2][1] * m2 == Sarrus(A)
  {
  }

  lemma Sarrus2(A: Matrix, m0: real, m1: real, m2: real)
    requires Square(A) && |A| == 3
    requires m0 == A[1][0] * A[2][1] - A[1][1] * A[2][0]
    requires m1 == A[0][0] * A[2][1] - A[0][1] * A[2][0]
    requires m2 == A[0][0] * A[1][1] - A[0][1] * A[1][0]
    ensures A[0][2] * m0 - A[1][2] * m1 + A[2][2] * m2 == Sarrus(A)
  {
  }

  /** The `n`×`n` identity matrix, the matrix of the laws of `determinant` and `trace` below. */
  function Identity(n: nat): (r: Matrix)
    ensures |r| == n && Square(r)
  {
    seq(n, i requires 0 <= i < n => seq(n, k requires 0 <= k < n => if i == k then 1.0 else 0.0))
  }

  /** Only the first term of an expansion down a column that is zero below the first row survives. */
  lemma {:induction false} ExpansionFirst(A: Matrix, j: int, n: int)
    requires Square(A) && 1 <= n <= |A| && 0 <= j < |A|
    requires forall i :: 1 <= i < |A| ==> A[i][j] == 0.0
    ensures Expansion(A, j, n) == A[0][j] * Cofactor(A, 0, j)
    decreases n
  {
    if n > 1 {
      ExpansionFirst(A, j, n - 1);
      assert A[n - 1][j] == 0.0;
    }
  }

  /** The determinant of the identity matrix is 1. */
  lemma {:induction false} DetIdentity(n: nat)
    requires n >= 1
    ensures Det(Identity(n), 0) == 1.0
    decreases n
  {
    if n > 1 {
      var I := Identity(n);
      ExpansionFirst(I, 0, n);
      var S := Submatrix(I, 0, 0);
      var I' := Identity(n - 1);
      forall r | 0 <= r < n - 1
        ensures S[r] == I'[r]
      {
        forall c | 0 <= c < n - 1
          ensures S[r][c] == I'[r][c]
        {
          assert S[r][c] == I[r + 1][c + 1];
        }
      }
      assert S == I';
      DetIdentity(n - 1);
    }
  }

  // -------------------------------------------------------------------------
  // Trace

  /** The diagonal exists: row `i` has an entry at column `i`. */
  predicate HasDiagonal(A: Matrix)
  {
    forall i :: 0 <= i < |A| ==> i < |A[i]|
  }

  function Diagonal(A: Matrix): (r: Vector)
    requires HasDiagonal(A)
    ensures |r| == |A|
  {
    seq(|A|, i requires 0 <= i < |A| => A[i][i])
  }

  /** `trace(A)`. */
  function Trace(A: Matrix): real
    requires HasDiagonal(A)
  {
    Sum(Diagonal(A))
  }

  /** `A * a` for a number `a`: every row scaled. */
  function Scaled(A: Matrix, a: real): (r: Matrix)
    ensures |r| == |A| && forall i :: 0 <= i < |A| ==> |r[i]| == |A[i]|
  {
    seq(|A|, i requires 0 <= i < |A| => Mul(A[i], a))
  }

  /** The trace of the `n`×`n` identity is `n`, and the trace commutes with scaling. */
  lemma TraceLaws(n: nat, A: Matrix, a: real)
    requires HasDiagonal(A)
    ensures Trace(Identity(n)) == n as real
    ensures HasDiagonal(Scaled(A, a)) && Trace(Scaled(A, a)) == a * Trace(A)
  {
    SumOnes(Diagonal(Identity(n)));
    SumScaled(Diagonal(A), Diagonal(Scaled(A, a)), a);
  }

  lemma {:induction false} SumOnes(s: seq<real>)
    requires forall i :: 0 <= i < |s| ==> s[i] == 1.0
    ensures Sum(s) == |s| as real
    decreases |s|
  {
    if |s| > 0 {
      SumOnes(s[1..]);
    }
  }

  // -------------------------------------------------------------------------
  // `partitions`

  /** `partitions(s)`: each element paired with the sequence of the others, in index order. */
  function Partitions<T>(s: seq<T>): (r: seq<(T, seq<T>)>)
    ensures |r| == |s|
  {
    seq(|s|, i requires 0 <= i < |s| => (s[i], Without(s, i)))
  }

  /** Putting the `i`-th element back at index `i` of the others gives `s`: nothing is lost or repeated. */
  lemma PartitionsRebuild<T>(s: seq<T>, i: int)
    requires 0 <= i < |s|
    ensures Partitions(s)[i].1[..i] + [Partitions(s)[i].0] + Partitions(s)[i].1[i..] == s
    ensures multiset(Partitions(s)[i].1) + multiset{Partitions(s)[i].0} == multiset(s)
  {
    var rest := Without(s, i);
    assert rest[..i] == s[..i] && rest[i..] == s[i + 1..];
    assert s == s[..i] + [s[i]] + s[i + 1..];
  }

  // -------------------------------------------------------------------------
  // Points, lines, join and meet

  /** A point of the projective plane, given by its coordinates. */
  datatype Point = Point(coords: Vector)
  {
    /** `point.dual()`: the line with the same coordinates (its polar). */
    function Dual(): Line
    {
      Line(coords)
    }

    /** `point.isperpendicular(other)`: `other` lies on this point's dual line. */
    predicate IsPerpendicular(other: Point)
    {
      Incident(other.coords, Dual().coords)
    }
  }

  /** A line of the projective plane, given by its coordinates. */
  datatype Line = Line(coords: Vector)
  {
    /** `line.dual()`: the point with the same coordinates (its pole). */
    function Dual(): Point
    {
      Point(coords)
    }

    /** `line.isperpendicular(other)`: this line's dual point lies on `other`. */
    predicate IsPerpendicular(other: Line)
    {
      Incident(Dual().coords, other.coords)
    }
  }

  /** Duality keeps coordinates and swaps the kind, so taking it twice is the identity. */
  lemma DualInvolutive(a: Point, L: Line)
    ensures a.Dual().Dual() == a && L.Dual().Dual() == L
    ensures a.Dual().coords == a.coords && L.Dual().coords == L.coords
  {
  }

  /** Perpendicularity of points and of lines is symmetric and is preserved by duality. */
  lemma PerpendicularSymmetric(a: Point, b: Point, L: Line, M: Line)
    ensures a.IsPerpendicular(b) <==> b.IsPerpendicular(a)
    ensures a.IsPerpendicular(b) <==> a.Dual().IsPerpendicular(b.Dual())
    ensures L.IsPerpendicular(M) <==> M.IsPerpendicular(L)
  {
    IncidentSymmetric(a.coords, b.coords);
    IncidentSymmetric(L.coords, M.coords);
  }

  /** The matrix `([], ) + vectors` whose first-row cofactors `join` and `meet` take. */
  function Stacked(vs: seq<Vector>): Matrix
  {
    [[]] + vs
  }

  /** `join(*points)`: the line through the points, `line(*signed(cofactors(([], ) + points)))`. */
  function Join(points: seq<Point>): Line
    requires forall k :: 0 <= k < |points| ==> |points[k].coords| == |points| + 1
  {
    var A := Stacked(seq(|points|, k requires 0 <= k < |points| => points[k].coords));
    Line(Signed(Cofactors(A)))
  }

  /** `meet(*lines)`: the point on the lines, computed as `join` is. */
  function Meet(lines: seq<Line>): Point
    requires forall k :: 0 <= k < |lines| ==> |lines[k].coords| == |lines| + 1
  {
    var A := Stacked(seq(|lines|, k requires 0 <= k < |lines| => lines[k].coords));
    Point(Signed(Cofactors(A)))
  }

  /** `meet` computes exactly the coordinates `join` computes from the same coordinates. */
  lemma MeetIsJoin(lines: seq<Line>)
    requires forall k :: 0 <= k < |lines| ==> |lines[k].coords| == |lines| + 1
    ensures Meet(lines).coords == Join(seq(|lines|, k requires 0 <= k < |lines| => lines[k].Dual())).coords
  {
    var points := seq(|lines|, k requires 0 <= k < |lines| => lines[k].Dual());
    assert seq(|points|, k requires 0 <= k < |points| => points[k].coords)
        == seq(|lines|, k requires 0 <= k < |lines| => lines[k].coords);
  }

  /** The cross product, the reference for the cofactors of `([], a, b)`. */
  function Cross(a: Vector, b: Vector): Vector
    requires |a| == 3 && |b| == 3
  {
    [a[1] * b[2] - a[2] * b[1], a[2] * b[0] - a[0] * b[2], a[0] * b[1] - a[1] * b[0]]
  }

  /** The first-row cofactors of `([], a, b)` are the cross product of `a` and `b`. */
  lemma CofactorsCross(a: Vector, b: Vector)
    requires |a| == 3 && |b| == 3
    ensures Cofactors(Stacked([a, b])) == Cross(a, b)
  {
    var A := Stacked([a, b]);
    assert A[1] == a && A[2] == b;
    Minor3Row0(A, a, b, 0, 1, 2);
    Minor3Row0(A, a, b, 1, 0, 2);
    Minor3Row0(A, a, b, 2, 0, 1);
    var C := Cofactors(A);
    assert C[0] == Minor(A, 0, 0) && C[1] == -Minor(A, 0, 1) && C[2] == Minor(A, 0, 2);
    var X := Cross(a, b);
    assert C[0] == X[0] && C[1] == X[1] && C[2] == X[2];
  }

  /** The minor of `([], a, b)` at row 0 and column `j` is the 2×2 determinant of the other columns. */
  lemma Minor3Row0(A: Matrix, a: Vector, b: Vector, j: int, c0: int, c1: int)
    requires |a| == 3 && |b| == 3 && A == Stacked([a, b])
    requires 0 <= j < 3 && c0 == (if j == 0 then 1 else 0) && c1 == (if j == 2 then 1 else 2)
    ensures Minor(A, 0, j) == a[c0] * b[c1] - a[c1] * b[c0]
  {
    var S := Submatrix(A, 0, j);
    assert S[0][0] == a[c0] && S[0][1] == a[c1];
    assert S[1][0] == b[c0] && S[1][1] == b[c1];
    Det2(S);
    Substitute2(Minor(A, 0, j), S[0][0], S[0][1], S[1][0], S[1][1], a[c0], a[c1], b[c0], b[c1]);
  }

  /** `a . (a x b) == 0`: the triple product with a repeated vector vanishes. */
  lemma TripleZero(a: Vector, b: Vector)
    requires |a| == 3 && |b| == 3
    ensures a[0] * Cross(a, b)[0] + a[1] * Cross(a, b)[1] + a[2] * Cross(a, b)[2] == 0.0
    ensures b[0] * Cross(a, b)[0] + b[1] * Cross(a, b)[1] + b[2] * Cross(a, b)[2] == 0.0
  {
  }

  /** The form against the signed cross product is the plain dot product with the cross product. */
  lemma FormSignedCross(a: Vector, b: Vector, v: Vector)
    requires |a| == 3 && |b| == 3 && |v| == 3
    ensures Form(v, Signed(Cross(a, b))) == v[0] * Cross(a, b)[0] + v[1] * Cross(a, b)[1] + v[2] * Cross(a, b)[2]
  {
    var c := Cross(a, b);
    assert Signed(c) == [c[0], c[1], -c[2]];
  }

  /** In the plane, the join of two points is a line incident with both of them. */
  lemma JoinIncident(a: Point, b: Point)
    requires |a.coords| == 3 && |b.coords| == 3
    ensures Incident(a.coords, Join([a, b]).coords) && Incident(b.coords, Join([a, b]).coords)
  {
    var L := JoinCoords(a, b);
    CrossIncident(a.coords, a.coords, b.coords);
    CrossIncident(b.coords, a.coords, b.coords);
  }

  /** Each of `a` and `b` is incident with the signed cross product of the two. */
  lemma CrossIncident(v: Vector, a: Vector, b: Vector)
    requires |a| == 3 && |b| == 3 && (v == a || v == b)
    ensures Incident(v, Signed(Cross(a, b)))
  {
    FormSignedCross(a, b, v);
    TripleZero(a, b);
    IncidentForm(v, Signed(Cross(a, b)));
  }

  /** In the plane, the meet of two lines is a point incident with both of them. */
  lemma MeetIncident(L: Line, M: Line)
    requires |L.coords| == 3 && |M.coords| == 3
    ensures Incident(Meet([L, M]).coords, L.coords) && Incident(Meet([L, M]).coords, M.coords)
  {
    MeetIsJoin([L, M]);
    assert [L.Dual(), M.Dual()] == seq(2, k requires 0 <= k < 2 => [L, M][k].Dual());
    JoinIncident(L.Dual(), M.Dual());
    IncidentSymmetric(L.coords, Meet([L, M]).coords);
    IncidentSymmetric(M.coords, Meet([L, M]).coords);
  }

  /** The coordinates of the join of two points of the plane: the signed cross product. */
  lemma JoinCoords(a: Point, b: Point) returns (L: Vector)
    requires |a.coords| == 3 && |b.coords| == 3
    ensures L == Join([a, b]).coords && L == Signed(Cross(a.coords, b.coords))
  {
    assert seq(2, k requires 0 <= k < 2 => [a, b][k].coords) == [a.coords, b.coords];
    CofactorsCross(a.coords, b.coords);
    L := Join([a, b]).coords;
  }

  /** Swapping the two points negates the join's coordinates (`-line`); joining a point with itself gives zero. */
  lemma JoinAntisymmetric(a: Point, b: Point)
    requires |a.coords| == 3 && |b.coords| == 3
    ensures Join([b, a]).coords == Mul(Join([a, b]).coords, -1.0)
    ensures Join([a, a]).coords == [0.0, 0.0, 0.0]
  {
    var L := JoinCoords(a, b);
    var M := JoinCoords(b, a);
    var N := JoinCoords(a, a);
  }
}
