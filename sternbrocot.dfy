/**
 * Farey sequences and the Stern-Brocot number system (Concrete Mathematics,
 * section 4.5): `farey(N)` built from `farey(N - 1)` by inserting mediants,
 * `stern_brocot` decoding a string of `L`/`R` moves into a fraction, and
 * `brocot_stern` encoding a fraction as such a string.
 */
module SternBrocot {
  import opened Arith
  import opened NumberTheory

  /** `n m' - m n'` for neighbours `m/n` and `m'/n'`. */
  function Det(p: (int, int), q: (int, int)): int
  {
    p.1 * q.0 - p.0 * q.1
  }

  /**
   * The body of `farey(N)` for `N > 1`: each element of `F` but the last,
   * followed by the mediant `(m + m', N)` when its denominator and the next one
   * sum to `N`, then the last element of `F`.
   */
  function InsertMediants(F: seq<(int, int)>, N: int): (r: seq<(int, int)>)
    requires |F| >= 1
    ensures |r| >= |F| && r[0] == F[0] && r[|r| - 1] == F[|F| - 1]
    decreases |F|
  {
    if |F| == 1 then F
    else
      [F[0]] + (if F[0].1 + F[1].1 == N then [(F[0].0 + F[1].0, N)] else [])
      + InsertMediants(F[1..], N)
  }

  /** `farey(N)`; for `N < 1` the source recurses without reaching its base case. */
  function Farey(N: int): (r: seq<(int, int)>)
    requires N >= 1
    ensures |r| >= 2 && r[0] == (0, 1) && r[|r| - 1] == (1, 1)
    decreases N
  {
    if N == 1 then [(0, 1), (1, 1)] else InsertMediants(Farey(N - 1), N)
  }

  /** The elements whose denominator is not `N`. */
  function Without(s: seq<(int, int)>, N: int): seq<(int, int)>
  {
    if s == [] then []
    else (if s[0].1 == N then [] else [s[0]]) + Without(s[1..], N)
  }

  lemma WithoutAppend(s: seq<(int, int)>, t: seq<(int, int)>, N: int)
    ensures Without(s + t, N) == Without(s, N) + Without(t, N)
  {
    if s == [] {
      assert s + t == t;
    } else {
      assert (s + t)[1..] == s[1..] + t;
      WithoutAppend(s[1..], t, N);
    }
  }

  lemma WithoutSingle(x: (int, int), N: int)
    ensures Without([x], N) == if x.1 == N then [] else [x]
  {
    assert [x][1..] == [];
  }

  /** Inserting mediants with denominator `N` and then dropping them gives back `F`. */
  lemma {:induction false} WithoutInserted(F: seq<(int, int)>, N: int)
    requires |F| >= 1 && forall p :: p in F ==> p.1 != N
    ensures Without(InsertMediants(F, N), N) == F
    decreases |F|
  {
    if |F| == 1 {
      assert F[1..] == [];
      WithoutSingle(F[0], N);
    } else {
      var mid: seq<(int, int)> := if F[0].1 + F[1].1 == N then [(F[0].0 + F[1].0, N)] else [];
      var rest := InsertMediants(F[1..], N);
      assert InsertMediants(F, N) == ([F[0]] + mid) + rest;
      assert forall p :: p in F[1..] ==> p in F;
      calc {
        Without(InsertMediants(F, N), N);
      ==  { WithoutAppend([F[0]] + mid, rest, N); }
        Without([F[0]] + mid, N) + Without(rest, N);
      ==  { WithoutAppend([F[0]], mid, N); }
        Without([F[0]], N) + Without(mid, N) + Without(rest, N);
      ==  { assert F[0] in F; WithoutSingle(F[0], N); WithoutMediant(F, N); }
        [F[0]] + Without(rest, N);
      ==  { WithoutInserted(F[1..], N); }
        [F[0]] + F[1..];
      }
    }
  }

  /** The mediant inserted after `F[0]`, if any, has denominator `N`. */
  lemma WithoutMediant(F: seq<(int, int)>, N: int)
    requires |F| >= 2
    ensures Without(if F[0].1 + F[1].1 == N then [(F[0].0 + F[1].0, N)] else [], N) == []
  {
    if F[0].1 + F[1].1 == N {
      WithoutSingle((F[0].0 + F[1].0, N), N);
    }
  }

  /** Every pair of neighbours has `n m' - m n' = 1`. */
  predicate Adjacent(s: seq<(int, int)>)
  {
    forall i :: 0 <= i < |s| - 1 ==> Det(s[i], s[i + 1]) == 1
  }

  lemma AdjacentCons(x: (int, int), s: seq<(int, int)>)
    requires s != []
    ensures Adjacent([x] + s) <==> Det(x, s[0]) == 1 && Adjacent(s)
  {
    var t := [x] + s;
    assert forall i :: 0 <= i < |s| ==> t[i + 1] == s[i];
    if Det(x, s[0]) == 1 && Adjacent(s) {
      forall i | 0 <= i < |t| - 1
        ensures Det(t[i], t[i + 1]) == 1
      {
        if i > 0 {
          assert t[i] == s[i - 1] && t[i + 1] == s[i];
        }
      }
    }
    if Adjacent(t) {
      assert Det(t[0], t[1]) == 1;
      forall i | 0 <= i < |s| - 1
        ensures Det(s[i], s[i + 1]) == 1
      {
        assert Det(t[i + 1], t[i + 2]) == 1;
      }
    }
  }

  /** A mediant sits between two neighbours with determinant 1 and keeps it. */
  lemma MediantDet(p: (int, int), q: (int, int), N: int)
    requires Det(p, q) == 1 && p.1 + q.1 == N
    ensures Det(p, (p.0 + q.0, N)) == 1 && Det((p.0 + q.0, N), q) == 1
  {
  }

  lemma {:induction false} InsertAdjacent(F: seq<(int, int)>, N: int)
    requires |F| >= 1 && Adjacent(F)
    ensures Adjacent(InsertMediants(F, N))
    decreases |F|
  {
    if |F| > 1 {
      var rest := InsertMediants(F[1..], N);
      assert Det(F[0], F[1]) == 1;
      AdjacentCons(F[0], F[1..]);
      InsertAdjacent(F[1..], N);
      if F[0].1 + F[1].1 == N {
        var med := (F[0].0 + F[1].0, N);
        MediantDet(F[0], F[1], N);
        AdjacentCons(med, rest);
        AdjacentCons(F[0], [med] + rest);
        assert [F[0]] + [med] + rest == [F[0]] + ([med] + rest);
      } else {
        AdjacentCons(F[0], rest);
        assert [F[0]] + [] + rest == [F[0]] + rest;
      }
    }
  }

  /** A fraction `m/n` with `0 <= m <= n` and `1 <= n <= N`. */
  predicate InUnitRange(p: (int, int), N: int)
  {
    0 <= p.0 <= p.1 && 1 <= p.1 <= N
  }

  lemma {:induction false} InsertInRange(F: seq<(int, int)>, N: int)
    requires |F| >= 1 && forall p :: p in F ==> InUnitRange(p, N - 1)
    ensures forall p :: p in InsertMediants(F, N) ==> InUnitRange(p, N)
    decreases |F|
  {
    if |F| > 1 {
      assert F[0] in F && F[1] in F;
      assert forall p :: p in F[1..] ==> p in F;
      InsertInRange(F[1..], N);
    }
  }

  /**
   * Every element of `farey(N)` is a fraction of `[0, 1]` with denominator at
   * most `N`, and every two neighbours `m/n`, `m'/n'` have `n m' - m n' = 1`,
   * which makes the sequence strictly increasing.
   */
  lemma {:induction false} FareyShape(N: int)
    requires N >= 1
    ensures forall p :: p in Farey(N) ==> InUnitRange(p, N)
    ensures Adjacent(Farey(N))
    decreases N
  {
    if N > 1 {
      FareyShape(N - 1);
      InsertInRange(Farey(N - 1), N);
      InsertAdjacent(Farey(N - 1), N);
    }
  }

  /** `farey(N)` holds `farey(N - 1)` in order: dropping denominator `N` gives it back. */
  lemma FareyExtends(N: int)
    requires N >= 2
    ensures Without(Farey(N), N) == Farey(N - 1)
  {
    FareyShape(N - 1);
    WithoutInserted(Farey(N - 1), N);
  }

  /** Neighbours with determinant 1 are in lowest terms. */
  lemma DetOneReduced(p: (int, int), q: (int, int))
    requires p.0 >= 0 && p.1 >= 0 && Det(p, q) == 1
    ensures Gcd(p.0, p.1) == 1
  {
    var g := Gcd(p.0, p.1);
    GcdDividesBoth(p.0, p.1);
    if g != 0 {
      DividesCombination(g, p.0, p.1, -q.1, q.0);
      assert -q.1 * p.0 + q.0 * p.1 == 1;
      DividesBounded(g, 1);
    }
  }

  /** Every fraction of `farey(N)` is in lowest terms. */
  lemma FareyReduced(N: int, k: int)
    requires N >= 1 && 0 <= k < |Farey(N)|
    ensures Gcd(Farey(N)[k].0, Farey(N)[k].1) == 1
  {
    var F := Farey(N);
    FareyShape(N);
    assert F[k] in F;
    if k < |F| - 1 {
      DetOneReduced(F[k], F[k + 1]);
    } else {
      assert Gcd(1, 1) == Gcd(0, 1);
    }
  }

  // ---------------------------------------------------------------------------
  // stern_brocot: from a path of moves to a fraction

  /** The bounds `m/n` (left) and `m'/n'` (right) of the current Stern-Brocot interval. */
  datatype Bounds = Bounds(m: int, n: int, m': int, n': int)

  const Start := Bounds(0, 1, 1, 0)

  /** `char.upper() == 'L'`. */
  predicate IsLeft(c: char)
  {
    c == 'L' || c == 'l'
  }

  /** `char.upper() == 'R'`. */
  predicate IsRight(c: char)
  {
    c == 'R' || c == 'r'
  }

  /** One move: `L` narrows the right bound to the mediant, `R` the left one, anything else nothing. */
  function Move(b: Bounds, c: char): Bounds
  {
    if IsLeft(c) then Bounds(b.m, b.n, b.m + b.m', b.n + b.n')
    else if IsRight(c) then Bounds(b.m + b.m', b.n + b.n', b.m', b.n')
    else b
  }

  /** The mediant of the bounds reached from `b` by the moves of `p`. */
  function Run(b: Bounds, p: string): (int, int)
    decreases |p|
  {
    if p == [] then (b.m + b.m', b.n + b.n') else Run(Move(b, p[0]), p[1..])
  }

  /** `stern_brocot(directions)`. */
  method SternBrocotDecode(directions: string) returns (r: (int, int))
    ensures r == Run(Start, directions)
    ensures directions == [] ==> r == (1, 1)
  {
    var b := Start;
    for i := 0 to |directions|
      invariant Run(b, directions[i..]) == Run(Start, directions)
    {
      assert directions[i..][1..] == directions[i + 1..];
      b := Move(b, directions[i]);
    }
    assert directions[|directions|..] == [];
    r := (b.m + b.m', b.n + b.n');
  }

  /** The moves of `p`, upper-cased, with every other character dropped. */
  function Moves(p: string): (r: string)
    ensures forall i :: 0 <= i < |r| ==> r[i] == 'L' || r[i] == 'R'
  {
    if p == [] then []
    else if IsLeft(p[0]) then ['L'] + Moves(p[1..])
    else if IsRight(p[0]) then ['R'] + Moves(p[1..])
    else Moves(p[1..])
  }

  /** Only the `L`/`R` letters of a path matter, in either case. */
  lemma {:induction false} RunIgnoresOtherCharacters(b: Bounds, p: string)
    ensures Run(b, p) == Run(b, Moves(p))
    decreases |p|
  {
    if p != [] {
      RunIgnoresOtherCharacters(Move(b, p[0]), p[1..]);
      if IsLeft(p[0]) || IsRight(p[0]) {
        var c := if IsLeft(p[0]) then 'L' else 'R';
        assert Moves(p) == [c] + Moves(p[1..]);
        assert ([c] + Moves(p[1..]))[1..] == Moves(p[1..]);
      } else {
        RunIgnoresOtherCharacters(b, p[1..]);
      }
    }
  }

  /**
   * The result from any bounds is linear in the result from the start: if the
   * moves of `p` lead from the start to `(x, y)`, from `b` they lead to
   * `(m y + m' x, n y + n' x)`.
   */
  lemma {:induction false} RunLinear(b: Bounds, p: string)
    ensures Run(b, p) == (b.m * Run(Start, p).1 + b.m' * Run(Start, p).0,
                          b.n * Run(Start, p).1 + b.n' * Run(Start, p).0)
    decreases |p|
  {
    if p != [] {
      var c, q := p[0], p[1..];
      RunLinear(Move(b, c), q);
      RunLinear(Move(Start, c), q);
      MoveLinear(b, c, Run(Start, q).0, Run(Start, q).1);
    }
  }

  /** One move commutes with the linear map of the bounds. */
  lemma MoveLinear(b: Bounds, c: char, x: int, y: int)
    ensures var s, b' := Move(Start, c), Move(b, c);
      var X, Y := s.m * y + s.m' * x, s.n * y + s.n' * x;
      b.m * Y + b.m' * X == b'.m * y + b'.m' * x && b.n * Y + b.n' * X == b'.n * y + b'.n' * x
  {
    if IsLeft(c) {
      SplitLeft(b.m, b.m', x, y);
      SplitLeft(b.n, b.n', x, y);
    } else if IsRight(c) {
      SplitRight(b.m, b.m', x, y);
      SplitRight(b.n, b.n', x, y);
    }
  }

  lemma SplitLeft(a: int, c: int, x: int, y: int)
    ensures a * y + (a + c) * x == a * (y + x) + c * x
  {
  }

  lemma SplitRight(a: int, c: int, x: int, y: int)
    ensures (a + c) * y + c * x == a * y + c * (y + x)
  {
  }

  /** An `L` first: the fraction `x/y` of the rest becomes `x/(x + y)`. */
  lemma RunAfterLeft(p: string)
    requires p != [] && IsLeft(p[0])
    ensures Run(Start, p) == (Run(Start, p[1..]).0, Run(Start, p[1..]).1 + Run(Start, p[1..]).0)
  {
    RunLinear(Move(Start, p[0]), p[1..]);
  }

  /** An `R` first: the fraction `x/y` of the rest becomes `(x + y)/y`. */
  lemma RunAfterRight(p: string)
    requires p != [] && IsRight(p[0])
    ensures Run(Start, p) == (Run(Start, p[1..]).1 + Run(Start, p[1..]).0, Run(Start, p[1..]).1)
  {
    RunLinear(Move(Start, p[0]), p[1..]);
  }

  lemma RunPrependLeft(q: string)
    ensures Run(Start, ['L'] + q) == (Run(Start, q).0, Run(Start, q).1 + Run(Start, q).0)
  {
    assert (['L'] + q)[1..] == q;
    RunAfterLeft(['L'] + q);
  }

  lemma RunPrependRight(q: string)
    ensures Run(Start, ['R'] + q) == (Run(Start, q).1 + Run(Start, q).0, Run(Start, q).1)
  {
    assert (['R'] + q)[1..] == q;
    RunAfterRight(['R'] + q);
  }

  /** The bounds are fractions with non-negative terms and determinant 1. */
  predicate ValidBounds(b: Bounds)
  {
    b.m >= 0 && b.n >= 0 && b.m' >= 0 && b.n' >= 0 && b.n * b.m' - b.m * b.n' == 1
  }

  lemma MoveValid(b: Bounds, c: char)
    requires ValidBounds(b)
    ensures ValidBounds(Move(b, c))
  {
    if IsLeft(c) {
      assert b.n * (b.m + b.m') - b.m * (b.n + b.n') == b.n * b.m' - b.m * b.n';
    } else if IsRight(c) {
      assert (b.n + b.n') * b.m' - (b.m + b.m') * b.n' == b.n * b.m' - b.m * b.n';
    }
  }

  /** From valid bounds, every path ends at a positive fraction in lowest terms. */
  lemma {:induction false} RunFromValid(b: Bounds, p: string)
    requires ValidBounds(b)
    ensures Run(b, p).0 >= 1 && Run(b, p).1 >= 1
    ensures Gcd(Run(b, p).0, Run(b, p).1) == 1
    decreases |p|
  {
    if p == [] {
      var r := Run(b, p);
      assert Det(r, (b.m', b.n')) == b.n * b.m' - b.m * b.n';
      DetOneReduced(r, (b.m', b.n'));
    } else {
      MoveValid(b, p[0]);
      RunFromValid(Move(b, p[0]), p[1..]);
    }
  }

  /** `stern_brocot` always gives a positive fraction in lowest terms. */
  lemma SternBrocotReduced(p: string)
    ensures Run(Start, p).0 >= 1 && Run(Start, p).1 >= 1
    ensures Gcd(Run(Start, p).0, Run(Start, p).1) == 1
  {
    RunFromValid(Start, p);
  }

  // ---------------------------------------------------------------------------
  // brocot_stern: from a fraction to its path

  /**
   * The moves `brocot_stern(m, n)` yields. The loop ends only when `m = n` is
   * reached, which it is from positive `m, n` (`m + n` decreases) and at once when
   * `m = n`; from any other start it runs forever.
   */
  function Path(m: int, n: int): string
    requires (m > 0 && n > 0) || m == n
    decreases m + n
  {
    if m == n then []
    else if m < n then ['L'] + Path(m, n - m)
    else ['R'] + Path(m - n, n)
  }

  /** `brocot_stern(m, n)`, collected into a string. */
  method BrocotStern(m: int, n: int) returns (path: string)
    requires (m > 0 && n > 0) || m == n
    ensures path == Path(m, n)
    ensures path == [] <==> m == n
    ensures forall i :: 0 <= i < |path| ==> path[i] == 'L' || path[i] == 'R'
  {
    var a, b := m, n;
    path := [];
    while a != b
      invariant (a > 0 && b > 0) || a == b
      invariant path + Path(a, b) == Path(m, n)
      invariant path == [] <==> (a == m && b == n)
      decreases a + b
    {
      if a < b {
        path := path + ['L'];
        b := b - a;
      } else {
        path := path + ['R'];
        a := a - b;
      }
    }
    MovesOnly(m, n);
  }

  lemma {:induction false} MovesOnly(m: int, n: int)
    requires (m > 0 && n > 0) || m == n
    ensures forall i :: 0 <= i < |Path(m, n)| ==> Path(m, n)[i] == 'L' || Path(m, n)[i] == 'R'
    decreases m + n
  {
    if m < n {
      MovesOnly(m, n - m);
    } else if m > n {
      MovesOnly(m - n, n);
    }
  }

  /** Two pairs of positive numbers whose gcds divide each other's pair have the same gcd. */
  lemma SameGcd(a: int, b: int, c: int, d: int)
    requires a > 0 && b > 0 && c > 0 && d > 0
    requires Gcd(a, b) > 0 && Divides(Gcd(a, b), c) && Divides(Gcd(a, b), d)
    requires Gcd(c, d) > 0 && Divides(Gcd(c, d), a) && Divides(Gcd(c, d), b)
    ensures Gcd(a, b) == Gcd(c, d)
  {
    GcdGreatest(c, d, Gcd(a, b));
    GcdGreatest(a, b, Gcd(c, d));
    DividesAntisymmetric(Gcd(a, b), Gcd(c, d));
  }

  /** Subtracting the smaller of two positive numbers from the larger keeps the gcd. */
  lemma GcdSubtractLeft(a: int, b: int)
    requires 0 < a < b
    ensures Gcd(a, b - a) == Gcd(a, b)
  {
    var g, h := Gcd(a, b), Gcd(a, b - a);
    GcdDividesBoth(a, b);
    GcdDividesBoth(a, b - a);
    DividesCombination(g, a, b, -1, 1);
    DividesCombination(h, a, b - a, 1, 1);
    SameGcd(a, b, a, b - a);
  }

  lemma GcdSubtractRight(a: int, b: int)
    requires 0 < b < a
    ensures Gcd(a - b, b) == Gcd(a, b)
  {
    var g, h := Gcd(a, b), Gcd(a - b, b);
    GcdDividesBoth(a, b);
    GcdDividesBoth(a - b, b);
    DividesCombination(g, a, b, 1, -1);
    DividesCombination(h, a - b, b, 1, 1);
    SameGcd(a, b, a - b, b);
  }

  /**
   * Decoding the path of a positive `m/n` gives that fraction in lowest terms:
   * `(m, n)` divided by `gcd(m, n)`.
   */
  lemma {:induction false} DecodeEncode(m: int, n: int)
    requires m > 0 && n > 0
    ensures Run(Start, Path(m, n)).0 * Gcd(m, n) == m
    ensures Run(Start, Path(m, n)).1 * Gcd(m, n) == n
    decreases m + n, 1
  {
    if m == n {
      assert Gcd(m, n) == Gcd(0, m);
    } else if m < n {
      DecodeEncodeLeft(m, n);
    } else {
      DecodeEncodeRight(m, n);
    }
  }

  lemma {:induction false} DecodeEncodeLeft(m: int, n: int)
    requires 0 < m < n
    ensures Run(Start, Path(m, n)).0 * Gcd(m, n) == m
    ensures Run(Start, Path(m, n)).1 * Gcd(m, n) == n
    decreases m + n, 0
  {
    var q := Path(m, n - m);
    assert Path(m, n) == ['L'] + q;
    DecodeEncode(m, n - m);
    GcdSubtractLeft(m, n);
    RunPrependLeft(q);
    ScaleLeft(Run(Start, Path(m, n)), Run(Start, q), Gcd(m, n), Gcd(m, n - m), m, n);
  }

  lemma {:induction false} DecodeEncodeRight(m: int, n: int)
    requires 0 < n < m
    ensures Run(Start, Path(m, n)).0 * Gcd(m, n) == m
    ensures Run(Start, Path(m, n)).1 * Gcd(m, n) == n
    decreases m + n, 0
  {
    var q := Path(m - n, n);
    assert Path(m, n) == ['R'] + q;
    DecodeEncode(m - n, n);
    GcdSubtractRight(m, n);
    RunPrependRight(q);
    ScaleRight(Run(Start, Path(m, n)), Run(Start, q), Gcd(m, n), Gcd(m - n, n), m, n);
  }

  /** `x/y` scaled by `g` is `m/(n - m)`: then `x/(x + y)` scaled by `g` is `m/n`. */
  lemma ScaleLeft(r: (int, int), s: (int, int), g: int, h: int, m: int, n: int)
    requires r == (s.0, s.1 + s.0) && g == h && s.0 * h == m && s.1 * h == n - m
    ensures r.0 * g == m && r.1 * g == n
  {
  }

  /** `x/y` scaled by `g` is `(m - n)/n`: then `(x + y)/y` scaled by `g` is `m/n`. */
  lemma ScaleRight(r: (int, int), s: (int, int), g: int, h: int, m: int, n: int)
    requires r == (s.1 + s.0, s.1) && g == h && s.0 * h == m - n && s.1 * h == n
    ensures r.0 * g == m && r.1 * g == n
  {
  }

  /** For coprime positive `m, n`, decoding the path of `m/n` gives `(m, n)` back. */
  lemma DecodeEncodeCoprime(m: int, n: int)
    requires m > 0 && n > 0 && Gcd(m, n) == 1
    ensures Run(Start, Path(m, n)) == (m, n)
  {
    DecodeEncode(m, n);
  }

  /**
   * Encoding the fraction a path decodes to gives back its moves: the path
   * upper-cased with every character other than `L`/`R` dropped.
   */
  lemma {:induction false} EncodeDecode(p: string)
    ensures Run(Start, p).0 > 0 && Run(Start, p).1 > 0
    ensures Path(Run(Start, p).0, Run(Start, p).1) == Moves(p)
    decreases |p|
  {
    SternBrocotReduced(p);
    if p != [] {
      EncodeDecode(p[1..]);
      var x, y := Run(Start, p[1..]).0, Run(Start, p[1..]).1;
      if IsLeft(p[0]) {
        RunAfterLeft(p);
        assert Path(x, y + x) == ['L'] + Path(x, y);
      } else if IsRight(p[0]) {
        RunAfterRight(p);
        assert Path(y + x, y) == ['R'] + Path(x, y);
      } else {
        assert Run(Start, p) == Run(Start, p[1..]);
      }
    }
  }
}
