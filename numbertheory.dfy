/**
 * Elementary number theory of chapter 4 of Concrete Mathematics: Euclid's
 * algorithm, rebuilding a pair from its gcd and partial quotients, a
 * certificate (Bezout coefficient) generator, and the primes and composites up
 * to a bound found by trial division against the primes seen so far.
 */
module NumberTheory {
  import opened Arith

  /** Python's `%`: the remainder has the sign of the divisor. */
  function PyMod(n: int, m: int): (r: int)
    requires m != 0
    ensures m > 0 ==> 0 <= r < m
    ensures m < 0 ==> m < r <= 0
    ensures m > 0 ==> r == n % m
  {
    if m > 0 || n % m == 0 then n % m else n % m + m
  }

  /** Python's `//`: the quotient rounded towards minus infinity. */
  function PyDiv(n: int, m: int): (q: int)
    requires m != 0
    ensures n == m * q + PyMod(n, m)
  {
    if m > 0 || n % m == 0 then n / m else n / m - 1
  }

  function Abs(n: int): nat
  {
    if n < 0 then -n else n
  }

  /** `gcd(m, n)`: `gcd(0, n) = n` and `gcd(m, n) = gcd(n % m, m)`. */
  function Gcd(m: int, n: int): int
    decreases Abs(m)
  {
    if m == 0 then n else Gcd(PyMod(n, m), m)
  }

  /** On naturals the gcd is a natural that divides both arguments. */
  lemma {:induction false} GcdDividesBoth(m: int, n: int)
    requires m >= 0 && n >= 0
    ensures Gcd(m, n) >= 0 && Divides(Gcd(m, n), m) && Divides(Gcd(m, n), n)
    decreases m
  {
    if m > 0 {
      var r := Gcd(m, n);
      GcdDividesBoth(n % m, m);
      if r > 0 {
        DividesCombination(r, m, n % m, n / m, 1);
        assert (n / m) * m + 1 * (n % m) == n;
      }
    }
  }

  /** Every common divisor of two naturals divides their gcd. */
  lemma {:induction false} GcdGreatest(m: int, n: int, d: int)
    requires m >= 0 && n >= 0 && d > 0 && Divides(d, m) && Divides(d, n)
    ensures Divides(d, Gcd(m, n))
    decreases m
  {
    if m > 0 {
      DividesCombination(d, n, m, 1, -(n / m));
      assert 1 * n + -(n / m) * m == n % m;
      GcdGreatest(n % m, m, d);
    }
  }

  /** A positive common divisor that every common divisor divides is the gcd. */
  lemma GcdCharacterised(m: int, n: int, g: int)
    requires m >= 0 && n >= 0 && g > 0 && Divides(g, m) && Divides(g, n)
    requires Gcd(m, n) > 0 && Divides(Gcd(m, n), g)
    ensures g == Gcd(m, n)
  {
    GcdGreatest(m, n, g);
    DividesAntisymmetric(g, Gcd(m, n));
  }

  // ---------------------------------------------------------------------------
  // gcd_gen: rebuilding a pair from its gcd and its partial quotients

  /** The state `(mm, m)` of `gcd_gen(g, A)` once every quotient of `A` is consumed. */
  function GenState(g: int, A: seq<int>): (int, int)
  {
    if A == [] then (0, g)
    else
      var (mm, m) := GenState(g, A[..|A| - 1]);
      (m, A[|A| - 1] * m + mm)
  }

  /** What `gcd_gen(g, A)` yields: `0`, then the state's `m` before each quotient. */
  function GenOutput(g: int, A: seq<int>): (r: seq<int>)
    ensures |r| == |A| + 1
  {
    if A == [] then [0] else GenOutput(g, A[..|A| - 1]) + [GenState(g, A[..|A| - 1]).1]
  }

  method GcdGen(g: int, A: seq<int>) returns (out: seq<int>)
    ensures out == GenOutput(g, A)
  {
    var mm, m := 0, g;
    out := [mm];
    for i := 0 to |A|
      invariant (mm, m) == GenState(g, A[..i])
      invariant out == GenOutput(g, A[..i])
    {
      assert A[..i + 1][..i] == A[..i];
      out := out + [m];
      mm, m := m, A[i] * m + mm;
    }
    assert A[..|A|] == A;
  }

  /** Entry `k + 1` of the output is the state's `m` after `k` quotients. */
  lemma {:induction false} GenOutputAt(g: int, A: seq<int>, k: nat)
    requires k < |A|
    ensures GenOutput(g, A)[0] == 0
    ensures GenOutput(g, A)[k + 1] == GenState(g, A[..k]).1
  {
    var B := A[..|A| - 1];
    if k < |A| - 1 {
      GenOutputAt(g, B, k);
      assert B[..k] == A[..k];
    } else {
      assert B == A[..k];
      if |B| > 0 {
        GenOutputAt(g, B, 0);
      }
    }
  }

  /**
   * `gcd_gen` yields `0`, then `g`, then each next value is the quotient times
   * the previous value plus the one before.
   */
  lemma GcdGenRecurrence(g: int, A: seq<int>)
    ensures GenOutput(g, A)[0] == 0
    ensures |A| > 0 ==> GenOutput(g, A)[1] == g
    ensures forall k :: 0 <= k < |A| - 1 ==>
      GenOutput(g, A)[k + 2] == A[k] * GenOutput(g, A)[k + 1] + GenOutput(g, A)[k]
  {
    if |A| > 0 {
      GenOutputAt(g, A, 0);
      assert A[..0] == [];
    }
    forall k | 0 <= k < |A| - 1
      ensures GenOutput(g, A)[k + 2] == A[k] * GenOutput(g, A)[k + 1] + GenOutput(g, A)[k]
    {
      GenOutputAt(g, A, k + 1);
      GenOutputAt(g, A, k);
      assert A[..k + 1][..k] == A[..k];
      if k > 0 {
        GenOutputAt(g, A, k - 1);
        assert A[..k][..k - 1] == A[..k - 1];
      }
    }
  }

  /**
   * The partial quotients `n // m` met by Euclid's algorithm on `(m, n)`, last
   * one first.
   */
  function QuotientsReversed(m: nat, n: nat): seq<int>
    decreases m
  {
    if m == 0 then [] else QuotientsReversed(n % m, m) + [n / m]
  }

  /**
   * The first arguments of the successive calls of `gcd(m, n)`, from the final 0
   * back to `m`.
   */
  function RemaindersReversed(m: nat, n: nat): seq<int>
    decreases m
  {
    if m == 0 then [0] else RemaindersReversed(n % m, m) + [m]
  }

  /** Consuming one more quotient `q` advances the state and yields its current `m`. */
  lemma GenSnoc(g: int, Q: seq<int>, q: int)
    ensures GenState(g, Q + [q]) == (GenState(g, Q).1, q * GenState(g, Q).1 + GenState(g, Q).0)
    ensures GenOutput(g, Q + [q]) == GenOutput(g, Q) + [GenState(g, Q).1]
  {
    assert (Q + [q])[..|Q|] == Q;
  }

  /**
   * Fed the gcd and the partial quotients of `(m, n)` last one first, `gcd_gen`
   * ends in the state `(m, n)` and has yielded the remainders of Euclid's
   * algorithm from the final 0 back to `m`.
   */
  lemma GcdGenRebuilds(m: nat, n: nat)
    ensures GenState(Gcd(m, n), QuotientsReversed(m, n)) == (m, n)
    ensures GenOutput(Gcd(m, n), QuotientsReversed(m, n)) == RemaindersReversed(m, n)
  {
    Rebuild(m, n, Gcd(m, n));
  }

  lemma {:induction false} Rebuild(m: nat, n: nat, g: int)
    requires g == Gcd(m, n)
    ensures GenState(g, QuotientsReversed(m, n)) == (m, n)
    ensures GenOutput(g, QuotientsReversed(m, n)) == RemaindersReversed(m, n)
    decreases m
  {
    if m > 0 {
      var r, q := n % m, n / m;
      var Q := QuotientsReversed(r, m);
      assert QuotientsReversed(m, n) == Q + [q];
      assert RemaindersReversed(m, n) == RemaindersReversed(r, m) + [m];
      GcdStep(m, n);
      Rebuild(r, m, g);
      GenSnoc(g, Q, q);
      DivisionStep(GenState(g, Q + [q]), GenState(g, Q), m, n);
    }
  }

  /** From the state `(n % m, m)`, one step with the quotient `n // m` reaches `(m, n)`. */
  lemma DivisionStep(t: (int, int), s: (int, int), m: int, n: int)
    requires m > 0 && s == (n % m, m) && t == (s.1, (n / m) * s.1 + s.0)
    ensures t == (m, n)
  {
  }

  lemma GcdStep(m: int, n: int)
    requires m > 0
    ensures Gcd(m, n) == Gcd(n % m, m)
  {
  }

  // ---------------------------------------------------------------------------
  // gcd_cert: certificates d = m' m + n' n

  datatype CertEnd = Stopped | DivisionByZero | OutOfFuel

  /**
   * The loop of `gcd_cert(m, n)` from coefficients `(x, y)` and current `d`,
   * checked at most `fuel` more times. The condition `m % d or n % d` fails on
   * `d == 0`; the update computes `n // m`, which fails on `m == 0` after the
   * triple has been yielded. The quotient `n // m` is the same on every round.
   */
  function CertRun(m: int, n: int, x: int, y: int, d: int, fuel: nat): (seq<(int, int, int)>, CertEnd)
    decreases fuel
  {
    if d == 0 then ([], DivisionByZero)
    else if Divides(d, m) && Divides(d, n) then ([], Stopped)
    else if fuel == 0 then ([], OutOfFuel)
    else
      var d' := x * m + y * n;
      if m == 0 then ([(x, y, d')], DivisionByZero)
      else
        var (rest, e) := CertRun(m, n, y - PyDiv(n, m) * x, x, d', fuel - 1);
        ([(x, y, d')] + rest, e)
  }

  /** A certificate `(m', n', d)` for `(m, n)`: `d = m' m + n' n`. */
  predicate IsCert(m: int, n: int, c: (int, int, int))
  {
    c.2 == c.0 * m + c.1 * n
  }

  /** One round of the loop of `gcd_cert`, when neither check stops it. */
  lemma CertRunStep(m: int, n: int, x: int, y: int, d: int, k: nat)
    requires d != 0 && !(Divides(d, m) && Divides(d, n)) && k > 0
    ensures m == 0 ==> CertRun(m, n, x, y, d, k) == ([(x, y, x * m + y * n)], DivisionByZero)
    ensures m != 0 ==>
      var next := CertRun(m, n, y - PyDiv(n, m) * x, x, x * m + y * n, k - 1);
      CertRun(m, n, x, y, d, k) == ([(x, y, x * m + y * n)] + next.0, next.1)
  {
  }

  /**
   * `gcd_cert(m, n)` as written, stopped after `fuel` rounds: every yielded triple
   * is a certificate, and a run that stops normally ends with a `d` dividing both
   * `m` and `n` (the initial `d = n` if nothing was yielded).
   */
  method GcdCert(m: int, n: int, fuel: nat) returns (certs: seq<(int, int, int)>, end: CertEnd)
    ensures (certs, end) == CertRun(m, n, 0, 1, n, fuel)
    ensures forall c :: c in certs ==> IsCert(m, n, c)
    ensures end == Stopped && certs == [] ==> n != 0 && Divides(n, m)
    ensures end == Stopped && certs != [] ==>
      var d := certs[|certs| - 1].2; d != 0 && Divides(d, m) && Divides(d, n)
  {
    var x, y, d := 0, 1, n;
    var k := fuel;
    certs := [];
    while true
      invariant CertRun(m, n, 0, 1, n, fuel).0 == certs + CertRun(m, n, x, y, d, k).0
      invariant CertRun(m, n, 0, 1, n, fuel).1 == CertRun(m, n, x, y, d, k).1
      decreases k
    {
      if d == 0 || (Divides(d, m) && Divides(d, n)) || k == 0 {
        CertRunStops(m, n, x, y, d, k);
        end := CertRun(m, n, x, y, d, k).1;
        assert certs + [] == certs;
        break;
      }
      var c, x', y' := CertRound(m, n, x, y, d, k);
      if m == 0 {
        certs := certs + [c];
        end := DivisionByZero;
        break;
      }
      AppendAssoc(certs, [c], CertRun(m, n, x', y', c.2, k - 1).0);
      certs := certs + [c];
      x, y, d := x', y', c.2;
      k := k - 1;
    }
    CertRunSound(m, n, 0, 1, n, fuel);
  }

  /** A run whose first check stops it yields nothing. */
  lemma CertRunStops(m: int, n: int, x: int, y: int, d: int, k: nat)
    requires d == 0 || (Divides(d, m) && Divides(d, n)) || k == 0
    ensures CertRun(m, n, x, y, d, k).0 == []
  {
  }

  lemma AppendAssoc<T>(a: seq<T>, b: seq<T>, c: seq<T>)
    ensures a + (b + c) == (a + b) + c
  {
  }

  /**
   * One round of the loop of `gcd_cert`, once neither check has stopped it: the
   * triple yielded and, when `m != 0`, the next coefficients `(y - (n // m) x, x)`.
   */
  method CertRound(m: int, n: int, x: int, y: int, d: int, k: nat) returns (c: (int, int, int), x': int, y': int)
    requires d != 0 && !(Divides(d, m) && Divides(d, n)) && k > 0
    ensures IsCert(m, n, c) && c.0 == x && c.1 == y
    ensures m == 0 ==> CertRun(m, n, x, y, d, k) == ([c], DivisionByZero)
    ensures m != 0 ==>
      CertRun(m, n, x, y, d, k) == ([c] + CertRun(m, n, x', y', c.2, k - 1).0, CertRun(m, n, x', y', c.2, k - 1).1)
  {
    CertRunStep(m, n, x, y, d, k);
    c := (x, y, x * m + y * n);
    x', y' := x, y;
    if m != 0 {
      x', y' := y - PyDiv(n, m) * x, x;
    }
  }

  /**
   * What a run of the loop yields: certificates only, and when it stops normally
   * the latest `d` (the starting one if nothing was yielded) divides `m` and `n`.
   */
  lemma {:induction false} CertRunSound(m: int, n: int, x: int, y: int, d: int, k: nat)
    ensures var r := CertRun(m, n, x, y, d, k);
      (forall c :: c in r.0 ==> IsCert(m, n, c))
      && (r.1 == Stopped && r.0 == [] ==> d != 0 && Divides(d, m) && Divides(d, n))
      && (r.1 == Stopped && r.0 != [] ==>
            var e := r.0[|r.0| - 1].2; e != 0 && Divides(e, m) && Divides(e, n))
    decreases k
  {
    if d != 0 && !(Divides(d, m) && Divides(d, n)) && k > 0 {
      CertRunStep(m, n, x, y, d, k);
      if m != 0 {
        var c := (x, y, x * m + y * n);
        var next := CertRun(m, n, y - PyDiv(n, m) * x, x, c.2, k - 1);
        CertRunSound(m, n, y - PyDiv(n, m) * x, x, c.2, k - 1);
        assert IsCert(m, n, c);
        if next.0 != [] {
          assert ([c] + next.0)[|[c] + next.0| - 1] == next.0[|next.0| - 1];
        }
      }
    }
  }

  /** On `(5, 3)` the loop returns to the state it had two rounds before. */
  lemma {:induction false} GcdCertCycles(fuel: nat)
    ensures CertRun(5, 3, 1, 0, 3, fuel).1 == OutOfFuel
  {
    if fuel >= 2 {
      GcdCertCycles(fuel - 2);
      assert PyDiv(3, 5) == 0;
      assert CertRun(5, 3, 0, 1, 5, fuel - 1).1 == CertRun(5, 3, 1, 0, 3, fuel - 2).1;
    } else if fuel == 1 {
      assert CertRun(5, 3, 0, 1, 5, 0).1 == OutOfFuel;
    }
  }

  /** `gcd_cert(5, 3)` never stops, however many rounds it is given. */
  lemma GcdCertNeverStopsOn5And3(fuel: nat)
    ensures CertRun(5, 3, 0, 1, 3, fuel).1 == OutOfFuel
  {
    if fuel > 0 {
      assert PyDiv(3, 5) == 0;
      GcdCertCycles(fuel - 1);
    }
  }

  /**
   * The certificate generator with the quotient of the two latest remainders
   * instead of the fixed `n // m`: it yields the certificates of `n, m, ...` along
   * Euclid's remainder chain and stops at the first one dividing both `m` and `n`,
   * which is their gcd. Nothing is yielded when `n` already divides `m`.
   */
  method GcdCertCorrected(m: int, n: int) returns (certs: seq<(int, int, int)>)
    requires m > 0 && n > 0
    ensures forall c :: c in certs ==> IsCert(m, n, c)
    ensures certs == [] <==> Divides(n, m)
    ensures certs != [] ==> certs[0] == (0, 1, n) && certs[|certs| - 1].2 == Gcd(m, n)
  {
    certs := [];
    if Divides(n, m) && Divides(n, n) {
      return;
    }
    var prev, cur := (0, 1, n), (1, 0, m);
    certs := [prev];
    GcdDividesBoth(m, n);
    while !(Divides(prev.2, m) && Divides(prev.2, n))
      invariant certs != [] && certs[0] == (0, 1, n)
      invariant certs[|certs| - 1] == prev
      invariant forall c :: c in certs ==> IsCert(m, n, c)
      invariant IsCert(m, n, prev) && IsCert(m, n, cur)
      invariant prev.2 > 0 && cur.2 >= 0
      invariant Gcd(cur.2, prev.2) == Gcd(m, n)
      decreases cur.2
    {
      if cur.2 == 0 {
        assert false;
      }
      certs := certs + [cur];
      EuclidStep(m, n, prev, cur);
      prev, cur := cur, Reduce(prev, cur);
    }
    CertIsGcd(m, n, prev.0, prev.1, prev.2);
  }

  /** The earlier certificate minus the quotient of the two values times the later one. */
  function Reduce(prev: (int, int, int), cur: (int, int, int)): (int, int, int)
    requires cur.2 != 0
  {
    var q := prev.2 / cur.2;
    (prev.0 - q * cur.0, prev.1 - q * cur.1, prev.2 - q * cur.2)
  }

  /**
   * One step of the extended Euclidean algorithm gives a certificate for the
   * remainder of the two values, and leaves the gcd unchanged.
   */
  lemma EuclidStep(m: int, n: int, prev: (int, int, int), cur: (int, int, int))
    requires IsCert(m, n, prev) && IsCert(m, n, cur) && cur.2 > 0
    ensures IsCert(m, n, Reduce(prev, cur))
    ensures Reduce(prev, cur).2 == prev.2 % cur.2
    ensures Gcd(Reduce(prev, cur).2, cur.2) == Gcd(cur.2, prev.2)
  {
    var q := prev.2 / cur.2;
    assert prev.2 - q * cur.2 == prev.2 % cur.2;
    assert prev.2 - q * cur.2 == (prev.0 * m + prev.1 * n) - q * (cur.0 * m + cur.1 * n);
    assert (prev.0 * m + prev.1 * n) - q * (cur.0 * m + cur.1 * n)
        == (prev.0 - q * cur.0) * m + (prev.1 - q * cur.1) * n;
    GcdStep(cur.2, prev.2);
  }

  /** A positive common divisor that is an integer combination of `m` and `n` is their gcd. */
  lemma CertIsGcd(m: int, n: int, x: int, y: int, d: int)
    requires m > 0 && n > 0 && d > 0 && d == x * m + y * n
    requires Divides(d, m) && Divides(d, n)
    ensures d == Gcd(m, n)
  {
    var g := Gcd(m, n);
    GcdDividesBoth(m, n);
    DividesCombination(g, m, n, x, y);
    GcdCharacterised(m, n, d);
  }

  // ---------------------------------------------------------------------------
  // primes and composites by trial division

  predicate IsPrime(n: int)
  {
    n >= 2 && forall d :: 2 <= d < n ==> !Divides(d, n)
  }

  predicate Increasing(s: seq<int>)
  {
    forall i, j :: 0 <= i < j < |s| ==> s[i] < s[j]
  }

  /** The primes of `[2, N]` in increasing order. */
  function PrimesUpTo(N: int): (r: seq<int>)
    ensures forall k :: k in r <==> 2 <= k <= N && IsPrime(k)
    ensures Increasing(r)
    decreases N
  {
    if N < 2 then []
    else
      var s := PrimesUpTo(N - 1);
      assert forall i :: 0 <= i < |s| ==> s[i] in s;
      s + (if IsPrime(N) then [N] else [])
  }

  /** The integers of `[2, N]` that are not prime, in increasing order. */
  function CompositesUpTo(N: int): (r: seq<int>)
    ensures forall k :: k in r <==> 2 <= k <= N && !IsPrime(k)
    ensures Increasing(r)
    decreases N
  {
    if N < 2 then []
    else
      var s := CompositesUpTo(N - 1);
      assert forall i :: 0 <= i < |s| ==> s[i] in s;
      s + (if IsPrime(N) then [] else [N])
  }

  /** A number with a divisor strictly between 1 and itself has a prime one. */
  lemma {:induction false} PrimeFactor(n: int, d: int) returns (p: int)
    requires 2 <= d < n && Divides(d, n)
    ensures 2 <= p <= d && IsPrime(p) && Divides(p, n)
    decreases d
  {
    if IsPrime(d) {
      p := d;
    } else {
      var e :| 2 <= e < d && Divides(e, d);
      DividesTransitive(e, d, n);
      p := PrimeFactor(n, e);
    }
  }

  /** The test `all(n % p for p in primes)` of the trial division. */
  predicate NoneDivides(found: set<int>, n: int)
    requires 0 !in found
  {
    forall p | p in found :: n % p != 0
  }

  /** The primes of `[2, n)`, as the set the trial division keeps. */
  ghost predicate PrimesBelow(found: set<int>, n: int)
  {
    forall p :: p in found <==> 2 <= p < n && IsPrime(p)
  }

  /**
   * Trial division against the primes below `n` decides primality: `n` is prime
   * exactly when none of them divides it.
   */
  lemma TrialDivision(n: int, found: set<int>)
    requires n >= 2 && PrimesBelow(found, n)
    ensures NoneDivides(found, n) <==> IsPrime(n)
  {
    if IsPrime(n) {
      forall p | p in found
        ensures n % p != 0
      {
        assert 2 <= p < n && !Divides(p, n);
      }
    } else {
      var d :| 2 <= d < n && Divides(d, n);
      var p := PrimeFactor(n, d);
      assert p in found && n % p == 0;
    }
  }

  /** Adding `n` exactly when it is prime keeps the set of primes below the bound. */
  lemma PrimesBelowNext(found: set<int>, n: int)
    requires PrimesBelow(found, n)
    ensures PrimesBelow(if IsPrime(n) then found + {n} else found, n + 1)
  {
  }

  /** `primes(N)`: the integers of `[2, N]` that no smaller prime divides. */
  method Primes(N: int) returns (out: seq<int>)
    ensures out == PrimesUpTo(N)
  {
    var found: set<int> := {};
    out := [];
    var n := 2;
    while n <= N
      invariant 2 <= n <= (if N >= 2 then N + 1 else 2)
      invariant PrimesBelow(found, n)
      invariant out == PrimesUpTo(n - 1)
    {
      TrialDivision(n, found);
      PrimesBelowNext(found, n);
      if NoneDivides(found, n) {
        out := out + [n];
        found := found + {n};
      }
      n := n + 1;
    }
  }

  /** `composites(N)`: the integers of `[2, N]` that some smaller prime divides. */
  method Composites(N: int) returns (out: seq<int>)
    ensures out == CompositesUpTo(N)
  {
    var found: set<int> := {};
    out := [];
    var n := 2;
    while n <= N
      invariant 2 <= n <= (if N >= 2 then N + 1 else 2)
      invariant PrimesBelow(found, n)
      invariant out == CompositesUpTo(n - 1)
    {
      TrialDivision(n, found);
      PrimesBelowNext(found, n);
      if NoneDivides(found, n) {
        found := found + {n};
      } else {
        out := out + [n];
      }
      n := n + 1;
    }
  }

  /** The outputs of `primes(N)` and `composites(N)` split `[2, N]` between them. */
  lemma {:induction false} PrimesCompositesPartition(N: int)
    ensures |PrimesUpTo(N)| + |CompositesUpTo(N)| == if N >= 2 then N - 1 else 0
    ensures forall k :: 2 <= k <= N ==> (k in PrimesUpTo(N) <==> k !in CompositesUpTo(N))
    decreases N
  {
    if N >= 2 {
      PrimesCompositesPartition(N - 1);
    }
  }
}
