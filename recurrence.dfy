/**
 * The recurrences of chapter 1 of Concrete Mathematics: the Tower of Hanoi
 * (section 1.1) and the Josephus problem (section 1.3), each in closed form and
 * in recursive form, plus the generalised Josephus recurrence `f`.
 */
module Recurrence {

  function Pow2(n: nat): (r: nat)
    ensures r >= 1
  {
    if n == 0 then 1 else 2 * Pow2(n - 1)
  }

  /** Number of binary digits of `n`, as Python's `int.bit_length` (0 for 0). */
  function BitLength(n: nat): nat
  {
    if n == 0 then 0 else 1 + BitLength(n / 2)
  }

  function Abs(n: int): nat
  {
    if n < 0 then -n else n
  }

  /** Closed form `2 ** n - 1`. */
  function Hanoi(n: nat): int
  {
    Pow2(n) - 1
  }

  /** Recursive form: no moves for no disc, otherwise move n-1 discs twice plus one. */
  function HanoiR(n: nat): (r: nat)
  {
    if n == 0 then 0 else 2 * HanoiR(n - 1) + 1
  }

  /** The closed form solves the recurrence for every number of discs. */
  lemma {:induction false} HanoiClosedForm(n: nat)
    ensures Hanoi(n) == HanoiR(n)
  {
    if n > 0 {
      HanoiClosedForm(n - 1);
    }
  }

  /**
   * Closed form of the Josephus number: `((n << 1) & ((1 << n.bit_length()) - 1)) + 1`.
   * The mask keeps the low `bit_length` bits, so the masked shift is `2n` modulo
   * `2^bit_length` (Python's `&` on a negative int acts on its infinite two's
   * complement, which the Euclidean `%` reproduces).
   */
  function Josephus(n: int): (r: int)
    ensures r % 2 == 1
  {
    MaskedShiftEven(n, BitLength(Abs(n)));
    (2 * n) % Pow2(BitLength(Abs(n))) + 1
  }

  /** Recursive form with floor division: `J(2k) = 2J(k) - 1`, `J(2k+1) = 2J(k) + 1`. */
  function JosephusR(n: int): (r: int)
    ensures r % 2 == 1
    ensures 1 <= r <= (if n >= 1 then n else 1)
  {
    if n <= 1 then 1 else 2 * JosephusR(n / 2) + (if n % 2 == 1 then 1 else -1)
  }

  /**
   * Generalised recurrence `f(n, alpha, beta, gamma)`. The recursive call passes no
   * parameters, so it always runs with the defaults `alpha = 1, beta = -1, gamma = 1`.
   */
  function F(n: int, alpha: int, beta: int, gamma: int): int
  {
    if n <= 1 then alpha else 2 * F(n / 2, 1, -1, 1) + (if n % 2 == 1 then gamma else beta)
  }

  /** `2n` modulo a power of two is even. */
  lemma MaskedShiftEven(n: int, k: nat)
    ensures ((2 * n) % Pow2(k)) % 2 == 0
  {
    if k > 0 {
      var h := Pow2(k - 1);
      assert Pow2(k) == 2 * h;
      EvenModDouble(n, h);
    }
  }

  /** An even number modulo an even modulus is even. */
  lemma EvenModDouble(n: int, h: int)
    requires h >= 1
    ensures ((2 * n) % (2 * h)) % 2 == 0
  {
    var q, r := (2 * n) / (2 * h), (2 * n) % (2 * h);
    assert 2 * n == (2 * h) * q + r;
    assert r == 2 * (n - h * q);
  }

  lemma {:induction false} BitLengthBounds(n: nat)
    requires n >= 1
    ensures BitLength(n) >= 1
    ensures Pow2(BitLength(n) - 1) <= n < Pow2(BitLength(n))
  {
    if n > 1 {
      BitLengthBounds(n / 2);
    }
  }

  /** For positive `n` the masked shift removes the leading bit: `J(n) = 2n - 2^L + 1`. */
  lemma JosephusLeadingBit(n: int)
    requires n >= 1
    ensures Josephus(n) == 2 * n - Pow2(BitLength(n)) + 1
  {
    BitLengthBounds(n);
    var p := Pow2(BitLength(n));
    assert p == 2 * Pow2(BitLength(n) - 1);
    ModShift(2 * n, p);
  }

  /** The closed form and the recursion agree on every non-negative `n`. */
  lemma {:induction false} JosephusClosedForm(n: int)
    requires n >= 0
    ensures Josephus(n) == JosephusR(n)
  {
    if n >= 2 {
      var k := n / 2;
      JosephusClosedForm(k);
      JosephusLeadingBit(k);
      JosephusLeadingBit(n);
      HalvingBits(n);
      HalvingStep(n, k, Josephus(n), Josephus(k), JosephusR(k), Pow2(BitLength(n)), Pow2(BitLength(k)));
    } else if n == 1 {
      assert BitLength(1) == 1;
    }
  }

  lemma HalvingStep(n: int, k: int, jn: int, jk: int, rk: int, pn: int, pk: int)
    requires n >= 2 && k == n / 2 && jk == rk
    requires jk == 2 * k - pk + 1 && jn == 2 * n - pn + 1 && pn == 2 * pk
    ensures jn == 2 * rk + (if n % 2 == 1 then 1 else -1)
  {
  }

  lemma HalvingBits(n: int)
    requires n >= 2
    ensures Pow2(BitLength(n)) == 2 * Pow2(BitLength(n / 2))
  {
    assert BitLength(n) == BitLength(n / 2) + 1;
  }

  lemma ModShift(a: int, p: int)
    requires p > 0 && p <= a < 2 * p
    ensures a % p == a - p
  {
  }

  /** `f` with its default parameters is the Josephus recursion. */
  lemma {:induction false} FDefaultsAreJosephus(n: int)
    ensures F(n, 1, -1, 1) == JosephusR(n)
  {
    if n > 1 {
      FDefaultsAreJosephus(n / 2);
    }
  }

  /** Non-default `alpha, beta, gamma` act only at the top-level call. */
  lemma FParametersOnlyAtTop(n: int, alpha: int, beta: int, gamma: int)
    ensures F(n, alpha, beta, gamma)
         == if n <= 1 then alpha else 2 * JosephusR(n / 2) + (if n % 2 == 1 then gamma else beta)
  {
    if n > 1 {
      FDefaultsAreJosephus(n / 2);
    }
  }
}
