/** Unsigned 64-bit words, and the powers of two that shifting them multiplies and divides by.
  * Every operation wraps the way `uint64_t` does: the result is reduced modulo 2^64.
  */
module Words {

  const WORD: int := 0x1_0000_0000_0000_0000

  /** A `uint64_t`. */
  type word = x: int | 0 <= x < WORD

  function Pow2(k: nat): (p: nat)
    ensures p > 0
  {
    if k == 0 then 1 else 2 * Pow2(k - 1)
  }

  /** `x + y` on words. */
  function WrapAdd(x: word, y: word): word {
    (x + y) % WORD
  }

  /** `x - y` on words. */
  function WrapSub(x: word, y: word): word {
    (x - y) % WORD
  }

  /** `x << k`; C leaves shifts by 64 or more undefined. */
  function Shl(x: word, k: nat): word
    requires k < 64
  {
    (x * Pow2(k)) % WORD
  }

  /** `x >> k`. */
  function Shr(x: word, k: nat): word
    requires k < 64
  {
    DivRange(x, Pow2(k));
    x / Pow2(k)
  }

  /** Whether bit `k` of a number is set: `(x >> k) & 1`. */
  predicate BitSet(x: nat, k: nat) {
    x / Pow2(k) % 2 == 1
  }

  /** `x | ((uint64_t)1 << k)`. */
  function OrBit(x: word, k: nat): word
    requires k < 64
  {
    if BitSet(x, k) then x else
      Pow2At64();
      ClearBitFits(x, k, 64);
      x + Pow2(k)
  }

  lemma {:induction false} DivRange(x: nat, d: nat)
    requires d > 0
    ensures 0 <= x / d <= x
  {
    DivModIs(x, d);
    if x / d > x {
      MulMono(1, d, x / d);
      assert false;
    }
  }

  // ---------------------------------------------------------------- arithmetic

  lemma {:induction false} MulMono(a: int, b: int, k: int)
    requires a <= b && 0 <= k
    ensures a * k <= b * k
  {
    assert (b - a) * k >= 0;
  }

  /** The defining equation of `/` and `%`, as one fact to quote. */
  lemma {:induction false} DivModIs(n: nat, d: nat)
    requires d > 0
    ensures n == (n / d) * d + n % d && 0 <= n % d < d && 0 <= n / d
  {
  }

  /** A quotient and remainder are determined by their equation. */
  lemma {:induction false} DivModUnique(n: nat, d: nat, q: nat, r: nat)
    requires d > 0
    requires n == q * d + r && r < d
    ensures n / d == q && n % d == r
  {
    DivModIs(n, d);
    var q', r' := n / d, n % d;
    assert (q - q') * d == r' - r;
    if q > q' {
      MulMono(1, q - q', d);
    } else if q < q' {
      assert (q' - q) * d == r - r';
      MulMono(1, q' - q, d);
    }
  }

  lemma {:induction false} Pow2Add(a: nat, b: nat)
    ensures Pow2(a + b) == Pow2(a) * Pow2(b)
  {
    if a != 0 {
      Pow2Add(a - 1, b);
      assert Pow2(a + b) == 2 * (Pow2(a - 1) * Pow2(b));
    }
  }

  lemma {:induction false} Pow2Mono(a: nat, b: nat)
    requires a <= b
    ensures Pow2(a) <= Pow2(b)
    decreases b - a
  {
    if a < b {
      Pow2Mono(a + 1, b);
    }
  }

  lemma {:induction false} Pow2At64()
    ensures Pow2(64) == WORD
  {
    assert Pow2(4) == 16;
    Pow2Add(4, 4);
    Pow2Add(8, 8);
    assert Pow2(16) == 0x1_0000;
    Pow2Add(16, 16);
    Pow2Add(32, 32);
  }

  lemma {:induction false} Pow2At128()
    ensures Pow2(128) == WORD * WORD
  {
    Pow2At64();
    Pow2Add(64, 64);
  }

  /** Dividing twice divides by the product. */
  lemma {:induction false} DivDiv(n: nat, a: nat, b: nat)
    requires a > 0 && b > 0
    ensures a * b > 0 && n / (a * b) == n / a / b
  {
    var q, r := n / a, n % a;
    DivModIs(n, a);
    DivModIs(q, b);
    var q2, r2 := q / b, q % b;
    assert n == (q2 * b + r2) * a + r;
    assert n == q2 * (a * b) + (r2 * a + r) by {
      assert (q2 * b + r2) * a == q2 * (a * b) + r2 * a;
    }
    assert r2 * a + r < a * b by {
      MulMono(r2, b - 1, a);
      assert (b - 1) * a == a * b - a;
    }
    assert a * b > 0 by { MulMono(1, b, a); }
    DivModUnique(n, a * b, q2, r2 * a + r);
  }

  /** A quotient is below any bound whose multiple the dividend is below. */
  lemma {:induction false} DivBelow(x: nat, d: nat, n: nat)
    requires d > 0 && x < n * d
    ensures x / d < n
  {
    DivModIs(x, d);
    if x / d >= n {
      MulMono(n, x / d, d);
      assert false;
    }
  }

  /** Below an even number of multiples of `p`, an even quotient leaves room for one more `p`. */
  lemma {:induction false} EvenQuotientFits(q: nat, p: nat, r: nat, t: nat)
    requires q % 2 == 0 && r < p && q < 2 * t
    ensures q * p + r + p < (2 * t) * p
  {
    assert q + 2 <= 2 * t;
    MulMono(q + 2, 2 * t, p);
  }

  lemma {:induction false} Pow2Split(k: nat, m: nat)
    requires k < m
    ensures Pow2(m) == (2 * Pow2(m - k - 1)) * Pow2(k)
  {
    Pow2Add(m - k, k);
    assert Pow2(m - k) == 2 * Pow2(m - k - 1);
  }

  /** A number with bit `k` clear leaves room for it below any bound 2^m with m > k. */
  lemma {:induction false} ClearBitFits(x: nat, k: nat, m: nat)
    requires k < m && x < Pow2(m)
    requires !BitSet(x, k)
    ensures x + Pow2(k) < Pow2(m)
  {
    var p, t := Pow2(k), Pow2(m - k - 1);
    Pow2Split(k, m);
    DivBelow(x, p, 2 * t);
    DivModIs(x, p);
    EvenQuotientFits(x / p, p, x % p, t);
  }
}
