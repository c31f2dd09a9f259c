/** What shifting a two-word number word by word does to the 128-bit number itself. */
module Shifts {
  import opened Words

  const WIDE: int := WORD * WORD

  /** The 128-bit number held in two words. */
  function Join(high: word, low: word): (n: nat)
    ensures n < WIDE
  {
    high * WORD + low
  }

  lemma {:induction false} JoinInjective(h: word, l: word, n: nat)
    requires Join(h, l) == n
    ensures h == n / WORD && l == n % WORD
  {
  }

  /** Splitting `x * p` at 2^64 when p * c = 2^64: the overflow is x / c, the rest a multiple of p. */
  lemma {:induction false} ScaleSplit(x: word, p: nat, c: nat)
    requires p > 0 && c > 0 && p * c == WORD
    ensures x / c < p && (x * p) % WORD == (x % c) * p
    ensures (x % c) * p <= WORD - p
    ensures x * p == (x / c) * WORD + (x % c) * p
  {
    DivModIs(x, c);
    DivBelow(x, c, p);
    var q, r := x / c, x % c;
    assert (q * c + r) * p == q * (p * c) + r * p;
    MulMono(r, c - 1, p);
    assert (c - 1) * p == p * c - p;
    DivModUnique(x * p, WORD, q, r * p);
  }

  /** Left shift by fewer than 64 bits. */
  lemma {:induction false} ShlSmall(h: word, l: word, p: nat, c: nat)
    requires p > 0 && c > 0 && p * c == WORD
    ensures ((h * p) % WORD + l / c) < WORD
    ensures Join((h * p) % WORD + l / c, (l * p) % WORD) == (Join(h, l) * p) % WIDE
  {
    ScaleSplit(h, p, c);
    ScaleSplit(l, p, c);
    var n := Join((h * p) % WORD + l / c, (l * p) % WORD);
    assert (h * WORD + l) * p == (h * p) * WORD + l * p;
    DivModUnique(Join(h, l) * p, WIDE, h / c, n);
  }

  /** Left shift by 64 bits or more: the high word is lost, the low word moves up. */
  lemma {:induction false} ShlLarge(h: word, l: word, p: nat)
    ensures Join((l * p) % WORD, 0) == (Join(h, l) * (WORD * p)) % WIDE
  {
    var q, r := l * p / WORD, l * p % WORD;
    assert (h * WORD + l) * (WORD * p) == (h * p) * WIDE + (l * p) * WORD by {
      assert (h * WORD) * (WORD * p) == (h * p) * WIDE;
      assert l * (WORD * p) == (l * p) * WORD;
    }
    assert (h * p) * WIDE + (l * p) * WORD == (h * p + q) * WIDE + r * WORD;
    DivModUnique(Join(h, l) * (WORD * p), WIDE, h * p + q, r * WORD);
  }

  lemma {:induction false} LowPart(x: word, p: nat, c: nat)
    requires p > 0 && c > 0 && p * c == WORD
    ensures (x * p) % WORD == (x % c) * p <= WORD - p
  {
    ScaleSplit(x, p, c);
  }

  /** Right shift by fewer than 64 bits. */
  lemma {:induction false} ShrSmall(h: word, l: word, p: nat, c: nat)
    requires p > 0 && c > 0 && p * c == WORD
    ensures 0 <= h / p < WORD && ((h * c) % WORD + l / p) < WORD
    ensures Join(h / p, (h * c) % WORD + l / p) == Join(h, l) / p
  {
    assert c * p == WORD;
    LowPart(h, c, p);
    DivBelow(l, p, c);
    DivRange(h, p);
    ShrQuotient(h, l, p, c);
  }

  lemma {:induction false} ShrQuotient(h: word, l: word, p: nat, c: nat)
    requires p > 0 && c * p == WORD
    ensures (h * WORD + l) / p == (h / p) * WORD + ((h % p) * c + l / p)
  {
    DivModIs(l, p);
    DivModIs(h, p);
    ShrAlgebra(h, l, p, c, h / p, h % p, l / p, l % p);
    DivModUnique(h * WORD + l, p, (h / p) * WORD + (h % p) * c + l / p, l % p);
  }

  lemma {:induction false} ShrAlgebra(h: int, l: int, p: int, c: int, hq: int, hr: int, lq: int, lr: int)
    requires c * p == WORD && h == hq * p + hr && l == lq * p + lr
    ensures h * WORD + l == (hq * WORD + hr * c + lq) * p + lr
  {
    assert (hr * c) * p == hr * WORD by { assert (hr * c) * p == hr * (c * p); }
    assert (hq * WORD) * p == (hq * p) * WORD;
    DistributeThree(hq * WORD, hr * c, lq, p);
  }

  lemma {:induction false} DistributeThree(a: int, b: int, c: int, p: int)
    ensures (a + b + c) * p == a * p + b * p + c * p
  {
  }

  /** Right shift by 64 bits or more: the low word is lost, the high word moves down. */
  lemma {:induction false} ShrLarge(h: word, l: word, p: nat)
    requires p > 0
    ensures 0 <= h / p < WORD && WORD * p > 0
    ensures Join(0, h / p) == Join(h, l) / (WORD * p)
  {
    DivRange(h, p);
    DivDiv(Join(h, l), WORD, p);
    JoinInjective(h, l, Join(h, l));
  }

  // ------------------------------------------------------------ carry and borrow

  /** The carry out of an unsigned addition: the sum wrapped if and only if it came out below an operand. */
  function Carry(x: word, y: word): (c: word)
    ensures x + y == c * WORD + WrapAdd(x, y)
  {
    if WrapAdd(x, y) < x then 1 else 0
  }

  /** The borrow out of an unsigned subtraction. */
  function Borrow(x: word, y: word): (c: word)
    ensures x - y == WrapSub(x, y) - c * WORD
  {
    if WrapSub(x, y) > x then 1 else 0
  }

  lemma {:induction false} AddJoin(h1: word, l1: word, h2: word, l2: word)
    ensures Join(WrapAdd(WrapAdd(h1, h2), Carry(l1, l2)), WrapAdd(l1, l2)) == (Join(h1, l1) + Join(h2, l2)) % WIDE
  {
    var t := h1 + h2 + Carry(l1, l2);
    assert WrapAdd(WrapAdd(h1, h2), Carry(l1, l2)) == t % WORD;
    DivModUnique(Join(h1, l1) + Join(h2, l2), WIDE, t / WORD, (t % WORD) * WORD + WrapAdd(l1, l2));
  }

  lemma {:induction false} SubJoin(h1: word, l1: word, h2: word, l2: word)
    ensures Join(WrapSub(WrapSub(h1, h2), Borrow(l1, l2)), WrapSub(l1, l2)) == (Join(h1, l1) - Join(h2, l2)) % WIDE
  {
    var b := Borrow(l1, l2);
    var k := if h1 - h2 - b < 0 then 1 else 0;
    var high, low := WrapSub(WrapSub(h1, h2), b), WrapSub(l1, l2);
    assert low == l1 - l2 + b * WORD by { WrapsOnce(l1 - l2); }
    assert high == h1 - h2 - b + k * WORD by { WrapsTwice(h1, h2, b); }
    hide WrapSub, Borrow;
    Recombined(h1, l1, h2, l2, b, k);
    LowBits(Join(high, low), Join(h1, l1) - Join(h2, l2), k);
  }

  lemma {:induction false} LowBits(n: nat, x: int, k: int)
    requires n < WIDE && n == x + k * WIDE
    ensures n == x % WIDE
  {
    ModShift(x, k);
  }

  lemma {:induction false} Recombined(h1: int, l1: int, h2: int, l2: int, b: int, k: int)
    ensures (h1 - h2 - b + k * WORD) * WORD + (l1 - l2 + b * WORD) ==
            (h1 * WORD + l1) - (h2 * WORD + l2) + k * WIDE
  {
  }

  lemma {:induction false} WrapsOnce(t: int)
    requires -WORD <= t < WORD
    ensures t % WORD == t + if t < 0 then WORD else 0
  {
  }

  lemma {:induction false} WrapsTwice(x: word, y: word, b: word)
    requires b <= 1
    ensures WrapSub(WrapSub(x, y), b) == var t := x - y - b; t + if t < 0 then WORD else 0
  {
    WrapsOnce(x - y);
    WrapsOnce(WrapSub(x, y) - b);
  }

  /** Multiples of 2^128 do not change the low 128 bits. */
  lemma {:induction false} ModShift(x: int, k: int)
    ensures (x + k * WIDE) % WIDE == x % WIDE
  {
  }
}
