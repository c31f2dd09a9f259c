/** Multiplication, division and digit accumulation on literals, in the portable form that
  * does not rely on a 128-bit machine type, and in the form that does.
  */
module LexIntMul {
  import opened Wrappers
  import opened Words
  import opened Shifts
  import opened LexInts

  /** Low bits of a product depend on the low bits of its factor only. */
  lemma {:induction false} ModMul(x: int, k: int)
    ensures ((x % WIDE) * k) % WIDE == (x * k) % WIDE
  {
    var q, r := x / WIDE, x % WIDE;
    assert x * k == r * k + (q * k) * WIDE by { assert (q * WIDE + r) * k == (q * k) * WIDE + r * k; }
    ModShift(r * k, q * k);
  }

  lemma {:induction false} ModAdd(x: int, y: int)
    ensures (x % WIDE + y % WIDE) % WIDE == (x + y) % WIDE
  {
  }

  lemma {:induction false} Distribute(x: int, y: int, z: int)
    ensures x * (y + z) == x * y + x * z
  {
  }

  /** A negative factor's products shrink as the other factor grows. */
  lemma {:induction false} NegativeMono(v: int, k: int, m: int)
    requires v < 0 && 0 <= k <= m
    ensures v * m <= v * k <= 0
    ensures k > 0 ==> v * k < 0
  {
    MulMono(k, m, -v);
    assert k * -v == -(v * k) && m * -v == -(v * m);
    if k > 0 { MulMono(1, k, -v); }
  }

  /** When the product of `v` and `b` is within range, so are the partial products the loop forms. */
  ghost predicate InRange(v: int, b: nat) {
    v >= 0 || -WIDE < v * b
  }

  /** Multiplication by a word, in the shift-and-add form. */
  method Mul64(dst: LexInt, a: LexInt, b: word)
    modifies dst
    ensures dst.Bits() == LowProduct(old(a.Bits()), b)
    ensures old(a.Valid()) && InRange(old(a.Value()), b) ==> dst.Holds(old(a.Value()) * b)
  {
    hide LowProduct, Split, InRange, Join;
    ghost var v, n := a.Value(), a.Bits();
    ghost var exact := a.Valid() && InRange(v, b);
    dst.isNegative := a.isNegative;
    var t := new LexInt();
    Copy(t, a);
    Zero(dst);
    var m := b;
    ghost var p: nat, done: nat := 1, 0;
    NoneAdded(b, n);
    while m > 0
      invariant Split(b, m, p, done)
      invariant t.Bits() == LowProduct(n, p) && t.isNegative == (v < 0)
      invariant dst.Bits() == LowProduct(n, done)
      invariant exact ==> dst.Valid() && dst.isNegative == (v < 0 && done > 0)
    {
      ghost var done': nat := done;
      if m % 2 != 0 {
        SumOfPartials(v, n, b, m, p, done);
        Add(dst, dst, t);
        done' := done + p;
      }
      NextSplit(v, n, b, m, p, done);
      ShiftLeft(t, t, 1);
      m, p, done := m / 2, 2 * p, done';
    }
    AllAdded(b, p, done);
    Finished(v, n, b, done);
  }

  /** The multiplier, as its bits still to come and the part already added in. */
  ghost predicate Split(b: nat, m: nat, p: nat, done: nat) {
    p > 0 && b == m * p + done
  }

  function LowProduct(n: int, k: int): nat {
    (n * k) % WIDE
  }

  lemma {:induction false} NoneAdded(b: nat, n: nat)
    requires n < WIDE
    ensures Split(b, b, 1, 0) && LowProduct(n, 0) == 0 && LowProduct(n, 1) == n
  {
  }

  lemma {:induction false} AllAdded(b: nat, p: nat, done: nat)
    requires Split(b, 0, p, done)
    ensures done == b
  {
  }

  lemma {:induction false} SumOfPartials(v: int, n: nat, b: nat, m: nat, p: nat, done: nat)
    requires m > 0 && Split(b, m, p, done)
    requires n < WIDE && n == v + if v < 0 then WIDE else 0
    ensures (LowProduct(n, done) + LowProduct(n, p)) % WIDE == LowProduct(n, done + p)
    ensures InRange(v, b) && v < 0 ==> LowProduct(n, p) != 0 && LowProduct(n, done + p) != 0
  {
    hide LowProduct, InRange;
    LowSum(n, done, p);
    if InRange(v, b) && v < 0 {
      SplitBounds(b, m, p, done);
      SameLow(v, p);
      SameLow(v, done + p);
      NegativeLow(v, b, p);
      NegativeLow(v, b, done + p);
    }
  }

  lemma {:induction false} SplitBounds(b: nat, m: nat, p: nat, done: nat)
    requires m > 0 && Split(b, m, p, done)
    ensures 0 < p <= b && done + p <= b
  {
    MulMono(1, m, p);
  }

  lemma {:induction false} LowSum(n: int, j: int, k: int)
    ensures (LowProduct(n, j) + LowProduct(n, k)) % WIDE == LowProduct(n, j + k)
  {
    Distribute(n, j, k);
    ModAdd(n * j, n * k);
  }

  /** Adding 2^128 to a factor does not change the low bits of a product. */
  lemma {:induction false} SameLow(v: int, k: int)
    ensures LowProduct(v + WIDE, k) == LowProduct(v, k)
  {
    Distribute(k, v, WIDE);
    ModShift(v * k, k);
  }

  lemma {:induction false} NegativeLow(v: int, b: nat, k: nat)
    requires v < 0 < k <= b && InRange(v, b)
    ensures LowProduct(v, k) != 0
  {
    NegativeMono(v, k, b);
  }

  lemma {:induction false} NextSplit(v: int, n: nat, b: nat, m: nat, p: nat, done: nat)
    requires m > 0 && Split(b, m, p, done)
    ensures p > 0
    ensures Split(b, m / 2, 2 * p, if m % 2 != 0 then done + p else done)
    ensures (LowProduct(n, p) * Pow2(1)) % WIDE == LowProduct(n, 2 * p)
  {
    ModMul(n * p, 2);
    assert (n * p) * 2 == n * (2 * p);
    assert Pow2(1) == 2;
    var h := m / 2;
    assert (2 * h) * p == h * (2 * p);
    assert (2 * h + 1) * p == h * (2 * p) + p;
  }

  lemma {:induction false} Finished(v: int, n: nat, b: nat, done: nat)
    requires done == b && n == v + if v < 0 then WIDE else 0
    ensures LowProduct(n, done) == LowProduct(n, b) == (v * b) % WIDE
    ensures v < 0 && done > 0 ==> v * b < 0
    ensures v >= 0 || done == 0 ==> v * b >= 0
  {
    if v < 0 {
      assert n * b == v * b + b * WIDE by { assert (v + WIDE) * b == v * b + WIDE * b; }
      ModShift(v * b, b);
      if b > 0 { NegativeMono(v, b, b); }
    }
  }

  /** Spreads a 128-bit machine number over the two words. */
  method Store(dst: LexInt, v: nat)
    requires v < WIDE
    modifies dst`low, dst`high
    ensures dst.Bits() == v
  {
    dst.low := v % WORD;
    dst.high := v / WORD;
  }

  /** Multiplication by a word, with the 128-bit machine type. */
  method Mul64Native(dst: LexInt, a: LexInt, b: word)
    modifies dst
    ensures dst.Bits() == LowProduct(old(a.Bits()), b)
    ensures old(a.Valid()) && InRange(old(a.Value()), b) ==>
              (dst.Holds(old(a.Value()) * b) <==> (b != 0 || old(a.Value()) >= 0))
  {
    Finished(a.Value(), a.Bits(), b, b);
    dst.isNegative := a.isNegative;
    Store(dst, LowProduct(Join(a.high, a.low), b));
  }

  /** Multiplication of signed literals; the multiplier's magnitude must fit a word. */
  method Mul(dst: LexInt, a: LexInt, b: LexInt)
    requires -WORD < b.Value() < WORD
    modifies dst
    ensures dst.Bits() == (old(a.Value()) * old(b.Value())) % WIDE
    ensures old(a.Valid()) && -WIDE < old(a.Value()) * old(b.Value()) ==>
              dst.Holds(old(a.Value()) * old(b.Value()))
  {
    hide *;
    ghost var v, w := a.Value(), b.Value();
    var lt := new LexInt();
    var rt := new LexInt();
    Copy(lt, a);
    Copy(rt, b);
    PositiveMultiplier(lt, rt);
    ghost var v' := if w < 0 then -v else v;
    SameProduct(v, w, v', lt.Bits(), rt.low);
    Mul64(dst, lt, rt.low);
  }

  /** The same on the native product, which cannot be told from -2^128 when a negative number is multiplied by zero. */
  method MulNative(dst: LexInt, a: LexInt, b: LexInt)
    requires -WORD < b.Value() < WORD
    modifies dst
    ensures dst.Bits() == (old(a.Value()) * old(b.Value())) % WIDE
    ensures old(a.Valid()) && -WIDE < old(a.Value()) * old(b.Value()) ==>
              (dst.Holds(old(a.Value()) * old(b.Value())) <==> (old(b.Value()) != 0 || old(a.Value()) >= 0))
  {
    hide *;
    ghost var v, w := a.Value(), b.Value();
    var lt := new LexInt();
    var rt := new LexInt();
    Copy(lt, a);
    Copy(rt, b);
    PositiveMultiplier(lt, rt);
    ghost var v' := if w < 0 then -v else v;
    SameProduct(v, w, v', lt.Bits(), rt.low);
    Mul64Native(dst, lt, rt.low);
  }

  /** Moves the sign of the multiplier over to the multiplicand. */
  method PositiveMultiplier(lt: LexInt, rt: LexInt)
    requires lt != rt && -WORD < rt.Value() < WORD
    modifies lt, rt
    ensures rt.high == 0 && rt.low == if old(rt.Value()) < 0 then -old(rt.Value()) else old(rt.Value())
    ensures var v := if old(rt.Value()) < 0 then -old(lt.Value()) else old(lt.Value());
            lt.Bits() % WIDE == v % WIDE && (old(lt.Valid()) ==> lt.Valid() && lt.Value() == v)
  {
    ghost var w := rt.Value();
    if rt.isNegative {
      Negate(lt, lt);
      Negate(rt, rt);
    }
    MagnitudeFits(rt, w);
  }

  lemma {:induction false} SameProduct(v: int, w: int, v': int, n: nat, k: nat)
    requires v' == (if w < 0 then -v else v) && k == (if w < 0 then -w else w)
    requires n % WIDE == v' % WIDE
    ensures v' * k == v * w
    ensures LowProduct(n, k) == (v * w) % WIDE
    ensures -WIDE < v * w ==> InRange(v', k)
  {
    ModMul(n, k);
    ModMul(v', k);
    assert (-v) * (-w) == v * w;
  }

  lemma {:induction false} MagnitudeFits(t: LexInt, w: int)
    requires -WORD < w < WORD
    requires t.Holds(if w < 0 then -w else w)
    ensures t.high == 0 && t.low == if w < 0 then -w else w
  {
    JoinInjective(t.high, t.low, t.Bits());
  }

  // ----------------------------------------------------------------- division

  /** Division truncating toward zero, as C's `/` does. */
  function Truncated(x: int, d: int): int
    requires d != 0
  {
    var q := (if x < 0 then -x else x) / (if d < 0 then -d else d);
    if (x < 0) == (d < 0) then q else -q
  }

  /** After the bits from `k` up of `n` have been brought down: quotient and remainder so far. */
  ghost predicate Divided(n: nat, b: nat, k: nat, q: nat, r: nat) {
    n / Pow2(k) == q * b + r && r < b
  }

  lemma {:induction false} BringDown(n: nat, b: nat, i: nat, q: nat, r: nat)
    requires Divided(n, b, i + 1, q, r)
    ensures r < b
    ensures var r' := 2 * r + (n / Pow2(i)) % 2;
            if r' >= b then Divided(n, b, i, 2 * q + 1, r' - b) else Divided(n, b, i, 2 * q, r')
  {
    DivDiv(n, Pow2(i), 2);
    assert Pow2(i + 1) == Pow2(i) * 2;
    assert (2 * q) * b == 2 * (q * b) && (2 * q + 1) * b == 2 * (q * b) + b;
  }

  /** A quotient whose bits so far stand from bit `k` upwards. */
  ghost function From(q: nat, k: nat): nat {
    q * Pow2(k)
  }

  /** The quotient bits found so far end above bit `i`. */
  lemma {:induction false} NextBitClear(q: nat, i: nat)
    ensures !BitSet(From(q, i + 1), i)
    ensures From(q, i + 1) == From(2 * q, i)
    ensures From(q, i + 1) + Pow2(i) == From(2 * q + 1, i)
  {
    assert q * Pow2(i + 1) == (2 * q) * Pow2(i) + 0;
    DivModUnique(q * Pow2(i + 1), Pow2(i), 2 * q, 0);
  }

  lemma {:induction false} Doubles(n: nat)
    requires n < WORD
    ensures (n * Pow2(1)) % WIDE == 2 * n
  {
    assert Pow2(1) == 2;
  }

  lemma {:induction false} LowBits(h: word, l: word)
    ensures Join(h, l) % 2 == l % 2
    ensures OrBit(l, 0) == l + 1 - l % 2
  {
    assert Join(h, l) == 2 * (h * (WORD / 2)) + l;
    assert Pow2(0) == 1;
  }

  /** Shifts bit `i` of `o` into the remainder `r`, by way of the scratch number `t`. */
  method ShiftInBit(r: LexInt, t: LexInt, o: LexInt, i: nat)
    requires r != t && r != o && t != o && i < 128
    requires r.Bits() < WORD && !r.isNegative
    modifies r, t
    ensures r.Bits() == 2 * old(r.Bits()) + (o.Bits() / Pow2(i)) % 2 && !r.isNegative
  {
    Doubles(r.Bits());
    ShiftLeft(r, r, 1);
    ShiftRight(t, o, i);
    LowBits(r.high, r.low);
    LowBits(t.high, t.low);
    r.low := if t.low % 2 == 1 then OrBit(r.low, 0) else r.low;
  }

  method SubtractIfFits(r: LexInt, b: word) returns (fits: bool)
    requires !r.isNegative
    modifies r
    ensures fits <==> old(r.Bits()) >= b
    ensures r.Bits() == (if fits then old(r.Bits()) - b else old(r.Bits())) && !r.isNegative
  {
    var c := Cmp64(r, b);
    fits := c >= 0;
    if fits {
      Sub64(r, r, b);
    }
  }

  /** Division of an unsigned number by a word of at least 2, by restoring division. The counter is
    * a `uint8_t` that runs from 127 down to 0 and leaves the loop by wrapping to 255.
    */
  method DivideBits(dst: LexInt, o: LexInt, b: word)
    requires dst != o && b >= 2
    requires dst.Bits() == 0 && !dst.isNegative
    modifies dst
    ensures dst.Bits() == o.Bits() / b && !dst.isNegative
  {
    hide *;
    ghost var n := o.Bits();
    var r := new LexInt();
    var t := new LexInt();
    ghost var q: nat, k: nat := 0, 128;
    NothingBroughtDown(n, b);
    var i: nat := 127;
    while i < 255
      invariant k <= 128 && i == if k == 0 then 255 else k - 1
      invariant o.Bits() == n
      invariant Divided(n, b, k, q, r.Bits()) && !r.isNegative
      invariant dst.Bits() == From(q, k) && !dst.isNegative
      decreases k
    {
      k := k - 1;
      BringDown(n, b, k, q, r.Bits());
      NextBitClear(q, k);
      ShiftInBit(r, t, o, i);
      q := 2 * q;
      var fits := SubtractIfFits(r, b);
      if fits {
        SetBit(dst, dst, i);
        q := q + 1;
      }
      i := (i + 255) % 256;
    }
    AllBroughtDown(n, b, q, r.Bits());
  }

  lemma {:induction false} NothingBroughtDown(n: nat, b: nat)
    requires n < WIDE && b > 0
    ensures Divided(n, b, 128, 0, 0) && From(0, 128) == 0
  {
    Pow2At128();
    DivModUnique(n, Pow2(128), 0, n);
  }

  lemma {:induction false} AllBroughtDown(n: nat, b: nat, q: nat, r: nat)
    requires Divided(n, b, 0, q, r)
    ensures From(q, 0) == n / b
  {
    assert Pow2(0) == 1;
    DivModUnique(n, b, q, r);
  }

  /** Division by a word. Dividing by zero gives zero; dividing a negative number by one forgets its sign,
    * because that case returns before the sign is put back.
    */
  method Div64(dst: LexInt, a: LexInt, b: word)
    modifies dst
    ensures b == 0 ==> dst.Value() == 0
    ensures b == 1 && old(a.Valid()) ==> dst.Value() == if old(a.Value()) < 0 then -old(a.Value()) else old(a.Value())
    ensures b >= 2 && old(a.Valid()) ==> dst.Value() == Truncated(old(a.Value()), b)
    ensures b != 0 && old(a.Valid()) ==>
              (dst.Value() == Truncated(old(a.Value()), b) <==> (b != 1 || old(a.Value()) >= 0))
    ensures dst.Valid() && (!old(a.Valid()) ==> dst.Value() == 0)
  {
    hide Truncated, Join;
    ghost var v := a.Value();
    var negate := a.isNegative;
    var o := new LexInt();
    if a.isNegative {
      Negate(o, a);
    } else {
      Copy(o, a);
    }
    Zero(dst);
    if b == 0 {
      return;
    }
    SignedQuotient(v, o.Bits(), b);
    if b == 1 {
      Copy(dst, o);
      return;
    }
    DivideBits(dst, o, b);
    SetSign(dst, negate);
  }

  /** The quotient of magnitudes, signed, is the truncated quotient. */
  lemma {:induction false} SignedQuotient(v: int, n: nat, b: nat)
    requires b >= 1 && n < WIDE
    requires -WIDE <= v && n == if v == -WIDE then 0 else if v < 0 then -v else v
    ensures 0 <= n / b < WIDE && (n == 0 ==> n / b == 0)
    ensures v != -WIDE ==> Truncated(v, b) == (if v < 0 then -(n / b) else n / b) && (b == 1 ==> n / b == n)
  {
    QuotientInRange(n, b);
  }

  /** Division by a word with the 128-bit machine type, which has no case of its own for one. */
  method Div64Native(dst: LexInt, a: LexInt, b: word)
    requires b != 0
    modifies dst
    ensures old(a.Valid()) ==> dst.Value() == Truncated(old(a.Value()), b)
  {
    hide Truncated, Join;
    ghost var v := a.Value();
    var negate := a.isNegative;
    var o := new LexInt();
    if a.isNegative {
      Negate(o, a);
    } else {
      Copy(o, a);
    }
    SignedQuotient(v, o.Bits(), b);
    Store(dst, Join(o.high, o.low) / b);
    SetSign(dst, negate);
  }

  /** Gives an unsigned result its sign. */
  method SetSign(dst: LexInt, negate: bool)
    modifies dst
    ensures dst.Holds(if negate then -(old(dst.Bits()) as int) else old(dst.Bits()))
  {
    dst.isNegative := false;
    if negate {
      Negate(dst, dst);
    }
  }

  lemma {:induction false} QuotientInRange(n: nat, b: nat)
    requires b >= 1
    ensures 0 <= n / b <= n
    ensures b == 1 ==> n / b == n
  {
    DivRange(n, b);
  }

  /** Division of signed literals; the divisor's magnitude must fit a word. */
  method Div(dst: LexInt, a: LexInt, b: LexInt)
    requires a.Valid() && -WORD < b.Value() < WORD
    modifies dst
    ensures dst.Valid()
    ensures dst.Value() == if old(b.Value()) == 0 then 0 else Truncated(old(a.Value()), old(b.Value()))
  {
    hide Truncated, Join;
    ghost var v, w := a.Value(), b.Value();
    var lt := new LexInt();
    var rt := new LexInt();
    Copy(lt, a);
    Copy(rt, b);
    var negate := lt.isNegative != rt.isNegative;
    Absolute(lt);
    Absolute(rt);
    MagnitudeFits(rt, w);
    Div64(dst, lt, rt.low);
    if w != 0 { TruncatedSigns(v, w); }
    SetSign(dst, negate);
  }

  lemma {:induction false} TruncatedSigns(v: int, w: int)
    requires w != 0
    ensures var v', w' := if v < 0 then -v else v, if w < 0 then -w else w;
            0 <= Truncated(v', w') <= v' &&
            Truncated(v, w) == if (v < 0) == (w < 0) then Truncated(v', w') else -Truncated(v', w')
  {
    QuotientInRange(if v < 0 then -v else v, if w < 0 then -w else w);
  }

  method Absolute(t: LexInt)
    modifies t
    ensures t.Holds(if old(t.Value()) < 0 then -old(t.Value()) else old(t.Value()))
  {
    if t.isNegative {
      Negate(t, t);
    }
  }

  // -------------------------------------------------------- digit accumulation

  /** The number `n` with one more digit on its end. */
  function Appended(n: nat, digit: nat, base: nat): nat {
    n * base + digit
  }

  /** Dividing back detects an overflowing product; comparing with the old value, an overflowing sum. */
  lemma {:induction false} OverflowTestsExact(n: nat, digit: word, base: word)
    requires n < WIDE && base >= 1
    ensures var m := LowProduct(n, base);
            if m / base != n then Appended(n, digit, base) >= WIDE
            else if m + digit < WIDE then m + digit >= n && m + digit == Appended(n, digit, base)
            else (m + digit) % WIDE < n && Appended(n, digit, base) >= WIDE
  {
    var m := LowProduct(n, base);
    MulMono(1, base, n);
    if n * base < WIDE {
      DivModUnique(m, base, n, 0);
      if n * base + digit >= WIDE && n < WORD {
        MulMono(n, WORD - 1, base);
        MulMono(base, WORD - 1, WORD - 1);
        assert false;
      }
    } else {
      assert m <= n * base - WIDE;
      DivModIs(m, base);
    }
  }

  /** What the portable form makes of a number: a negative one is refused when the digit does not make up for scaling
    * it.
    */
  function PortableAppended(v: int, digit: nat, base: nat): Option<int> {
    var r := v * base + digit;
    if v >= 0 then (if r < WIDE then Some(r) else None)
    else if base >= 2 && r >= v then Some(r) else None
  }

  /** What the native form makes of it, which appends to the bits and leaves the sign alone. */
  function NativeAppended(v: int, digit: nat, base: nat): Option<int> {
    var sign := if v < 0 then WIDE else 0;
    var r := (v + sign) * base + digit;
    if r < WIDE then Some(r - sign) else None
  }

  lemma {:induction false} AppendedToBits(v: int, n: nat, digit: nat, base: nat)
    requires n == v + if v < 0 then WIDE else 0
    ensures NativeAppended(v, digit, base) ==
            if Appended(n, digit, base) < WIDE then Some(Appended(n, digit, base) - if v < 0 then WIDE else 0) else None
  {
  }

  /** The two forms agree exactly on the numbers that neither of them accepts though negative. */
  lemma {:induction false} VariantsAgree(v: int, digit: word, base: word)
    requires -WIDE < v < WIDE && base >= 1
    ensures PortableAppended(v, digit, base) == NativeAppended(v, digit, base) <==>
            v >= 0 || (!(base >= 2 && digit >= (base - 1) * -v) && !((v + WIDE) * base + digit < WIDE))
  {
    if v < 0 {
      assert v * base + digit >= v <==> digit >= (base - 1) * -v by {
        assert (base - 1) * -v == v - v * base;
      }
      if base >= 2 && v * base + digit >= v {
        DigitCovers(v, digit, base);
        var n := v + WIDE;
        MulMono(2, base, n);
        assert NativeAppended(v, digit, base) == None;
      }
    }
  }

  /** A word that makes up for scaling a negative number shows the number to be small. */
  lemma {:induction false} DigitCovers(v: int, digit: word, base: word)
    requires v < 0 && base >= 2 && v * base + digit >= v
    ensures -WORD < v && -WIDE < v * base && v * base + digit < WORD
  {
    MulMono(1, base - 1, -v);
    assert (base - 1) * -v == v - v * base;
    NegativeMono(v, 1, base);
  }

  /** Minus one with the digit nine in base ten: the portable form makes minus one of it, the native form refuses. */
  lemma {:induction false} VariantsDiffer()
    ensures PortableAppended(-1, 9, 10) == Some(-1) && NativeAppended(-1, 9, 10) == None
  {
  }

  /** Appends a digit to a literal, unless the result does not fit 128 bits. */
  method Accum(i: LexInt, digit: word, base: word) returns (ok: bool)
    modifies i
    ensures !ok ==> i.Bits() == old(i.Bits()) && i.isNegative == old(i.isNegative)
    ensures !old(i.isNegative) && base >= 1 ==> (ok <==> Appended(old(i.Bits()), digit, base) < WIDE)
    ensures !old(i.isNegative) && base >= 1 && ok ==> i.Bits() == Appended(old(i.Bits()), digit, base) && !i.isNegative
    ensures old(i.Valid()) && base >= 1 ==>
              var r := PortableAppended(old(i.Value()), digit, base);
                (ok <==> r.Some?) && (ok ==> i.Value() == r.value && i.Valid())
    ensures old(i.Valid()) && base == 0 ==> (ok <==> old(i.Value()) == 0) && (ok ==> i.Value() == digit)
  {
    hide LowProduct, InRange;
    ghost var v := i.Value();
    if base >= 1 { OverflowTestsExact(i.Bits(), digit, base); }
    var v2 := new LexInt();
    var fits := ScaleChecked(v2, i, base);
    if !fits {
      Refused(v, digit, base);
      return false;
    }
    AppendedValue(v, digit, base);
    Add64(v2, v2, digit);
    var c := Cmp(v2, i);
    if c < 0 {
      return false;
    }
    Copy(i, v2);
    return true;
  }

  lemma {:induction false} Refused(v: int, digit: word, base: word)
    ensures v < 0 && (base >= 2 ==> v * base <= -WIDE) ==> PortableAppended(v, digit, base) == None
  {
    if v < 0 && base >= 2 && v * base + digit >= v {
      DigitCovers(v, digit, base);
    }
  }

  lemma {:induction false} AppendedValue(v: int, digit: word, base: word)
    ensures v < 0 && base >= 2 ==> v * base < 0 && PortableAppended(v, digit, base).Some? == (v * base + digit >= v)
    ensures v < 0 && base >= 2 && v * base + digit >= v ==> PortableAppended(v, digit, base) == Some(v * base + digit)
  {
    if v < 0 && base >= 2 { NegativeMono(v, 1, base); }
  }

  /** Scales `i` by the base, and divides back to see whether anything was lost. */
  method ScaleChecked(v2: LexInt, i: LexInt, base: word) returns (same: bool)
    requires v2 != i
    modifies v2
    ensures !i.isNegative && base >= 1 ==>
              v2.Bits() == LowProduct(i.Bits(), base) && !v2.isNegative &&
              (same <==> LowProduct(i.Bits(), base) / base == i.Bits())
    ensures i.Valid() && i.isNegative ==> (same <==> base >= 2 && -WIDE < i.Value() * base)
    ensures i.Valid() && i.isNegative && same ==> v2.Value() == i.Value() * base && v2.Valid()
    ensures i.Valid() && base == 0 ==> (same <==> i.Value() == 0) && v2.Value() == 0
  {
    hide LowProduct, InRange;
    ghost var v := i.Value();
    ProductInRange(v, base);
    Mul64(v2, i, base);
    if i.Valid() && i.isNegative && base >= 1 { ScaledBack(v, base, v2.Value()); }
    var v3 := new LexInt();
    Div64(v3, v2, base);
    var c := Cmp(v3, i);
    same := c == 0;
    if !same {
      Div64(v3, v2, base);
    }
  }

  /** Dividing back gives a negative number again if and only if its product fitted. */
  lemma {:induction false} ScaledBack(v: int, base: word, x: int)
    requires -WIDE < v < 0 && base >= 1 && -WIDE <= x < WIDE
    ensures -WIDE < v * base ==> Truncated(v * base, base) == v
    ensures v * base <= -WIDE && -WIDE < x ==> Truncated(x, base) != v
  {
    var m, p := -v, -v * base;
    Negated(v, base);
    if p < WIDE {
      DivModUnique(p, base, m, 0);
      SignedQuotient(-p, p, base);
    } else if -WIDE < x {
      var y := if x < 0 then -x else x;
      QuotientBelow(y, base, m);
      SignedQuotient(x, y, base);
    }
    hide Truncated;
  }

  lemma {:induction false} Negated(v: int, b: nat)
    requires v < 0 && b >= 1
    ensures v * b == -(-v * b) && -v * b > 0
  {
    NegativeMono(v, 1, b);
  }

  lemma {:induction false} QuotientBelow(y: nat, b: nat, m: nat)
    requires b > 0 && y < m * b
    ensures y / b < m
  {
    DivBelow(y, b, m);
  }

  lemma {:induction false} ProductInRange(v: int, b: nat)
    ensures InRange(v, b) <==> v >= 0 || -WIDE < v * b
    ensures v >= 0 ==> v * b >= 0
    ensures b == 1 ==> v * b == v
    ensures b == 0 ==> v * b == 0
    ensures v < 0 && b >= 1 ==> v * b < 0
  {
    if v < 0 && b >= 1 { NegativeMono(v, 1, b); }
  }

  /** The same with the 128-bit machine type, which looks at the bits alone. */
  method AccumNative(i: LexInt, digit: word, base: word) returns (ok: bool)
    requires base >= 1
    modifies i
    ensures ok <==> Appended(old(i.Bits()), digit, base) < WIDE
    ensures i.Bits() == if ok then Appended(old(i.Bits()), digit, base) else old(i.Bits())
    ensures i.isNegative == old(i.isNegative)
    ensures old(i.Valid()) ==>
              var r := NativeAppended(old(i.Value()), digit, base); (ok <==> r.Some?) && (ok ==> i.Value() == r.value)
  {
    AppendedToBits(i.Value(), i.Bits(), digit, base);
    hide Appended, LowProduct, NativeAppended;
    var v1 := Join(i.high, i.low);
    OverflowTestsExact(v1, digit, base);
    var v2 := LowProduct(v1, base);
    if v2 / base != v1 {
      return false;
    }
    v2 := (v2 + digit) % WIDE;
    if v2 < v1 {
      return false;
    }
    Store(i, v2);
    return true;
  }
}
