/** The 128-bit signed literals of the Pony compiler's lexer and constant evaluator:
  * two words and a sign flag, so that the value is the 128-bit number, less 2^128 when the
  * flag is set. Any operand of an operation may be the same object as its destination.
  */
module LexInts {
  import opened Words
  import opened Shifts

  class LexInt {
    var low: word
    var high: word
    var isNegative: bool

    /** The 128 bits, read as an unsigned number. */
    ghost function Bits(): (n: nat)
      reads this
      ensures n < WIDE
    {
      Join(high, low)
    }

    ghost function Value(): int
      reads this
    {
      Bits() - if isNegative then WIDE else 0
    }

    /** The sign flag on all-zero bits would stand for -2^128, whose negation does not fit. */
    ghost predicate Valid()
      reads this
      ensures Valid() <==> -WIDE < Value() < WIDE
    {
      isNegative ==> Bits() != 0
    }

    /** Holds the sign of `v` and its low 128 bits; this is `v` itself as long as it fits. */
    ghost predicate Holds(v: int)
      reads this
      ensures Holds(v) ==> (Value() == v <==> -WIDE <= v < WIDE)
      ensures Holds(v) && Value() == v ==> (Valid() <==> v != -WIDE)
    {
      isNegative == (v < 0) && Bits() == v % WIDE
    }

    constructor ()
      ensures Bits() == 0 && !isNegative
    {
      low, high, isNegative := 0, 0, false;
    }
  }

  /** The low 128 bits of a sum or difference of values are those of the sum or difference of their bits. */
  lemma {:induction false} SignsDropOut(n1: int, neg1: bool, n2: int, neg2: bool)
    ensures var v1 := n1 - if neg1 then WIDE else 0;
            var v2 := n2 - if neg2 then WIDE else 0;
            (n1 + n2) % WIDE == (v1 + v2) % WIDE && (n1 - n2) % WIDE == (v1 - v2) % WIDE
  {
    var k1, k2 := if neg1 then 1 else 0, if neg2 then 1 else 0;
    ModShift(n1 + n2, -k1 - k2);
    ModShift(n1 - n2, k2 - k1);
  }

  /** The three-way outcome of a comparison. */
  function Sign(x: int): int {
    if x < 0 then -1 else if x > 0 then 1 else 0
  }

  method Zero(i: LexInt)
    modifies i
    ensures i.Bits() == 0 && !i.isNegative
  {
    i.low := 0;
    i.high := 0;
    i.isNegative := false;
  }

  method Copy(dst: LexInt, src: LexInt)
    modifies dst
    ensures dst.low == old(src.low) && dst.high == old(src.high)
    ensures dst.isNegative == old(src.isNegative)
    ensures dst.Bits() == old(src.Bits()) && dst.Value() == old(src.Value()) && dst.Valid() == old(src.Valid())
  {
    dst.low, dst.high, dst.isNegative := src.low, src.high, src.isNegative;
  }

  method Cmp(a: LexInt, b: LexInt) returns (r: int)
    ensures r == Sign(a.Value() - b.Value())
  {
    if a.isNegative && !b.isNegative {
      return -1;
    }
    if !a.isNegative && b.isNegative {
      return 1;
    }
    if a.high > b.high {
      return 1;
    }
    if a.high < b.high {
      return -1;
    }
    if a.low > b.low {
      return 1;
    }
    if a.low < b.low {
      return -1;
    }
    return 0;
  }

  method Cmp64(a: LexInt, b: word) returns (r: int)
    ensures r == Sign(a.Value() - b)
  {
    if a.isNegative {
      return -1;
    }
    if a.high > 0 {
      return 1;
    }
    if a.low > b {
      return 1;
    }
    if a.low < b {
      return -1;
    }
    return 0;
  }

  // ------------------------------------------------------------------- shifts

  method ShiftLeft(dst: LexInt, a: LexInt, b: word)
    modifies dst
    ensures dst.Bits() == (old(a.Bits()) * Pow2(b)) % WIDE
    ensures dst.isNegative == (old(a.isNegative) && b < 128)
  {
    ShlJoin(a.high, a.low, b);
    dst.isNegative := a.isNegative;
    if b >= 128 {
      Zero(dst);
    } else if b > 64 {
      dst.high := Shl(a.low, b - 64);
      dst.low := 0;
    } else if b == 64 {
      dst.high := a.low;
      dst.low := 0;
    } else if b > 0 {
      dst.high := WrapAdd(Shl(a.high, b), Shr(a.low, 64 - b));
      dst.low := Shl(a.low, b);
    } else {
      dst.high := a.high;
      dst.low := a.low;
    }
  }

  /** Moves the number up by a byte and puts another below it. The bits of the two are apart, so that they can be added.
    */
  method Char(i: LexInt, c: nat)
    requires c < 0x100
    modifies i
    ensures i.Bits() == (old(i.Bits()) * 0x100 + c) % WIDE && i.isNegative == old(i.isNegative)
  {
    ByteBelow(i.high, i.low, c);
    i.high := WrapAdd(Shl(i.high, 8), Shr(i.low, 56));
    i.low := Shl(i.low, 8) + c;
  }

  lemma {:induction false} ByteBelow(h: word, l: word, c: nat)
    requires c < 0x100
    ensures Shl(l, 8) + c < WORD
    ensures Join(WrapAdd(Shl(h, 8), Shr(l, 56)), Shl(l, 8)) + c == (Join(h, l) * 0x100 + c) % WIDE
  {
    Pow2At8();
    ShlBelow64(h, l, 8);
    RoomForByte(l, WORD, c);
    RoomForByte(Join(h, l), WIDE, c);
    hide Pow2, Join, WrapAdd;
  }

  lemma {:induction false} Pow2At8()
    ensures Pow2(8) == 0x100
  {
  }

  lemma {:induction false} RoomForByte(x: nat, size: nat, c: nat)
    requires size > 0 && size % 0x100 == 0 && c < 0x100
    ensures x * 0x100 % size + c < size && x * 0x100 % size + c == (x * 0x100 + c) % size
  {
    var d := size / 0x100;
    var q, r := x / d, x % d;
    assert x * 0x100 == q * size + r * 0x100;
    DivModUnique(x * 0x100, size, q, r * 0x100);
    DivModUnique(x * 0x100 + c, size, q, r * 0x100 + c);
  }

  method ShiftRight(dst: LexInt, a: LexInt, b: word)
    modifies dst
    ensures dst.Bits() == old(a.Bits()) / Pow2(b)
    ensures dst.isNegative == (old(a.isNegative) && b < 128)
  {
    ShrJoin(a.high, a.low, b);
    dst.isNegative := a.isNegative;
    if b >= 128 {
      Zero(dst);
    } else if b > 64 {
      dst.low := Shr(a.high, b - 64);
      dst.high := 0;
    } else if b == 64 {
      dst.low := a.high;
      dst.high := 0;
    } else if b > 0 {
      dst.low := WrapAdd(Shl(a.high, 64 - b), Shr(a.low, b));
      dst.high := Shr(a.high, b);
    } else {
      dst.high := a.high;
      dst.low := a.low;
    }
  }

  /** The two words a left shift leaves, by the size of the shift. */
  lemma {:induction false} ShlJoin(h: word, l: word, b: nat)
    ensures (Join(h, l) * Pow2(b)) % WIDE ==
            if b >= 128 then 0
            else if b > 64 then Join(Shl(l, b - 64), 0)
            else if b == 64 then Join(l, 0)
            else if b > 0 then Join(WrapAdd(Shl(h, b), Shr(l, 64 - b)), Shl(l, b))
            else Join(h, l)
  {
    if b >= 128 {
      ShlOut(h, l, b);
    } else if b > 64 {
      ShlLarge(h, l, Pow2(b - 64));
      Pow2From64(b);
    } else if b == 64 {
      ShlLarge(h, l, 1);
      Pow2At64();
    } else if b > 0 {
      ShlBelow64(h, l, b);
    }
  }

  lemma {:induction false} ShlBelow64(h: word, l: word, b: nat)
    requires 0 < b < 64
    ensures Join(WrapAdd(Shl(h, b), Shr(l, 64 - b)), Shl(l, b)) == (Join(h, l) * Pow2(b)) % WIDE
  {
    var p, c := Pow2(b), Pow2(64 - b);
    Pow2Halves(b);
    ShlSmall(h, l, p, c);
    NoWrap(Shl(h, b), Shr(l, 64 - b));
  }

  lemma {:induction false} NoWrap(x: word, y: word)
    requires x + y < WORD
    ensures WrapAdd(x, y) == x + y
  {
  }

  /** The two words a right shift leaves, by the size of the shift. */
  lemma {:induction false} ShrJoin(h: word, l: word, b: nat)
    ensures Join(h, l) / Pow2(b) ==
            if b >= 128 then 0
            else if b > 64 then Join(0, Shr(h, b - 64))
            else if b == 64 then Join(0, h)
            else if b > 0 then Join(Shr(h, b), WrapAdd(Shl(h, 64 - b), Shr(l, b)))
            else Join(h, l)
  {
    if b >= 128 {
      ShrOut(h, l, b);
    } else if b > 64 {
      ShrLarge(h, l, Pow2(b - 64));
      Pow2From64(b);
    } else if b == 64 {
      ShrLarge(h, l, 1);
      Pow2At64();
    } else if b > 0 {
      Pow2Halves(b);
      ShrSmall(h, l, Pow2(b), Pow2(64 - b));
    }
  }

  lemma {:induction false} Pow2From64(b: nat)
    requires b >= 64
    ensures Pow2(b) == WORD * Pow2(b - 64)
  {
    Pow2At64();
    Pow2Add(64, b - 64);
  }

  lemma {:induction false} Pow2Halves(b: nat)
    requires b <= 64
    ensures Pow2(b) * Pow2(64 - b) == WORD
  {
    Pow2At64();
    Pow2Add(b, 64 - b);
  }

  lemma {:induction false} ShlOut(h: word, l: word, b: nat)
    requires b >= 128
    ensures (Join(h, l) * Pow2(b)) % WIDE == 0
  {
    Pow2At128();
    Pow2Add(b - 128, 128);
    var n, p := Join(h, l), Pow2(b - 128);
    assert n * (p * WIDE) == (n * p) * WIDE;
    DivModUnique(n * Pow2(b), WIDE, n * p, 0);
  }

  lemma {:induction false} ShrOut(h: word, l: word, b: nat)
    requires b >= 128
    ensures Join(h, l) / Pow2(b) == 0
  {
    Pow2At128();
    Pow2Mono(128, b);
    DivModUnique(Join(h, l), Pow2(b), 0, Join(h, l));
  }

  /** Sets one of the 128 bits. */
  method SetBit(dst: LexInt, a: LexInt, b: nat)
    requires b < 128
    modifies dst
    ensures dst.Bits() == if BitSet(old(a.Bits()), b) then old(a.Bits()) else old(a.Bits()) + Pow2(b)
    ensures dst.isNegative == old(a.isNegative)
  {
    BitOfJoin(a.high, a.low, b);
    Copy(dst, a);
    if b >= 64 {
      dst.high := OrBit(dst.high, b - 64);
      Pow2From64(b);
    } else {
      dst.low := OrBit(dst.low, b);
    }
  }

  /** Bits 64 and up of a two-word number are the bits of its high word. */
  lemma {:induction false} BitOfJoin(h: word, l: word, b: nat)
    requires b < 128
    ensures BitSet(Join(h, l), b) == if b >= 64 then BitSet(h, b - 64) else BitSet(l, b)
  {
    if b >= 64 {
      Pow2From64(b);
      ShrLarge(h, l, Pow2(b - 64));
    } else {
      Pow2Halves(b);
      assert Pow2(64 - b) == 2 * Pow2(63 - b);
      HighAbove(h, l, Pow2(b), Pow2(63 - b));
    }
  }

  /** The high word makes only an even difference below it. */
  lemma {:induction false} HighAbove(h: word, l: word, p: nat, c: nat)
    requires p * (2 * c) == WORD && p > 0
    ensures Join(h, l) / p % 2 == l / p % 2
  {
    var q, r := l / p, l % p;
    DivModIs(l, p);
    HighParts(h, l, p, c, q, r);
    var hc := h * c;
    DivModUnique(Join(h, l), p, 2 * hc + q, r);
    EvenPlus(hc, q);
  }

  lemma {:induction false} EvenPlus(x: nat, y: nat)
    ensures (2 * x + y) % 2 == y % 2
  {
  }

  lemma {:induction false} HighParts(h: nat, l: nat, p: nat, c: nat, q: nat, r: nat)
    requires l == q * p + r && p * (2 * c) == WORD
    ensures h * WORD + l == (2 * (h * c) + q) * p + r
  {
    assert h * (p * (2 * c)) == (2 * (h * c)) * p;
    assert (2 * (h * c) + q) * p == (2 * (h * c)) * p + q * p;
  }

  // ----------------------------------------------------- addition, subtraction

  method Add(dst: LexInt, a: LexInt, b: LexInt)
    modifies dst
    ensures dst.Bits() == (old(a.Bits()) + old(b.Bits())) % WIDE
    ensures old(a.Valid() && b.Valid()) ==> dst.Holds(old(a.Value()) + old(b.Value()))
    ensures old(a.isNegative == b.isNegative) ==> dst.isNegative == old(a.isNegative)
  {
    hide Join;
    SignsDropOut(a.Bits(), a.isNegative, b.Bits(), b.isNegative);
    if a.isNegative && !b.isNegative {
      var t := new LexInt();
      Negate(t, a);
      var c := Cmp(t, b);
      dst.isNegative := c > 0;
    } else if !a.isNegative && b.isNegative {
      var t := new LexInt();
      Negate(t, b);
      var c := Cmp(a, t);
      dst.isNegative := c < 0;
    } else {
      dst.isNegative := a.isNegative;
    }
    AddBits(dst, a, b);
  }

  method Add64(dst: LexInt, a: LexInt, b: word)
    modifies dst
    ensures dst.Bits() == (old(a.Bits()) + b) % WIDE
    ensures old(a.Valid()) ==> dst.Holds(old(a.Value()) + b)
  {
    hide Join;
    SignsDropOut(a.Bits(), a.isNegative, b, false);
    if a.isNegative {
      var t := new LexInt();
      Negate(t, a);
      var c := Cmp64(t, b);
      dst.isNegative := c > 0;
    } else {
      dst.isNegative := false;
    }
    AddBits64(dst, a, b);
  }

  method Sub(dst: LexInt, a: LexInt, b: LexInt)
    modifies dst
    ensures dst.Holds(old(a.Value()) - old(b.Value()))
  {
    hide Join;
    SignsDropOut(a.Bits(), a.isNegative, b.Bits(), b.isNegative);
    if a.isNegative == b.isNegative {
      var c := Cmp(a, b);
      dst.isNegative := c < 0;
    } else {
      dst.isNegative := a.isNegative;
    }
    SubBits(dst, a, b);
  }

  method Sub64(dst: LexInt, a: LexInt, b: word)
    modifies dst
    ensures dst.Holds(old(a.Value()) - b)
  {
    hide Join;
    SignsDropOut(a.Bits(), a.isNegative, b, false);
    var c := Cmp64(a, b);
    dst.isNegative := c < 0;
    SubBits64(dst, a, b);
  }

  method Negate(dst: LexInt, src: LexInt)
    modifies dst
    ensures dst.Holds(-old(src.Value()))
  {
    var t := new LexInt();
    Sub(dst, t, src);
  }

  // The two assignments each of the four routines above ends with. The high word is
  // written first, from words that must still be those of the operands.

  method AddBits(dst: LexInt, a: LexInt, b: LexInt)
    modifies dst`high, dst`low
    ensures dst.Bits() == (old(a.Bits()) + old(b.Bits())) % WIDE
  {
    AddJoin(a.high, a.low, b.high, b.low);
    dst.high := WrapAdd(WrapAdd(a.high, b.high), Carry(a.low, b.low));
    dst.low := WrapAdd(a.low, b.low);
  }

  method AddBits64(dst: LexInt, a: LexInt, b: word)
    modifies dst`high, dst`low
    ensures dst.Bits() == (old(a.Bits()) + b) % WIDE
  {
    AddJoin(a.high, a.low, 0, b);
    assert WrapAdd(a.high, 0) == a.high;
    dst.high := WrapAdd(a.high, Carry(a.low, b));
    dst.low := WrapAdd(a.low, b);
  }

  method SubBits(dst: LexInt, a: LexInt, b: LexInt)
    modifies dst`high, dst`low
    ensures dst.Bits() == (old(a.Bits()) - old(b.Bits())) % WIDE
  {
    SubJoin(a.high, a.low, b.high, b.low);
    dst.high := WrapSub(WrapSub(a.high, b.high), Borrow(a.low, b.low));
    dst.low := WrapSub(a.low, b.low);
  }

  method SubBits64(dst: LexInt, a: LexInt, b: word)
    modifies dst`high, dst`low
    ensures dst.Bits() == (old(a.Bits()) - b) % WIDE
  {
    SubJoin(a.high, a.low, 0, b);
    assert WrapSub(a.high, 0) == a.high;
    dst.high := WrapSub(a.high, Borrow(a.low, b));
    dst.low := WrapSub(a.low, b);
  }
}
