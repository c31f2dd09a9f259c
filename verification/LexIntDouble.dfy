/** Conversion of a literal to a double, done by hand on its bits. */
module LexDouble {
  import opened Words
  import opened Shifts
  import opened LexInts
  import opened Binary64

  // -------------------------------------------------------- counting zeros

  /** `n` has exactly `s` significant bits. */
  ghost predicate Significant(n: nat, s: nat) {
    s > 0 && Pow2(s - 1) <= n < Pow2(s)
  }

  /** `m` is `n` moved up by `count` bits without loss, and has its top set bit at `from` or above. */
  ghost predicate MovedUp(n: nat, m: word, count: nat, from: nat) {
    m == n * Pow2(count) && Pow2(from) <= m
  }

  /** One probe of the search: are the top `s` bits of `m` clear? */
  lemma {:induction false} ProbeTop(n: nat, m: word, count: nat, s: nat)
    requires 0 < s < 64 && 64 - s >= s
    requires MovedUp(n, m, count, 64 - 2 * s)
    ensures Shr(m, 64 - s) != 0 ==> MovedUp(n, m, count, 64 - s)
    ensures Shr(m, 64 - s) == 0 ==> MovedUp(n, Shl(m, s), count + s, 64 - s)
  {
    var d := Pow2(64 - s);
    DivModIs(m, d);
    if Shr(m, 64 - s) == 0 {
      assert m < d by { assert m / d == 0; }
      ShlExact(m, s);
      ProbeClear(n, m, count, s);
    } else {
      MulMono(1, m / d, d);
    }
  }

  lemma {:induction false} ShlExact(m: word, s: nat)
    requires s < 64 && m < Pow2(64 - s)
    ensures Shl(m, s) == m * Pow2(s)
  {
    ScaleBelow64(m, s);
    hide Pow2;
  }

  lemma {:induction false} ScaleBelow64(m: nat, s: nat)
    requires s < 64 && m < Pow2(64 - s)
    ensures m * Pow2(s) < WORD
  {
    Pow2At64();
    Pow2Add(64 - s, s);
    BelowScaled(m, Pow2(64 - s), Pow2(s));
  }

  lemma {:induction false} ProbeClear(n: nat, m: word, count: nat, s: nat)
    requires 0 < s && 64 >= 2 * s
    requires MovedUp(n, m, count, 64 - 2 * s)
    ensures m * Pow2(s) == n * Pow2(count + s) && Pow2(64 - s) <= m * Pow2(s)
  {
    Pow2Add(64 - 2 * s, s);
    MulMono(Pow2(64 - 2 * s), m, Pow2(s));
    Pow2Add(count, s);
    Regroup(n, Pow2(count), Pow2(s));
  }

  lemma {:induction false} Regroup(a: int, b: int, c: int)
    ensures (a * b) * c == a * (b * c)
  {
  }

  lemma {:induction false} BelowScaled(m: nat, d: nat, p: nat)
    requires m < d && p > 0
    ensures m * p < d * p
  {
    MulMono(m + 1, d, p);
    assert (m + 1) * p == m * p + p;
  }

  /** Moved up until its top bit is the top bit of the word, a number shows how many bits it had. */
  lemma {:induction false} TopReached(n: nat, m: word, count: nat)
    requires MovedUp(n, m, count, 63) && count < 64
    ensures Significant(n, 64 - count)
  {
    Pow2At64();
    Pow2Add(63 - count, count);
    Pow2Add(64 - count, count);
    if n < Pow2(63 - count) {
      BelowScaled(n, Pow2(63 - count), Pow2(count));
    }
    if n >= Pow2(64 - count) {
      MulMono(Pow2(64 - count), n, Pow2(count));
    }
  }

  method CountLeadingZeros(n: word) returns (count: nat)
    ensures count <= 64
    ensures n == 0 ==> count == 64
    ensures n != 0 ==> count < 64 && Significant(n, 64 - count)
  {
    hide *;
    if n == 0 {
      return 64;
    }
    var m := n;
    count := 0;
    Unmoved(n);
    ProbeTop(n, m, count, 32);
    if Shr(m, 32) == 0 { count := count + 32; m := Shl(m, 32); }
    ProbeTop(n, m, count, 16);
    if Shr(m, 48) == 0 { count := count + 16; m := Shl(m, 16); }
    ProbeTop(n, m, count, 8);
    if Shr(m, 56) == 0 { count := count + 8; m := Shl(m, 8); }
    ProbeTop(n, m, count, 4);
    if Shr(m, 60) == 0 { count := count + 4; m := Shl(m, 4); }
    ProbeTop(n, m, count, 2);
    if Shr(m, 62) == 0 { count := count + 2; m := Shl(m, 2); }
    ProbeTop(n, m, count, 1);
    if Shr(m, 63) == 0 { count := count + 1; m := Shl(m, 1); }
    TopReached(n, m, count);
  }

  lemma {:induction false} Unmoved(n: word)
    requires n > 0
    ensures MovedUp(n, n, 0, 0)
  {
    assert Pow2(0) == 1;
  }

  // ------------------------------------------------------------- rounding

  lemma {:induction false} SignificantJoin(h: word, l: word, s: nat)
    requires Significant(h, s)
    ensures Significant(Join(h, l), s + 64)
  {
    Pow2At64();
    Pow2Add(s - 1, 64);
    Pow2Add(s, 64);
  }

  /** 55 bits that decide the rounding of a number of `s` bits: the 53 bits to keep, a bit that is set when
    * at least half a unit is dropped, and a bit that is set when anything but half a unit is.
    */
  ghost predicate Kept(n: nat, s: nat, m: nat) {
    s >= 54 && m / 4 == n / Pow2(s - 53) &&
    var dropped, half := n % Pow2(s - 53), Pow2(s - 54);
    (m % 4 == 3 <==> dropped > half) && (m % 4 == 2 <==> dropped == half)
  }

  lemma {:induction false} Kept54(n: nat)
    ensures Kept(n, 54, 2 * n)
  {
    assert Pow2(0) == 1 && Pow2(1) == 2;
  }

  lemma {:induction false} Kept55(n: nat)
    ensures Kept(n, 55, n)
  {
    assert Pow2(0) == 1 && Pow2(1) == 2 && Pow2(2) == 4;
  }

  /** The sticky bit: set when the bits shifted out are not all zero. */
  lemma {:induction false} KeptSticky(n: nat, s: nat, t: word, m: word)
    requires s > 55 && t == n / Pow2(s - 55)
    requires m == if t * Pow2(s - 55) == n then t else OrBit(t, 0)
    ensures Kept(n, s, m)
  {
    hide OrBit, BitSet;
    var p := Pow2(s - 55);
    assert Pow2(s - 54) == 2 * p && Pow2(s - 53) == 4 * p;
    DropTwoMore(n, p);
    DivModIs(n, p);
    OrLowest(t);
    StickyBit(t, n % p, m);
    QuarterOrder(t % 4, p, n % p);
  }

  lemma {:induction false} StickyBit(t: nat, r: nat, m: nat)
    requires m == if r > 0 && t % 2 == 0 then t + 1 else t
    ensures m / 4 == t / 4
    ensures m % 4 == 3 <==> t % 4 == 3 || (t % 4 == 2 && r > 0)
    ensures m % 4 == 2 <==> t % 4 == 2 && r == 0
  {
    QuarterSplit(t / 4, t % 4);
    QuarterSplit(t / 4, t % 4 + 1);
  }

  lemma {:induction false} DropTwoMore(n: nat, p: nat)
    requires p > 0
    ensures n / (4 * p) == n / p / 4
    ensures n % (4 * p) == (n / p % 4) * p + n % p
  {
    DivModIs(n, p);
    FourFold(n / p / 4, n / p % 4, p, n % p);
    DivModUnique(n, 4 * p, n / p / 4, (n / p % 4) * p + n % p);
  }

  lemma {:induction false} FourFold(q: nat, g: nat, p: nat, r: nat)
    requires g < 4 && r < p
    ensures (4 * q + g) * p + r == q * (4 * p) + (g * p + r) && g * p + r < 4 * p
  {
    MulMono(g, 3, p);
    Regroup(q, 4, p);
  }

  lemma {:induction false} OrLowest(t: word)
    ensures OrBit(t, 0) == if t % 2 == 1 then t else t + 1
  {
    assert Pow2(0) == 1;
  }

  lemma {:induction false} QuarterOrder(g: nat, p: nat, r: nat)
    requires g < 4 && r < p
    ensures g * p + r > 2 * p <==> g == 3 || (g == 2 && r > 0)
    ensures g * p + r == 2 * p <==> g == 2 && r == 0
  {
  }

  /** Setting the lowest bit of an odd significand makes adding one carry exactly when it must round up. */
  lemma {:induction false} RoundHalfEven(m: nat)
    ensures var odd := m / 4 % 2 == 1;
            var m' := if odd && m % 2 == 0 then m + 1 else m;
            (m' + 1) / 4 == m / 4 + if m % 4 == 3 || (m % 4 == 2 && odd) then 1 else 0
  {
    QuarterSplit(m / 4, m % 4);
    QuarterSplit(m / 4, m % 4 + 1);
    QuarterSplit(m / 4, m % 4 + 2);
  }

  lemma {:induction false} QuarterSplit(q: nat, g: nat)
    requires g < 6
    ensures (4 * q + g) / 4 == (if g < 4 then q else q + 1)
    ensures (4 * q + g) % 4 == (if g < 4 then g else g - 4)
    ensures (4 * q + g) % 2 == g % 2
  {
    if g < 4 {
      DivModUnique(4 * q + g, 4, q, g);
    } else {
      DivModUnique(4 * q + g, 4, q + 1, g - 4);
    }
    DivModUnique(4 * q + g, 2, 2 * q + g / 2, g % 2);
  }

  /** The bits of a double, put together from its exponent and its 53-bit significand. */
  function Assemble(exponent: nat, m: nat): nat {
    (exponent + 1023) * HIDDEN + m % HIDDEN
  }

  /** Numbers of at most 53 bits are encoded exactly. */
  lemma {:induction false} ExactDouble(n: nat, s: nat)
    requires Significant(n, s) && s <= 53
    ensures n < WORD && 53 - s < 64
    ensures var raw := Assemble(s - 1, Shl(n, 53 - s));
            raw < INFINITY && RoundsTo(n, raw)
  {
    ShlFits(n, s);
    ExactScaled(n, s);
    hide RoundsTo, Scaled, Ulp, Significant, Pow2, Shl, Assemble;
    var raw: encoding := Assemble(s - 1, n * Pow2(53 - s));
    NearerNeighbour(n, raw, raw);
  }

  /** Such a number is itself encoded, and below the largest encoding. */
  lemma {:induction false} ExactScaled(n: nat, s: nat)
    requires Significant(n, s) && s <= 53
    ensures var raw := Assemble(s - 1, n * Pow2(53 - s));
            0 <= raw && raw + 1 < INFINITY && Scaled(raw) == n * Pow2(SCALE) && Ulp(raw) > 0
  {
    hide Scaled, Ulp;
    var m := n * Pow2(53 - s);
    SignificandRange(n, s);
    ScaledNormal(s - 1 + 1023, m);
    Pow2Add(53 - s, s + 1021);
    Regroup(n, Pow2(53 - s), Pow2(s + 1021));
    UlpPositive(s + 1021);
    hide Significant, Pow2;
  }

  lemma {:induction false} UlpPositive(e: nat)
    ensures Pow2(e) > 0
  {
  }

  lemma {:induction false} ShlFits(n: nat, s: nat)
    requires Significant(n, s) && s <= 53
    ensures n < WORD && Shl(n, 53 - s) == n * Pow2(53 - s)
  {
    SignificandRange(n, s);
    MulMono(1, Pow2(53 - s), n);
  }

  lemma {:induction false} Pow2At53()
    ensures Pow2(52) == HIDDEN && Pow2(53) == 2 * HIDDEN
  {
    assert Pow2(13) == 0x2000;
    Pow2Add(13, 13);
    Pow2Add(26, 26);
  }

  lemma {:induction false} SignificandRange(n: nat, s: nat)
    requires Significant(n, s) && s <= 53
    ensures HIDDEN <= n * Pow2(53 - s) < 2 * HIDDEN
  {
    Pow2At53();
    Pow2Add(s - 1, 53 - s);
    Pow2Add(s, 53 - s);
    MulMono(Pow2(s - 1), n, Pow2(53 - s));
    BelowScaled(n, Pow2(s), Pow2(53 - s));
  }

  /** The significand kept of a longer number. */
  lemma {:induction false} KeptRange(n: nat, s: nat)
    requires Significant(n, s) && s > 53
    ensures HIDDEN <= n / Pow2(s - 53) < 2 * HIDDEN
  {
    var p := Pow2(s - 53);
    Pow2At53();
    Pow2Add(52, s - 53);
    Pow2Add(53, s - 53);
    DivBelow(n, p, 2 * HIDDEN);
    DivModIs(n, p);
    if n / p < HIDDEN {
      MulMono(n / p + 1, HIDDEN, p);
      DistributeOne(n / p, p);
    }
  }

  /** The encoding just below a number of more than 53 bits, and where between it and the next it lies. */
  lemma {:induction false} Neighbours(n: nat, s: nat)
    requires Significant(n, s) && 53 < s <= 128
    ensures var m, dropped := n / Pow2(s - 53), n % Pow2(s - 53);
            HIDDEN <= m < 2 * HIDDEN &&
            var lo := (s + 1022) * HIDDEN + (m - HIDDEN);
            0 <= lo < INFINITY - 1 && lo % 2 == m % 2 &&
            Scaled(lo) + dropped * Pow2(SCALE) == n * Pow2(SCALE) &&
            Ulp(lo) == (2 * Pow2(s - 54)) * Pow2(SCALE) && dropped < 2 * Pow2(s - 54)
  {
    var p := Pow2(s - 53);
    var m, dropped := n / p, n % p;
    KeptRange(n, s);
    ScaledNormal(s + 1022, m);
    DivModIs(n, p);
    assert p == 2 * Pow2(s - 54);
    Pow2Add(s - 53, SCALE);
    hide Scaled, Ulp, Significant, Pow2;
    ScaleUp(n, m, p, dropped, Pow2(SCALE));
  }

  lemma {:induction false} ScaleUp(n: int, m: int, p: int, dropped: int, scale: int)
    requires n == m * p + dropped
    ensures m * (p * scale) + dropped * scale == n * scale
  {
    Regroup(m, p, scale);
    assert (m * p + dropped) * scale == (m * p) * scale + dropped * scale;
  }

  /** Longer numbers round to the nearest, ties to even; a significand rounded up to 2^53 gives its carry
    * to the exponent.
    */
  lemma {:induction false} RoundedDouble(n: nat, s: nat, m: nat, dropped: nat, q: nat)
    requires Significant(n, s) && 53 < s <= 128
    requires m == n / Pow2(s - 53) && dropped == n % Pow2(s - 53)
    requires var half := Pow2(s - 54);
             q == m + if dropped > half || (dropped == half && m % 2 == 1) then 1 else 0
    ensures HIDDEN <= q <= 2 * HIDDEN
    ensures var raw := if q == 2 * HIDDEN then Assemble(s, HIDDEN) else Assemble(s - 1, q);
            raw < INFINITY && RoundsTo(n, raw)
  {
    hide *;
    Neighbours(n, s);
    var lo := (s + 1022) * HIDDEN + (m - HIDDEN);
    Halfway(dropped, Pow2(s - 54), Pow2(SCALE));
    NearerNeighbour(n, lo, lo + q - m);
    CarryToExponent(s, q);
  }

  lemma {:induction false} CarryToExponent(s: nat, q: nat)
    requires s > 0 && HIDDEN <= q <= 2 * HIDDEN
    ensures (if q == 2 * HIDDEN then Assemble(s, HIDDEN) else Assemble(s - 1, q)) == (s + 1022) * HIDDEN + (q - HIDDEN)
  {
  }

  lemma {:induction false} Halfway(dropped: nat, half: nat, p: nat)
    requires p > 0 && dropped < 2 * half
    ensures var below, above := dropped * p, (2 * half) * p - dropped * p;
            0 <= below < (2 * half) * p &&
            (below > above <==> dropped > half) && (below == above <==> dropped == half)
  {
    var above := 2 * half - dropped;
    assert (2 * half) * p - dropped * p == above * p;
    if dropped > half {
      BelowScaled(above, dropped, p);
    } else if dropped < half {
      BelowScaled(dropped, above, p);
    }
    BelowScaled(dropped, 2 * half, p);
  }

  // ------------------------------------------------------------ the conversion

  lemma {:induction false} KeptFits(n: nat, s: nat)
    requires Significant(n, s) && 55 < s <= 128 && n < WIDE
    ensures n / Pow2(s - 55) < Pow2(55) < WORD
    ensures n / Pow2(s - 55) * Pow2(s - 55) <= n
    ensures (n / Pow2(s - 55) * Pow2(s - 55)) % WIDE == n / Pow2(s - 55) * Pow2(s - 55)
  {
    assert n < Pow2(s) && Pow2(55) == 4 * Pow2(53) && Pow2(s - 55) > 0;
    Pow2At53();
    hide Pow2, Significant;
    Pow2Add(55, s - 55);
    assert 55 + (s - 55) == s;
    QuotientFits(n, Pow2(s - 55), Pow2(55));
  }

  lemma {:induction false} QuotientFits(n: nat, p: nat, q: nat)
    requires p > 0 && n < q * p && n < WIDE
    ensures n / p < q && n / p * p <= n && (n / p * p) % WIDE == n / p * p
  {
    DivBelow(n, p, q);
    DivModIs(n, p);
    MultipleBelow(n / p * p);
  }

  lemma {:induction false} MultipleBelow(m: int)
    requires 0 <= m < WIDE
    ensures m % WIDE == m
  {
  }

  /** The 55 bits of a number of `s` bits that its rounding depends on. */
  method KeepBits(i: LexInt, s: nat) returns (mantissa: word)
    requires 53 < s <= 128 && Significant(i.Bits(), s)
    requires s <= 64 ==> i.high == 0
    ensures Kept(i.Bits(), s, mantissa)
  {
    hide Kept, Significant;
    if s == 54 {
      Kept54(i.Bits());
      SmallFits(i.Bits(), s);
      mantissa := Shl(i.low, 1);
    } else if s > 55 {
      mantissa := KeepSticky(i, s);
    } else {
      Kept55(i.Bits());
      mantissa := i.low;
    }
  }

  /** Shifts all but 55 bits out, and sets the lowest bit left if anything is lost. */
  method KeepSticky(i: LexInt, s: nat) returns (mantissa: word)
    requires 55 < s <= 128 && Significant(i.Bits(), s)
    ensures Kept(i.Bits(), s, mantissa)
  {
    hide Kept, Significant, Pow2;
    KeptFits(i.Bits(), s);
    var t := new LexInt();
    ShiftRight(t, i, s - 55);
    mantissa := t.low;
    ghost var kept := t.Bits();
    ShiftLeft(t, t, s - 55);
    var c := Cmp(t, i);
    if c != 0 {
      mantissa := OrBit(mantissa, 0);
    }
    hide OrBit;
    KeptSticky(i.Bits(), s, kept, mantissa);
  }

  lemma {:induction false} SmallFits(n: nat, s: nat)
    requires Significant(n, s) && s <= 54
    ensures 2 * n < WORD && (n * Pow2(1)) % WORD == 2 * n
  {
    Pow2Mono(s, 54);
    Pow2At53();
    assert Pow2(1) == 2;
  }

  lemma {:induction false} Quarter()
    ensures Pow2(2) == 4
  {
  }

  /** Rounds 55 bits to 53, ties to even. */
  method RoundBits(mantissa: word) returns (m: word)
    requires mantissa < 8 * HIDDEN
    ensures m == mantissa / 4 + if mantissa % 4 == 3 || (mantissa % 4 == 2 && mantissa / 4 % 2 == 1) then 1 else 0
  {
    Quarter();
    OrLowest(mantissa);
    RoundHalfEven(mantissa);
    hide Pow2;
    m := mantissa;
    if BitSet(m, 2) {
      m := OrBit(m, 0);
    }
    hide OrBit;
    m := Shr(WrapAdd(m, 1), 2);
  }

  /** The bits of the double a literal converts to; its sign flag plays no part. */
  method ToDouble(i: LexInt) returns (raw: word)
    ensures raw < INFINITY && RoundsTo(i.Bits(), raw)
  {
    hide RoundsTo, Kept, Significant, Pow2, Shl, Shr, BitSet;
    if i.low == 0 && i.high == 0 {
      ZeroRounds();
      return 0;
    }
    var zeros := CountLeadingZeros(i.high);
    var s := 128 - zeros;
    if i.high == 0 {
      zeros := CountLeadingZeros(i.low);
      s := 64 - zeros;
    } else {
      SignificantJoin(i.high, i.low, 64 - zeros);
    }
    var exponent: word := s - 1;
    var mantissa := i.low;
    if s <= 53 {
      ExactDouble(i.Bits(), s);
      mantissa := Shl(mantissa, 53 - s);
    } else {
      mantissa := KeepBits(i, s);
      KeptBounds(i.Bits(), s, mantissa);
      var kept := mantissa;
      mantissa := RoundBits(mantissa);
      KeptRounds(i.Bits(), s, kept, mantissa);
      if BitSet(mantissa, 53) {
        mantissa := Shr(mantissa, 1);
        exponent := exponent + 1;
      }
    }
    ShiftExponent(exponent + 1023);
    raw := Shl(exponent + 1023, 52) + mantissa % HIDDEN;
  }

  lemma {:induction false} ZeroRounds()
    ensures RoundsTo(0, 0)
  {
    forall d: encoding | d != 0
      ensures Scaled(0) < Scaled(d)
    {
      Increasing(0, d);
    }
  }

  lemma {:induction false} KeptBounds(n: nat, s: nat, m: nat)
    requires Significant(n, s) && Kept(n, s, m)
    ensures m < 8 * HIDDEN
  {
    KeptRange(n, s);
  }

  lemma {:induction false} KeptRounds(n: nat, s: nat, kept: nat, q: word)
    requires Significant(n, s) && 53 < s <= 128 && Kept(n, s, kept)
    requires q == kept / 4 + if kept % 4 == 3 || (kept % 4 == 2 && kept / 4 % 2 == 1) then 1 else 0
    ensures BitSet(q, 53) <==> q == 2 * HIDDEN
    ensures q == 2 * HIDDEN ==> Shr(q, 1) == HIDDEN
    ensures var raw := if q == 2 * HIDDEN then Assemble(s, HIDDEN) else Assemble(s - 1, q);
            raw < INFINITY && RoundsTo(n, raw)
  {
    hide RoundsTo;
    RoundedDouble(n, s, kept / 4, n % Pow2(s - 53), q);
    Pow2At53();
    assert Pow2(1) == 2;
    assert q / (2 * HIDDEN) == if q == 2 * HIDDEN then 1 else 0;
  }

  lemma {:induction false} ShiftExponent(e: nat)
    requires e < 2048
    ensures Shl(e, 52) == e * HIDDEN
  {
    Pow2At53();
  }
}
