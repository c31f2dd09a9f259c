/** The non-negative finite numbers of IEEE 754-2008 binary64 (section 3.4), by their encoding,
  * and what it means to round a number to one of them to nearest, ties to even (section 4.3.1).
  */
module Binary64 {
  import opened Words

  /** 2^52: the weight of the biased exponent within an encoding. */
  const HIDDEN: int := 0x10_0000_0000_0000

  /** One past the largest finite encoding: biased exponent 2047 is for infinities and NaNs. */
  const INFINITY: int := 2047 * HIDDEN

  /** An encoding with sign 0 of a finite number. */
  type encoding = b: int | 0 <= b < INFINITY

  /** The smallest positive number is 2^-1074, and every number is a multiple of it. */
  const SCALE: nat := 1074

  /** The number encoded, times 2^1074: subnormals have no hidden bit. */
  ghost function Scaled(b: encoding): nat {
    var e, f := b / HIDDEN, b % HIDDEN;
    if e == 0 then f else (HIDDEN + f) * Pow2(e - 1)
  }

  /** The gap between an encoding's number and that of the next encoding, scaled likewise. */
  ghost function Ulp(b: encoding): nat {
    var e := b / HIDDEN;
    Pow2(if e == 0 then 0 else e - 1)
  }

  ghost function Distance(x: nat, y: nat): nat {
    if x < y then y - x else x - y
  }

  /** `r` encodes a number nearest to `n`, and of two equally near ones the one with an even last bit. */
  ghost predicate RoundsTo(n: nat, r: encoding) {
    var x := n * Pow2(SCALE);
    forall d: encoding ::
      && Distance(Scaled(r), x) <= Distance(Scaled(d), x)
      && (d != r && Distance(Scaled(r), x) == Distance(Scaled(d), x) ==> r % 2 == 0)
  }

  /** At most one encoding meets that description. */
  lemma {:induction false} RoundingUnique(n: nat, r: encoding, r': encoding)
    requires RoundsTo(n, r) && RoundsTo(n, r')
    ensures r == r'
  {
    if r != r' {
      var x := n * Pow2(SCALE);
      assert Distance(Scaled(r), x) == Distance(Scaled(r'), x);
      if r < r' { Between(r, r', x); } else { Between(r', r, x); }
    }
  }

  /** Two even encodings always have a third, nearer one between them when they are equally near. */
  lemma {:induction false} Between(a: encoding, c: encoding, x: nat)
    requires a < c && a % 2 == 0 && c % 2 == 0
    requires Distance(Scaled(a), x) == Distance(Scaled(c), x)
    ensures Distance(Scaled(a + 1), x) < Distance(Scaled(a), x)
  {
    hide Scaled;
    OddBetween(a, c);
    Increasing(a, a + 1);
    Increasing(a + 1, c);
  }

  lemma {:induction false} OddBetween(a: nat, c: nat)
    requires a < c && a % 2 == 0 && c % 2 == 0
    ensures a + 1 < c
  {
  }

  lemma {:induction false} NextAbove(b: encoding)
    requires b + 1 < INFINITY
    ensures Scaled(b + 1) == Scaled(b) + Ulp(b)
  {
    var e, f := b / HIDDEN, b % HIDDEN;
    assert b == e * HIDDEN + f;
    if f + 1 < HIDDEN {
      assert (b + 1) / HIDDEN == e && (b + 1) % HIDDEN == f + 1;
      if e > 0 { DistributeOne(HIDDEN + f, Pow2(e - 1)); }
    } else {
      assert b + 1 == (e + 1) * HIDDEN;
      assert (b + 1) / HIDDEN == e + 1 && (b + 1) % HIDDEN == 0;
      if e > 0 {
        DistributeOne(HIDDEN + f, Pow2(e - 1));
        assert HIDDEN * (2 * Pow2(e - 1)) == (2 * HIDDEN) * Pow2(e - 1);
      } else {
        assert Pow2(0) == 1;
      }
    }
  }

  lemma {:induction false} DistributeOne(a: int, p: int)
    ensures (a + 1) * p == a * p + p
  {
  }

  /** Encodings are ordered as the numbers they encode. */
  lemma {:induction false} Increasing(a: encoding, b: encoding)
    requires a < b
    ensures Scaled(a) < Scaled(b)
    decreases b - a
  {
    NextAbove(a);
    if a + 1 < b {
      Increasing(a + 1, b);
    }
  }

  /** Rounding picks one of the two neighbours, by which half of the gap the number is in. */
  lemma {:induction false} NearerNeighbour(n: nat, lo: encoding, r: encoding)
    requires lo + 1 < INFINITY
    requires var x := n * Pow2(SCALE);
             Scaled(lo) <= x < Scaled(lo) + Ulp(lo) &&
             var below := x - Scaled(lo);
             var above := Scaled(lo) + Ulp(lo) - x;
             r == if below > above || (below == above && lo % 2 == 1) then lo + 1 else lo
    ensures RoundsTo(n, r)
  {
    var x := n * Pow2(SCALE);
    NextAbove(lo);
    hide Scaled, Ulp, Pow2, Distance;
    forall d: encoding
      ensures Distance(Scaled(r), x) <= Distance(Scaled(d), x)
      ensures d != r && Distance(Scaled(r), x) == Distance(Scaled(d), x) ==> r % 2 == 0
    {
      if d < lo {
        Increasing(d, lo);
      } else if d > lo + 1 {
        Increasing(lo + 1, d);
      }
      NearerOfTwo(lo, Scaled(lo), Scaled(lo + 1), x, d, Scaled(d), r);
    }
  }

  /** The same for the numbers the encodings stand for: `a` and `c` for the neighbours, `s` for any other. */
  lemma {:induction false} NearerOfTwo(lo: nat, a: nat, c: nat, x: nat, d: nat, s: nat, r: nat)
    requires a <= x < c && r == if x - a > c - x || (x - a == c - x && lo % 2 == 1) then lo + 1 else lo
    requires (d < lo ==> s < a) && (d == lo ==> s == a) && (d == lo + 1 ==> s == c) && (d > lo + 1 ==> s > c)
    ensures var best := if r == lo then a else c;
            && Distance(best, x) <= Distance(s, x)
            && (d != r && Distance(best, x) == Distance(s, x) ==> r % 2 == 0)
  {
    HalfOrder(a, c, x, s);
  }

  /** How far from `x` are two numbers around it and a third that is not between them. */
  lemma {:induction false} HalfOrder(lo: nat, hi: nat, x: nat, d: nat)
    requires lo <= x < hi && (d <= lo || hi <= d)
    ensures x - lo < hi - x ==> Distance(lo, x) <= Distance(d, x) && (d != lo ==> Distance(lo, x) < Distance(d, x))
    ensures x - lo > hi - x ==> Distance(hi, x) <= Distance(d, x) && (d != hi ==> Distance(hi, x) < Distance(d, x))
    ensures x - lo == hi - x ==> Distance(lo, x) == Distance(hi, x) <= Distance(d, x)
    ensures x - lo == hi - x && d != lo && d != hi ==> Distance(lo, x) < Distance(d, x)
  {
  }

  /** The encoding of a normal number with biased exponent `e` and 53-bit significand `m`. */
  lemma {:induction false} ScaledNormal(e: nat, m: nat)
    requires 0 < e < 2047 && HIDDEN <= m < 2 * HIDDEN
    ensures var b := e * HIDDEN + (m - HIDDEN);
            0 <= b < INFINITY && Scaled(b) == m * Pow2(e - 1) && Ulp(b) == Pow2(e - 1) && b % 2 == m % 2
  {
    hide Pow2;
    var b := e * HIDDEN + (m - HIDDEN);
    DivModUnique(b, HIDDEN, e, m - HIDDEN);
    assert b == m + 2 * (e * (HIDDEN / 2) - HIDDEN / 2);
  }
}
