/** Number literals written out, and read back as what was written. */
module LexWritten {
  import opened Wrappers
  import opened Words
  import opened LexCursor
  import opened LexNumber
  import opened LexInts
  import opened LexIntMul
  import opened Shifts

  // ------------------------------------------------------------ writing numerals

  /** A digit of a numeral: whether an underscore comes before it, and whether it is a capital letter. */
  datatype Mark = Mark(underscore: bool, digit: nat, capital: bool)

  function DigitChar(digit: nat, capital: bool): char
    requires digit < 36
  {
    (digit + if digit < 10 then '0' as int else (if capital then 'A' as int else 'a' as int) - 10) as char
  }

  predicate Below(ms: seq<Mark>, base: nat) {
    forall m :: m in ms ==> m.digit < base
  }

  function Spelled(ms: seq<Mark>): string
    requires Below(ms, 36)
  {
    if ms == [] then "" else
      assert ms[0] in ms;
      (if ms[0].underscore then "_" else "") + [DigitChar(ms[0].digit, ms[0].capital)] + Spelled(ms[1..])
  }

  /** The number a list of digits stands for: each weighs the base to the power of the number of digits after it. */
  function NumberOf(ms: seq<Mark>, base: nat): nat {
    if ms == [] then 0 else ms[0].digit * Power(base, |ms| - 1) + NumberOf(ms[1..], base)
  }

  function DigitsIn(ms: seq<Mark>): (ds: seq<nat>)
    ensures |ds| == |ms|
  {
    if ms == [] then [] else [ms[0].digit] + DigitsIn(ms[1..])
  }

  lemma {:induction false} ValuePositional(ms: seq<Mark>, base: nat)
    ensures Positional(0, base, DigitsIn(ms)) == NumberOf(ms, base)
  {
    if ms != [] {
      ValuePositional(ms[1..], base);
      var ds := DigitsIn(ms);
      assert ds[1..] == DigitsIn(ms[1..]) && ds[0] == ms[0].digit;
      PositionalWeights(0, base, ds);
    }
  }

  lemma {:induction false} PositionalSum(v: nat, base: nat, ds: seq<nat>, more: seq<nat>)
    ensures Positional(Positional(v, base, ds), base, more) == Positional(v, base, ds + more)
    decreases ds
  {
    if ds == [] {
      assert ds + more == more;
    } else {
      PositionalSum(Appended(v, ds[0], base), base, ds[1..], more);
      assert (ds + more)[1..] == ds[1..] + more;
    }
  }

  lemma {:induction false} DigitsInCons(ms: seq<Mark>)
    requires ms != []
    ensures DigitsIn(ms) == [ms[0].digit] + DigitsIn(ms[1..])
  {
  }

  lemma {:induction false} DigitsInSum(ms: seq<Mark>, more: seq<Mark>)
    ensures DigitsIn(ms + more) == DigitsIn(ms) + DigitsIn(more)
  {
    if ms == [] {
      assert ms + more == more;
    } else {
      DigitsInSum(ms[1..], more);
      DigitsInCons(ms);
      DigitsInCons(ms + more);
      hide DigitsIn;
      assert (ms + more)[1..] == ms[1..] + more && (ms + more)[0] == ms[0];
      Front([ms[0].digit], DigitsIn(ms[1..]), DigitsIn(more));
    }
  }

  // ------------------------------------------------------------ reading numerals

  lemma {:induction false} DigitCharIs(digit: nat, capital: bool)
    requires digit < 36
    ensures var c := DigitChar(digit, capital);
            && DigitOf(c) == Some(digit) && c != '_' && (c == 'e' || c == 'E' <==> digit == 14)
            && (Decimal(c) <==> digit < 10)
  {
  }

  lemma {:induction false} NumeralCons(c: char, s: string, endOnE: bool)
    requires InNumeral(c, endOnE)
    ensures Numeral([c] + s, endOnE) == [c] + Numeral(s, endOnE)
  {
    assert ([c] + s)[1..] == s;
  }

  lemma {:induction false} Front<T>(a: seq<T>, b: seq<T>, c: seq<T>)
    ensures (a + b) + c == a + (b + c)
  {
  }

  /** The parts of a spelled numeral: an underscore or not, a digit, and the others. */
  lemma {:induction false} SpelledCons(ms: seq<Mark>, base: nat)
    requires ms != [] && Below(ms, base) && base <= 36
    ensures ms[0].digit < base && Below(ms[1..], base)
    ensures var c := DigitChar(ms[0].digit, ms[0].capital);
            Spelled(ms) == (if ms[0].underscore then ['_'] + ([c] + Spelled(ms[1..])) else [c] + Spelled(ms[1..]))
  {
    assert ms[0] in ms;
  }

  lemma {:induction false} SpelledRuns(ms: seq<Mark>, base: nat, rest: string, endOnE: bool)
    requires Below(ms, base) && base <= 36 && (endOnE ==> base <= 14) && !InNumeral(First(rest), endOnE)
    ensures Numeral(Spelled(ms) + rest, endOnE) == Spelled(ms)
  {
    if ms == [] {
      assert Spelled(ms) + rest == rest;
    } else {
      SpelledCons(ms, base);
      DigitCharIs(ms[0].digit, ms[0].capital);
      SpelledRuns(ms[1..], base, rest, endOnE);
      var c, tail := DigitChar(ms[0].digit, ms[0].capital), Spelled(ms[1..]);
      hide Spelled, DigitChar, Numeral;
      NumeralCons(c, tail + rest, endOnE);
      Front([c], tail, rest);
      if ms[0].underscore {
        NumeralCons('_', [c] + tail + rest, endOnE);
        Front(['_'], [c] + tail, rest);
      }
    }
  }

  /** What is read of a numeral: its digits, well grouped, to the end. */
  ghost predicate ReadsAll(s: string, ds: seq<nat>, base: nat) {
    Digits(s) == ds && (ds != [] ==> Grouped(s, base))
  }

  lemma {:induction false} DigitReads(c: char, s: string, ds: seq<nat>, base: nat, underscore: bool)
    requires IsDigit(c, base) && ReadsAll(s, ds, base) && (ds == [] ==> s == [])
    ensures ReadsAll((if underscore then ['_'] else []) + ([c] + s), [DigitOf(c).value] + ds, base)
  {
    var t := [c] + s;
    assert t[1..] == s && c != '_';
    if underscore {
      assert (['_'] + t)[1..] == t;
    } else {
      assert [] + t == t;
    }
  }

  lemma {:induction false} SpelledReadsAll(ms: seq<Mark>, base: nat)
    requires Below(ms, base) && base <= 36
    ensures ReadsAll(Spelled(ms), DigitsIn(ms), base)
  {
    if ms != [] {
      SpelledCons(ms, base);
      DigitCharIs(ms[0].digit, ms[0].capital);
      SpelledReadsAll(ms[1..], base);
      var c, tail := DigitChar(ms[0].digit, ms[0].capital), Spelled(ms[1..]);
      DigitReads(c, tail, DigitsIn(ms[1..]), base, ms[0].underscore);
      assert [] + ([c] + tail) == [c] + tail;
    }
  }

  lemma {:induction false} SpelledReadTo(ms: seq<Mark>, v: nat, base: nat)
    requires Below(ms, base) && 1 <= base <= 36 && Positional(v, base, DigitsIn(ms)) < WIDE
    ensures ReadTo(Spelled(ms), v, base, false) == |Spelled(ms)|
  {
    if ms != [] {
      SpelledCons(ms, base);
      var m := ms[0];
      DigitCharIs(m.digit, m.capital);
      var c, tail, ds := DigitChar(m.digit, m.capital), Spelled(ms[1..]), DigitsIn(ms);
      assert ds[0] == m.digit && ds[1..] == DigitsIn(ms[1..]);
      PositionalGrows(Appended(v, m.digit, base), base, ds[1..]);
      SpelledReadTo(ms[1..], Appended(v, m.digit, base), base);
      hide Spelled, DigitChar, Positional;
      ReadToCons(c, tail, v, base);
    }
  }

  lemma {:induction false} ReadToCons(c: char, s: string, v: nat, base: nat)
    requires IsDigit(c, base) && Appended(v, DigitOf(c).value, base) < WIDE
    ensures ReadTo([c] + s, v, base, false) == 1 + ReadTo(s, Appended(v, DigitOf(c).value, base), base, false)
    ensures ReadTo(['_'] + ([c] + s), v, base, false) == 2 + ReadTo(s, Appended(v, DigitOf(c).value, base), base, false)
  {
    hide Appended, DigitOf;
    var t := [c] + s;
    assert t[1..] == s && (['_'] + t)[1..] == t;
    assert c != '_' by { NotUnderscore(c); }
    assert ReadTo(t, v, base, true) == 1 + ReadTo(s, Appended(v, DigitOf(c).value, base), base, false);
  }

  lemma {:induction false} NotUnderscore(c: char)
    requires DigitOf(c).Some?
    ensures c != '_'
  {
  }

  lemma {:induction false} DigitCharBack(c: char)
    requires DigitOf(c).Some?
    ensures DigitOf(c).value < 36 && DigitChar(DigitOf(c).value, 'A' <= c <= 'Z') == c
  {
  }

  /** Every well grouped numeral is the spelling of some digits. */
  lemma {:induction false} GroupedSpelled(r: string, base: nat) returns (ms: seq<Mark>)
    requires Grouped(r, base) && base <= 36
    ensures ms != [] && Below(ms, base) && Spelled(ms) == r
    decreases |r|
  {
    var t := if r[0] == '_' then r[1..] else r;
    var m := Mark(r[0] == '_', DigitOf(t[0]).value, 'A' <= t[0] <= 'Z');
    DigitCharBack(t[0]);
    var more := [];
    if t[1..] != [] {
      more := GroupedSpelled(t[1..], base);
    }
    ms := [m] + more;
    assert ms[1..] == more;
    SpelledCons(ms, base);
    hide Spelled, Grouped, DigitChar, DigitOf;
    assert t == [t[0]] + t[1..];
    assert r[0] == '_' ==> r == ['_'] + t;
  }

  /** A number that fits is read, and its digits, if 32 bits do not lose their count. */
  predicate Fits(value: nat, digits: nat) {
    value < WIDE && digits % UINT32 != 0
  }

  /** A numeral is read back onto the end of a number. */
  lemma {:induction false} SpelledNumeral(ms: seq<Mark>, v: nat, base: nat, rest: string, endOnE: bool)
    requires ms != [] && Below(ms, base) && 1 <= base <= 36 && (endOnE ==> base <= 14)
    requires !InNumeral(First(rest), endOnE)
    ensures var r, value := NumeralAt(Spelled(ms) + rest, v, base, endOnE), Positional(v, base, DigitsIn(ms));
            && (r.ok <==> Fits(value, |ms|))
            && (r.ok ==> r == Read(true, value, |ms| % UINT32, |Spelled(ms)|))
  {
    SpelledRuns(ms, base, rest, endOnE);
    SpelledReadsAll(ms, base);
    if Positional(v, base, DigitsIn(ms)) < WIDE {
      SpelledReadTo(ms, v, base);
    }
    hide Numeral, Spelled, Positional, DigitsIn, ReadTo, Grouped;
  }

  // ------------------------------------------------------------ numerals that are errors

  /** So far there is nothing wrong: no two underscores in a row, no digit that is too large, and no overflow. */
  ghost predicate Fine(r: string, n: nat, v: nat, base: nat, underscore: bool) {
    n <= |r| && Spaced(r, n, underscore) && InBase(r, n, base) && Positional(v, base, Digits(r[..n])) < WIDE
  }

  ghost predicate Spaced(r: string, n: nat, underscore: bool)
    requires n <= |r|
  {
    forall i :: 0 <= i < n && r[i] == '_' ==> !AfterUnderscore(r, i, underscore)
  }

  predicate AfterUnderscore(r: string, i: nat, underscore: bool)
    requires i < |r|
  {
    if i == 0 then underscore else r[i - 1] == '_'
  }

  ghost predicate InBase(r: string, n: nat, base: nat)
    requires n <= |r|
  {
    forall i :: 0 <= i < n && r[i] != '_' ==> IsDigit(r[i], base)
  }

  lemma {:induction false} SpacedCons(r: string, m: nat, underscore: bool)
    requires 0 < m <= |r|
    ensures Spaced(r, m, underscore) <==> (r[0] == '_' ==> !underscore) && Spaced(r[1..], m - 1, r[0] == '_')
  {
    var t := r[1..];
    forall i | 0 < i < m
      ensures r[i] == t[i - 1] && AfterUnderscore(r, i, underscore) == AfterUnderscore(t, i - 1, r[0] == '_')
    {
    }
    if Spaced(r, m, underscore) {
      forall i | 0 <= i < m - 1 && t[i] == '_'
        ensures !AfterUnderscore(t, i, r[0] == '_')
      {
        assert r[i + 1] == '_';
      }
    }
  }

  lemma {:induction false} InBaseCons(r: string, m: nat, base: nat)
    requires 0 < m <= |r|
    ensures InBase(r, m, base) <==> (r[0] != '_' ==> IsDigit(r[0], base)) && InBase(r[1..], m - 1, base)
  {
    hide IsDigit;
    var t := r[1..];
    assert forall i :: 0 < i < m ==> r[i] == t[i - 1];
    if InBase(r, m, base) {
      forall i | 0 <= i < m - 1 && t[i] != '_'
        ensures IsDigit(t[i], base)
      {
        assert r[i + 1] == t[i];
      }
    }
  }

  /** A numeral is read as far as there is nothing wrong with it. */
  lemma {:induction false} ReadWhileFine(r: string, v: nat, base: nat, underscore: bool, m: nat)
    requires v < WIDE && base >= 1 && forall c :: c in r ==> c == '_' || DigitOf(c).Some?
    ensures Fine(r, m, v, base, underscore) <==> m <= ReadTo(r, v, base, underscore)
    decreases |r|
  {
    if m == 0 {
      assert r[..0] == "";
    } else if m <= |r| {
      assert r[0] in r;
      FineCons(r, m, v, base, underscore);
      hide Fine, Appended;
      if r[0] == '_' {
        ReadWhileFine(r[1..], v, base, true, m - 1);
      } else if IsDigit(r[0], base) && Appended(v, DigitOf(r[0]).value, base) < WIDE {
        ReadWhileFine(r[1..], Appended(v, DigitOf(r[0]).value, base), base, false, m - 1);
      }
    }
  }

  lemma {:induction false} FineCons(r: string, m: nat, v: nat, base: nat, underscore: bool)
    requires r != [] && 0 < m <= |r| && base >= 1 && (r[0] == '_' || DigitOf(r[0]).Some?)
    ensures Fine(r, m, v, base, underscore) <==>
            if r[0] == '_' then !underscore && Fine(r[1..], m - 1, v, base, true)
            else
              var v' := Appended(v, DigitOf(r[0]).value, base);
              IsDigit(r[0], base) && v' < WIDE && Fine(r[1..], m - 1, v', base, false)
  {
    FinePrefix(r, m, v, base);
    SpacedCons(r, m, underscore);
    InBaseCons(r, m, base);
    hide Positional, Digits, Appended, IsDigit, Spaced, InBase;
  }

  lemma {:induction false} FinePrefix(r: string, m: nat, v: nat, base: nat)
    requires r != [] && 0 < m <= |r| && base >= 1 && (r[0] == '_' || DigitOf(r[0]).Some?)
    ensures var ds, ds' := Digits(r[..m]), Digits(r[1..][..m - 1]);
            if r[0] == '_' then ds == ds'
            else
              var v' := Appended(v, DigitOf(r[0]).value, base);
              Positional(v, base, ds) == Positional(v', base, ds') && Positional(v', base, ds') >= v'
  {
    var p := r[..m];
    assert p[1..] == r[1..][..m - 1] && p[0] == r[0];
    if r[0] == '_' {
      StepUnderscore(p, base, false, true);
    } else {
      StepDigit(p, v, base, false, true);
    }
  }

  // ------------------------------------------------------------ decimal literals

  datatype Sign = NoSign | Plus | Minus

  /** The letter e, a sign or none, and digits. */
  datatype Tail = Tail(capital: bool, sign: Sign, digits: seq<Mark>)

  /** A decimal literal: its integral part, the digits after its dot, if there is one, and its exponent. */
  datatype Literal = Literal(integral: seq<Mark>, fraction: seq<Mark>, exponent: Option<Tail>)

  predicate WellWritten(n: Literal) {
    && n.integral != [] && Below(n.integral, 10) && Below(n.fraction, 10)
    && (n.fraction != [] ==> !n.fraction[0].underscore)
    && (n.exponent.Some? ==> n.exponent.value.digits != [] && Below(n.exponent.value.digits, 10))
  }

  function SignText(sign: Sign): string {
    match sign
    case NoSign => ""
    case Plus => "+"
    case Minus => "-"
  }

  function TailText(e: Option<Tail>): string
    requires e.Some? ==> Below(e.value.digits, 10)
  {
    if e.None? then "" else (if e.value.capital then "E" else "e") + (SignText(e.value.sign) + Spelled(e.value.digits))
  }

  function FractionText(fraction: seq<Mark>): string
    requires Below(fraction, 10)
  {
    if fraction == [] then "" else "." + Spelled(fraction)
  }

  function LiteralText(n: Literal): string
    requires WellWritten(n)
  {
    Spelled(n.integral) + (FractionText(n.fraction) + TailText(n.exponent))
  }

  predicate Whole(n: Literal) {
    n.fraction == [] && n.exponent.None?
  }

  /** Nothing follows that could be read on: no digit, letter or underscore, nor a dot and a digit after an integer. */
  predicate Stops(n: Literal, rest: string) {
    !InNumeral(First(rest), false) && (Whole(n) && First(rest) == '.' ==> !Decimal(First(After(rest, 1))))
  }

  predicate TailFits(e: Option<Tail>) {
    e.Some? ==> Fits(NumberOf(e.value.digits, 10), |e.value.digits|)
  }

  /** Every number in it fits in 128 bits, and every count of digits survives in 32. */
  predicate LiteralFits(n: Literal) {
    && Fits(NumberOf(n.integral, 10), |n.integral|) && TailFits(n.exponent)
    && (n.fraction != [] ==> Fits(NumberOf(n.integral + n.fraction, 10), |n.fraction|))
  }

  function RealOf(significand: nat, fraction: nat, e: Option<Tail>): Kind {
    RealLiteral(significand, fraction, if e.None? then 0 else NumberOf(e.value.digits, 10),
                e.Some? && e.value.sign.Minus?)
  }

  /** What the literal stands for. The digits of integral part and fraction make one number. */
  function Meaning(n: Literal): Kind {
    if Whole(n) then IntLiteral(NumberOf(n.integral, 10)) else
      RealOf(NumberOf(n.integral + n.fraction, 10), |n.fraction| % UINT32, n.exponent)
  }

  // ------------------------------------------------------------ reading them back

  lemma {:induction false} AfterFront(a: string, b: string)
    ensures After(a + b, |a|) == b
  {
  }

  lemma {:induction false} TailReads(e: Option<Tail>, rest: string, significand: nat, fraction: nat)
    requires e.Some? ==> e.value.digits != [] && Below(e.value.digits, 10)
    requires !InNumeral(First(rest), false)
    ensures var f := ExponentAt(TailText(e) + rest, significand, fraction);
            if TailFits(e) then f == Found(RealOf(significand, fraction, e), |TailText(e)|)
            else f.kind == LexError
  {
    var s := TailText(e) + rest;
    if e.None? {
      assert s == rest;
    } else {
      var t := e.value;
      var digits := Spelled(t.digits);
      ValuePositional(t.digits, 10);
      SpelledNumeral(t.digits, 0, 10, rest, false);
      SignReads(t, digits, rest);
      hide Spelled, NumeralAt, NumberOf, Positional, DigitsIn, SignText, First, After;
    }
  }

  /** After the letter there is the sign, if there is one, and then the digits. */
  lemma {:induction false} SignReads(t: Tail, digits: string, rest: string)
    requires Below(t.digits, 10) && t.digits != [] && digits == Spelled(t.digits)
    ensures var s := (if t.capital then "E" else "e") + (SignText(t.sign) + digits) + rest;
            var c := First(After(s, 1));
            && First(s) == (if t.capital then 'E' else 'e')
            && (t.sign.Plus? <==> c == '+') && (t.sign.Minus? <==> c == '-')
            && After(s, if t.sign.NoSign? then 1 else 2) == digits + rest
            && |TailText(Some(t))| == (if t.sign.NoSign? then 1 else 2) + |digits|
  {
    var s := (if t.capital then "E" else "e") + (SignText(t.sign) + digits) + rest;
    SpelledCons(t.digits, 10);
    DigitCharIs(t.digits[0].digit, t.digits[0].capital);
    hide Spelled;
    assert After(s, 1) == SignText(t.sign) + digits + rest;
    if t.sign.NoSign? {
      assert SignText(t.sign) + digits == digits;
      assert (digits + rest)[0] == digits[0];
    } else {
      assert After(s, 2) == digits + rest;
    }
  }

  lemma {:induction false} FractionReads(n: Literal, rest: string)
    requires WellWritten(n) && !Whole(n) && Stops(n, rest)
    ensures var f := RealAt(FractionText(n.fraction) + TailText(n.exponent) + rest, NumberOf(n.integral, 10));
            if TailFits(n.exponent) && (n.fraction != [] ==> Fits(NumberOf(n.integral + n.fraction, 10), |n.fraction|))
            then f == Found(Meaning(n), |FractionText(n.fraction)| + |TailText(n.exponent)|)
            else f.kind == LexError
  {
    var v := NumberOf(n.integral, 10);
    if n.fraction == [] {
      assert FractionText(n.fraction) + TailText(n.exponent) + rest == TailText(n.exponent) + rest;
      TailReads(n.exponent, rest, v, 0);
      assert n.integral + n.fraction == n.integral;
      hide NumberOf, ExponentAt, NumeralAt;
    } else {
      var tail := TailText(n.exponent) + rest;
      TailFirst(n.exponent, rest);
      SpelledNumeral(n.fraction, v, 10, tail, true);
      ValueSum(n.integral, n.fraction);
      FractionFirst(n, tail);
      TailReads(n.exponent, rest, NumberOf(n.integral + n.fraction, 10), |n.fraction| % UINT32);
      var digits := Spelled(n.fraction);
      hide Spelled, NumeralAt, NumberOf, Positional, DigitsIn, TailText, ExponentAt, First, InNumeral;
      AfterFront("." + digits, tail);
      Front("." + digits, TailText(n.exponent), rest);
    }
  }

  lemma {:induction false} TailFirst(e: Option<Tail>, rest: string)
    requires (e.Some? ==> Below(e.value.digits, 10)) && !InNumeral(First(rest), false)
    ensures !InNumeral(First(TailText(e) + rest), true)
    ensures e.Some? ==> First(TailText(e) + rest) == 'e' || First(TailText(e) + rest) == 'E'
    ensures e.None? ==> TailText(e) + rest == rest
  {
    hide Spelled;
  }

  lemma {:induction false} ValueSum(ms: seq<Mark>, more: seq<Mark>)
    ensures Positional(NumberOf(ms, 10), 10, DigitsIn(more)) == NumberOf(ms + more, 10)
  {
    ValuePositional(ms, 10);
    ValuePositional(ms + more, 10);
    DigitsInSum(ms, more);
    PositionalSum(0, 10, DigitsIn(ms), DigitsIn(more));
  }

  lemma {:induction false} FractionFirst(n: Literal, tail: string)
    requires WellWritten(n) && n.fraction != []
    ensures var s := "." + Spelled(n.fraction) + tail;
            First(s) == '.' && Decimal(First(After(s, 1))) && After(s, 1) == Spelled(n.fraction) + tail
  {
    SpelledCons(n.fraction, 10);
    DigitCharIs(n.fraction[0].digit, n.fraction[0].capital);
    var digits := Spelled(n.fraction);
    hide Spelled, DigitChar, DigitOf, Below;
    DotFirst(digits, tail);
  }

  lemma {:induction false} DotFirst(digits: string, tail: string)
    requires digits != []
    ensures var s := "." + digits + tail;
            First(s) == '.' && First(After(s, 1)) == digits[0] && After(s, 1) == digits + tail
  {
    assert After("." + digits + tail, 1) == digits + tail;
  }

  /** The second character of a decimal literal does not make it a hexadecimal or a binary one. */
  lemma {:induction false} NotBased(ms: seq<Mark>, tail: string)
    requires ms != [] && Below(ms, 10) && !InNumeral(First(tail), true)
    ensures First(After(Spelled(ms) + tail, 1)) !in "xXbB" || !Decimal(First(Spelled(ms) + tail))
  {
    SpelledCons(ms, 10);
    DigitCharIs(ms[0].digit, ms[0].capital);
    var c, more := DigitChar(ms[0].digit, ms[0].capital), Spelled(ms[1..]);
    if !ms[0].underscore {
      assert After(Spelled(ms) + tail, 1) == more + tail;
      if ms[1..] == [] {
        assert more + tail == tail;
      } else {
        SpelledCons(ms[1..], 10);
        DigitCharIs(ms[1..][0].digit, ms[1..][0].capital);
      }
    }
  }

  /** Every decimal literal, integer or real, with or without fraction, exponent and sign, is read as what it stands
    * for, to its end; or as an error, if one of its numbers is too large.
    */
  lemma {:induction false} LiteralReads(n: Literal, rest: string)
    requires WellWritten(n) && Stops(n, rest)
    ensures var f := NumberAt(LiteralText(n) + rest);
            if LiteralFits(n) then f == Found(Meaning(n), |LiteralText(n)|) else f.kind == LexError
  {
    hide NumberAt, Spelled, NumberOf, FractionText, TailText, InNumeral, RealAt, First, Fits;
    var digits, tail := Spelled(n.integral), FractionText(n.fraction) + TailText(n.exponent) + rest;
    Front(digits, FractionText(n.fraction) + TailText(n.exponent), rest);
    TailStarts(n, rest);
    NotBased(n.integral, tail);
    IntegralReads(n.integral, tail);
    if !Whole(n) {
      FractionReads(n, rest);
    } else if First(rest) == '.' {
      DotAlone(rest, NumberOf(n.integral, 10));
    }
    hide WellWritten, Stops, Below;
  }

  lemma {:induction false} DotAlone(s: string, v: nat)
    requires First(s) == '.' && !Decimal(First(After(s, 1)))
    ensures RealAt(s, v) == Found(IntLiteral(v), 0)
  {
  }

  /** After its integral part a literal goes on as a real one or ends. */
  lemma {:induction false} IntegralReads(ms: seq<Mark>, tail: string)
    requires ms != [] && Below(ms, 10) && !InNumeral(First(tail), true)
    requires First(After(Spelled(ms) + tail, 1)) !in "xXbB" || !Decimal(First(Spelled(ms) + tail))
    ensures var f, v := NumberAt(Spelled(ms) + tail), NumberOf(ms, 10);
            if !Fits(v, |ms|) then f.kind == LexError
            else if First(tail) == '.' || First(tail) == 'e' || First(tail) == 'E' then
              f == Later(RealAt(tail, v), |Spelled(ms)|)
            else f == Found(IntLiteral(v), |Spelled(ms)|)
  {
    SpelledNumeral(ms, 0, 10, tail, true);
    ValuePositional(ms, 10);
    AfterFront(Spelled(ms), tail);
    hide Spelled, NumeralAt, NumberOf, Positional, DigitsIn, InNumeral, RealAt, BasedAt, Fits, Below;
  }

  lemma {:induction false} TailStarts(n: Literal, rest: string)
    requires WellWritten(n) && Stops(n, rest)
    ensures var tail := FractionText(n.fraction) + TailText(n.exponent) + rest;
            && !InNumeral(First(tail), true)
            && (Whole(n) ==> tail == rest)
            && (First(tail) == '.' || First(tail) == 'e' || First(tail) == 'E' <==>
                !Whole(n) || First(rest) == '.')
  {
    TailFirst(n.exponent, rest);
    if n.fraction == [] {
      assert FractionText(n.fraction) + TailText(n.exponent) + rest == TailText(n.exponent) + rest;
    } else {
      hide Spelled, TailText;
    }
  }

  // ------------------------------------------------------------ other bases

  function BasedText(ms: seq<Mark>, hex: bool, capital: bool): string
    requires Below(ms, if hex then 16 else 2)
  {
    (if hex then (if capital then "0X" else "0x") else if capital then "0B" else "0b") + Spelled(ms)
  }

  /** Hexadecimal and binary literals are read back in the same way. */
  lemma {:induction false} BasedReads(ms: seq<Mark>, hex: bool, capital: bool, rest: string)
    requires var base := if hex then 16 else 2; ms != [] && Below(ms, base) && !InNumeral(First(rest), false)
    ensures var base := if hex then 16 else 2;
            var text := BasedText(ms, hex, capital);
            var f := NumberAt(text + rest);
            if Fits(NumberOf(ms, base), |ms|) then f == Found(IntLiteral(NumberOf(ms, base)), |text|)
            else f.kind == LexError
  {
    var base := if hex then 16 else 2;
    var lead := if hex then (if capital then "0X" else "0x") else if capital then "0B" else "0b";
    var digits := Spelled(ms);
    SpelledNumeral(ms, 0, base, rest, false);
    ValuePositional(ms, base);
    Front(lead, digits, rest);
    AfterFront(lead, digits + rest);
    assert First(After(lead + digits + rest, 1)) == lead[1];
    hide Spelled, NumeralAt, NumberOf, Positional, DigitsIn, DecimalAt;
  }

  lemma {:induction false} NothingMore()
    ensures !InNumeral(First(""), false)
  {
  }

  /** `1e-3` is a thousandth: it is read as 1 with the exponent 3, and that negative. */
  lemma {:induction false} Thousandth()
    ensures NumberAt("1e-3") == Found(RealLiteral(1, 0, 3, true), 4)
  {
    hide NumberAt, InNumeral, DigitOf;
    var one, three := [Mark(false, 1, false)], [Mark(false, 3, false)];
    var n := Literal(one, [], Some(Tail(false, Minus, three)));
    assert one[1..] == [] && three[1..] == [] && Power(10, 0) == 1;
    assert NumberOf(one, 10) == 1 && NumberOf(three, 10) == 3 && one + [] == one;
    assert Spelled(one) == "1" && Spelled(three) == "3";
    assert LiteralText(n) + "" == "1e-3";
    assert !InNumeral(First(""), false) by { NothingMore(); }
    hide NumberOf, Power, Spelled, Below;
    LiteralReads(n, "");
  }
}
