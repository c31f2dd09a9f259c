/** The reading of number literals. */
module LexNumber {
  import opened Wrappers
  import opened Words
  import opened Shifts
  import opened LexInts
  import opened LexIntMul
  import opened LexCursor

  const UINT32: nat := 0x1_0000_0000

  // ------------------------------------------------------------ numerals

  function DigitOf(c: char): Option<nat> {
    if '0' <= c <= '9' then Some((c - '0') as nat)
    else if 'a' <= c <= 'z' then Some((c - 'a') as nat + 10)
    else if 'A' <= c <= 'Z' then Some((c - 'A') as nat + 10)
    else None
  }

  /** The characters a numeral runs on over. When a literal may be real, e ends its integral part. */
  predicate InNumeral(c: char, endOnE: bool) {
    c == '_' || (DigitOf(c).Some? && !(endOnE && (c == 'e' || c == 'E')))
  }

  /** The longest numeral a text begins with. */
  function Numeral(s: string, endOnE: bool): string {
    if s == [] || !InNumeral(s[0], endOnE) then [] else [s[0]] + Numeral(s[1..], endOnE)
  }

  /** It runs on over such characters only, and no further because there is none or another comes next. */
  lemma {:induction false} NumeralLongest(s: string, endOnE: bool)
    ensures var r := Numeral(s, endOnE);
            r <= s && (forall c :: c in r ==> InNumeral(c, endOnE)) && (|r| < |s| ==> !InNumeral(s[|r|], endOnE))
  {
    if s != [] && InNumeral(s[0], endOnE) {
      NumeralLongest(s[1..], endOnE);
    }
  }

  predicate IsDigit(c: char, base: nat) {
    DigitOf(c).Some? && DigitOf(c).value < base
  }

  /** One or more digits, each with at most one underscore before it. */
  predicate Grouped(r: string, base: nat)
    decreases |r|
  {
    r != [] &&
    var t := if r[0] == '_' then r[1..] else r;
    t != [] && IsDigit(t[0], base) && (t[1..] == [] || Grouped(t[1..], base))
  }

  function Digits(r: string): seq<nat> {
    if r == [] then []
    else (if DigitOf(r[0]).Some? then [DigitOf(r[0]).value] else []) + Digits(r[1..])
  }

  /** The number written by appending the digits to `v`, most significant first. */
  function Positional(v: nat, base: nat, ds: seq<nat>): nat
    decreases ds
  {
    if ds == [] then v else Positional(Appended(v, ds[0], base), base, ds[1..])
  }

  /** In closed form: every digit weighs the base to the power of the number of digits after it. */
  lemma {:induction false} PositionalWeights(v: nat, base: nat, ds: seq<nat>)
    ensures Positional(v, base, ds) == v * Power(base, |ds|) + Positional(0, base, ds)
    ensures ds != [] ==> Positional(0, base, ds) == ds[0] * Power(base, |ds| - 1) + Positional(0, base, ds[1..])
    decreases ds
  {
    if ds != [] {
      var p := Power(base, |ds| - 1);
      PositionalWeights(Appended(v, ds[0], base), base, ds[1..]);
      PositionalWeights(Appended(0, ds[0], base), base, ds[1..]);
      assert Appended(0, ds[0], base) == ds[0];
      assert Power(base, |ds|) == base * p;
      hide Positional, Power;
      Weigh(v, base, ds[0], p);
    }
  }

  lemma {:induction false} Weigh(v: nat, base: nat, d: nat, p: nat)
    ensures Appended(v, d, base) * p == v * (base * p) + d * p
  {
    assert (v * base + d) * p == (v * base) * p + d * p;
  }

  function Power(base: nat, n: nat): nat {
    if n == 0 then 1 else base * Power(base, n - 1)
  }

  lemma {:induction false} PositionalGrows(v: nat, base: nat, ds: seq<nat>)
    requires base >= 1
    ensures Positional(v, base, ds) >= v
    decreases ds
  {
    if ds != [] {
      MulMono(1, base, v);
      PositionalGrows(Appended(v, ds[0], base), base, ds[1..]);
    }
  }

  /** What is still to come of a numeral, after an underscore or not, with a digit already read or not. */
  predicate Continues(r: string, base: nat, underscore: bool, started: bool) {
    if r == [] then started && !underscore
    else if r[0] == '_' then !underscore && Continues(r[1..], base, true, started)
    else IsDigit(r[0], base) && Continues(r[1..], base, false, true)
  }

  lemma {:induction false} ContinuesGrouped(r: string, base: nat)
    ensures Continues(r, base, false, false) <==> Grouped(r, base)
    ensures Continues(r, base, false, true) <==> r == [] || Grouped(r, base)
    decreases |r|
  {
    if r != [] {
      var t := if r[0] == '_' then r[1..] else r;
      if t != [] {
        ContinuesGrouped(t[1..], base);
      }
    }
  }

  // One step of reading a numeral: a digit, an underscore, or its end.

  lemma {:induction false} StepNumeral(rest: string, endOnE: bool)
    requires rest != [] && InNumeral(rest[0], endOnE)
    ensures var r := Numeral(rest, endOnE); r != [] && r[0] == rest[0] && r[1..] == Numeral(rest[1..], endOnE)
  {
  }

  lemma {:induction false} StepOut(rest: string, endOnE: bool)
    requires rest == [] || !InNumeral(rest[0], endOnE)
    ensures Numeral(rest, endOnE) == []
  {
  }

  lemma {:induction false} StepDigit(r: string, v: nat, base: nat, underscore: bool, started: bool)
    requires r != [] && DigitOf(r[0]).Some?
    ensures var d := DigitOf(r[0]).value;
            && |Digits(r)| == 1 + |Digits(r[1..])|
            && Positional(v, base, Digits(r)) == Positional(Appended(v, d, base), base, Digits(r[1..]))
            && (base >= 1 ==> Positional(v, base, Digits(r)) >= Appended(v, d, base))
            && (Continues(r, base, underscore, started) <==> d < base && Continues(r[1..], base, false, true))
  {
    var d := DigitOf(r[0]).value;
    assert ([d] + Digits(r[1..]))[1..] == Digits(r[1..]);
    if base >= 1 {
      PositionalGrows(Appended(v, d, base), base, Digits(r[1..]));
    }
  }

  lemma {:induction false} StepUnderscore(r: string, base: nat, underscore: bool, started: bool)
    requires r != [] && r[0] == '_'
    ensures Digits(r) == Digits(r[1..])
    ensures Continues(r, base, underscore, started) <==> !underscore && Continues(r[1..], base, true, started)
  {
  }

  lemma {:induction false} StepEnd(v: nat, base: nat, underscore: bool, started: bool)
    ensures Digits([]) == [] && Positional(v, base, []) == v
    ensures Continues([], base, underscore, started) <==> started && !underscore
  {
  }

  lemma {:induction false} CountOn(count: nat)
    ensures (count % UINT32 + 1) % UINT32 == (count + 1) % UINT32
  {
  }

  /** Of the numeral `run`, `r` is still to be read, and `v` and `digitCount` are what the rest has made of `v0`. */
  ghost predicate Underway(run: string, r: string, v0: nat, v: nat, base: nat, underscore: bool, count: nat,
          digitCount: nat) {
    && Positional(v0, base, Digits(run)) == Positional(v, base, Digits(r))
    && |Digits(run)| == count + |Digits(r)| && digitCount == count % UINT32
    && (Grouped(run, base) <==> Continues(r, base, underscore, count > 0))
  }

  lemma {:induction false} ReadingStarts(run: string, v0: nat, base: nat)
    ensures Underway(run, run, v0, v0, base, false, 0, 0)
  {
    ContinuesGrouped(run, base);
  }

  lemma {:induction false} ReadUnderscore(run: string, r: string, v0: nat, v: nat, base: nat, underscore: bool,
          count: nat, digitCount: nat)
    requires Underway(run, r, v0, v, base, underscore, count, digitCount) && r != [] && r[0] == '_'
    ensures if underscore then !Grouped(run, base) else Underway(run, r[1..], v0, v, base, true, count, digitCount)
  {
    hide Positional, Grouped, Continues, Digits;
    StepUnderscore(r, base, underscore, count > 0);
  }

  lemma {:induction false} ReadDigit(run: string, r: string, v0: nat, v: nat, base: nat, underscore: bool, count: nat,
          digitCount: nat)
    requires Underway(run, r, v0, v, base, underscore, count, digitCount) && r != [] && DigitOf(r[0]).Some? && base >= 1
    ensures var d := DigitOf(r[0]).value;
            && Appended(v, d, base) <= Positional(v0, base, Digits(run))
            && if d >= base then !Grouped(run, base) else
                 Underway(run, r[1..], v0, Appended(v, d, base), base, false, count + 1, (digitCount + 1) % UINT32)
  {
    hide Positional, Grouped, Continues, Digits, Appended, DigitOf;
    StepDigit(r, v, base, underscore, count > 0);
    CountOn(count);
  }

  lemma {:induction false} ReadEnd(run: string, v0: nat, v: nat, base: nat, underscore: bool, count: nat,
          digitCount: nat)
    requires Underway(run, [], v0, v, base, underscore, count, digitCount)
    ensures Positional(v0, base, Digits(run)) == v && digitCount == |Digits(run)| % UINT32
    ensures Grouped(run, base) <==> !underscore && |Digits(run)| > 0
  {
    hide Grouped;
    StepEnd(v, base, underscore, count > 0);
  }

  function Zeros(n: nat): (s: string)
    ensures |s| == n && forall i :: 0 <= i < n ==> s[i] == '0'
  {
    seq(n, i => '0')
  }

  /** 2^32 zeros are a numeral, of value zero, and yet the count of its digits is zero in 32 bits. */
  lemma {:induction false} ZerosCountedOut(base: nat)
    requires base >= 1
    ensures var s := Zeros(UINT32);
            Numeral(s, true) == s && Grouped(s, base) && Positional(0, base, Digits(s)) == 0 &&
              |Digits(s)| % UINT32 == 0
  {
    ZerosAre(UINT32, base);
  }

  lemma {:induction false} ZerosAre(n: nat, base: nat)
    requires base >= 1
    ensures var s := Zeros(n);
            && Numeral(s, true) == s && (n > 0 ==> Grouped(s, base))
            && Positional(0, base, Digits(s)) == 0 && |Digits(s)| == n
    decreases n
  {
    if n > 0 {
      var s := Zeros(n);
      assert s[1..] == Zeros(n - 1) && s == ['0'] + Zeros(n - 1);
      ZerosAre(n - 1, base);
      assert Digits(s) == [0] + Digits(Zeros(n - 1));
      assert ([0] + Digits(Zeros(n - 1)))[1..] == Digits(Zeros(n - 1));
    }
  }

  /** How far a numeral is read: up to a second underscore in a row, a digit not below the base, or the digit that
    * overflows.
    */
  function ReadTo(r: string, v: nat, base: nat, underscore: bool): (n: nat)
    ensures n <= |r|
  {
    if r == [] then 0
    else if r[0] == '_' then (if underscore then 0 else 1 + ReadTo(r[1..], v, base, true))
    else if !IsDigit(r[0], base) || Appended(v, DigitOf(r[0]).value, base) >= WIDE then 0
    else 1 + ReadTo(r[1..], Appended(v, DigitOf(r[0]).value, base), base, false)
  }

  /** What reading a numeral comes to, and how many characters it takes. */
  datatype Reading = Read(ok: bool, value: nat, digits: nat, length: nat)

  function NumeralAt(s: string, v: nat, base: nat, endOnE: bool): (r: Reading)
    ensures r.length <= |s|
  {
    NumeralLongest(s, endOnE);
    var run := Numeral(s, endOnE);
    var n, count := Positional(v, base, Digits(run)), |Digits(run)| % UINT32;
    Read(Grouped(run, base) && n < WIDE && count != 0, n, count, ReadTo(run, v, base, false))
  }

  // ------------------------------------------------------------ reading from the source

  /** Reads an integer literal, or the integral part of a real one, onto the end of `out`. The count of
    * digits is kept in 32 bits.
    */
  method LexInteger(lexer: Lexer, base: word, out: LexInt, endOnE: bool) returns (ok: bool, digitCount: nat)
    requires lexer.Valid() && base >= 1 && !out.isNegative
    modifies lexer`ptr, lexer`len, lexer`line, lexer`pos, lexer`lost, out
    ensures lexer.Valid() && !out.isNegative
    ensures var r := NumeralAt(old(lexer.Rest()), old(out.Bits()), base, endOnE);
            && ok == r.ok && lexer.Moved(r.length, 0) && lexer.Rest() == old(lexer.Rest())[r.length..]
            && (ok ==> out.Bits() == r.value && digitCount == r.digits)
    ensures ok ==> lexer.ptr == old(lexer.ptr) + |Numeral(old(lexer.Rest()), endOnE)|
  {
    hide Appended, Numeral, Positional, Digits, Continues, Grouped, Newlines, Column, DigitOf, Underway, ReadTo;
    digitCount := 0;
    var underscore := false;
    ghost var run, v0 := Numeral(lexer.Rest(), endOnE), out.Bits();
    ghost var r, count: nat := run, 0;
    ghost var to := lexer.ptr + ReadTo(run, v0, base, false);
    ReadingStarts(run, v0, base);
    ok := false;
    while !lexer.IsEof()
      invariant lexer.ptr >= old(lexer.ptr) && lexer.Valid() && lexer.Moved(lexer.ptr - old(lexer.ptr), 0) &&
                !out.isNegative && !ok
      invariant r == Numeral(lexer.Rest(), endOnE) && lexer.ptr + |r| == old(lexer.ptr) + |run|
      invariant to == lexer.ptr + ReadTo(r, out.Bits(), base, underscore)
      invariant Underway(run, r, v0, out.Bits(), base, underscore, count, digitCount)
      decreases lexer.len
    {
      var c := lexer.Look();
      if c == '_' {
        StepNumeral(lexer.Rest(), endOnE);
        ReadUnderscore(run, r, v0, out.Bits(), base, underscore, count, digitCount);
        ReadToUnderscore(r, out.Bits(), base, underscore);
        if underscore {
          return;
        }
        underscore := true;
        lexer.ConsumeOne();
        r := r[1..];
        continue;
      }
      if endOnE && (c == 'e' || c == 'E') {
        break;
      }
      var digit := ToDigit(c);
      if digit.None? {
        break;
      }
      StepNumeral(lexer.Rest(), endOnE);
      ReadDigit(run, r, v0, out.Bits(), base, underscore, count, digitCount);
      ReadToDigit(r, out.Bits(), base, underscore);
      if digit.value >= base {
        return;
      }
      var fits := Accum(out, digit.value, base);
      if !fits {
        return;
      }
      underscore := false;
      lexer.ConsumeOne();
      r := r[1..];
      count := count + 1;
      digitCount := (digitCount + 1) % UINT32;
    }
    StepOut(lexer.Rest(), endOnE);
    ReadEnd(run, v0, out.Bits(), base, underscore, count, digitCount);
    if digitCount == 0 {
      return;
    }
    if underscore {
      return;
    }
    ok := true;
  }

  lemma {:induction false} ReadToUnderscore(r: string, v: nat, base: nat, underscore: bool)
    requires r != [] && r[0] == '_'
    ensures ReadTo(r, v, base, underscore) == if underscore then 0 else 1 + ReadTo(r[1..], v, base, true)
  {
  }

  lemma {:induction false} ReadToDigit(r: string, v: nat, base: nat, underscore: bool)
    requires r != [] && DigitOf(r[0]).Some?
    ensures var d := DigitOf(r[0]).value;
            ReadTo(r, v, base, underscore) ==
            if d >= base || Appended(v, d, base) >= WIDE then 0
              else 1 + ReadTo(r[1..], Appended(v, d, base), base, false)
  {
  }

  method ToDigit(c: char) returns (digit: Option<word>)
    ensures digit.Some? <==> DigitOf(c).Some?
    ensures digit.Some? ==> digit.value == DigitOf(c).value && digit.value < 36
  {
    if '0' <= c <= '9' {
      digit := Some((c - '0') as int);
    } else if 'a' <= c <= 'z' {
      digit := Some((c - 'a') as int + 10);
    } else if 'A' <= c <= 'Z' {
      digit := Some((c - 'A') as int + 10);
    } else {
      digit := None;
    }
  }

  predicate Decimal(c: char) {
    '0' <= c <= '9'
  }

  /** A token kind, and how many characters are read for it. */
  datatype Found = Found(kind: Kind, length: nat)

  function Later(f: Found, n: nat): Found {
    Found(f.kind, n + f.length)
  }

  /** A number after its integral part `n`: what follows is a dot or the letter e. A dot without a digit after it is not
    * part of the number.
    */
  function RealAt(s: string, n: nat): Found {
    if First(s) == '.' then
      if !Decimal(First(After(s, 1))) then Found(IntLiteral(n), 0) else
        var r := NumeralAt(After(s, 1), n, 10, true);
        Later(if r.ok then ExponentAt(After(s, 1 + r.length), r.value, r.digits) else Found(LexError, 0), 1 + r.length)
    else ExponentAt(s, n, 0)
  }

  /** A number whose digits have been read. */
  function ExponentAt(s: string, significand: nat, fraction: nat): Found {
    if First(s) != 'e' && First(s) != 'E' then Found(RealLiteral(significand, fraction, 0, false), 0) else
      var c := First(After(s, 1));
      var start := if c == '+' || c == '-' then 2 else 1;
      var r := NumeralAt(After(s, start), 0, 10, false);
      Found(if r.ok then RealLiteral(significand, fraction, r.value, c == '-') else LexError, start + r.length)
  }

  function BasedAt(s: string, base: nat): Found {
    var r := NumeralAt(s, 0, base, false);
    Found(if r.ok then IntLiteral(r.value) else LexError, r.length)
  }

  function DecimalAt(s: string): Found {
    var r := NumeralAt(s, 0, 10, true);
    Later(if !r.ok then Found(LexError, 0) else AfterIntegral(After(s, r.length), r.value), r.length)
  }

  function AfterIntegral(s: string, n: nat): Found {
    if First(s) == '.' || First(s) == 'e' || First(s) == 'E' then RealAt(s, n) else Found(IntLiteral(n), 0)
  }

  function NumberAt(s: string): Found {
    var c := First(After(s, 1));
    if First(s) == '0' && (c == 'x' || c == 'X') then Later(BasedAt(After(s, 2), 16), 2)
    else if First(s) == '0' && (c == 'b' || c == 'B') then Later(BasedAt(After(s, 2), 2), 2)
    else DecimalAt(s)
  }

  /** A number that begins with a digit takes at least that. */
  lemma {:induction false} NumberProgress(s: string)
    requires s != [] && Decimal(s[0])
    ensures NumberAt(s).length > 0
  {
    hide Positional, Digits, Grouped, RealAt;
    var run := Numeral(s, true);
    assert run != [] && run[0] == s[0];
    assert IsDigit(s[0], 10) && Appended(0, DigitOf(s[0]).value, 10) < 10;
    assert ReadTo(run, 0, 10, false) >= 1;
  }

  lemma {:induction false} RealIs(s: string, n: nat)
    ensures RealAt(s, n) ==
            if First(s) != '.' then ExponentAt(s, n, 0)
            else if !Decimal(First(After(s, 1))) then Found(IntLiteral(n), 0)
            else
              var r := NumeralAt(After(s, 1), n, 10, true);
              Later(if r.ok then ExponentAt(After(s, 1 + r.length), r.value, r.digits)
                    else Found(LexError, 0), 1 + r.length)
  {
    hide NumeralAt, ExponentAt;
  }

  /** Reads the rest of a real literal; its dot or e has been seen but not consumed. */
  method Real(lexer: Lexer, integral: LexInt) returns (kind: Kind)
    requires lexer.Valid() && !integral.isNegative && First(lexer.Rest()) in ".eE"
    modifies lexer`ptr, lexer`len, lexer`line, lexer`pos, lexer`lost
    ensures lexer.Valid()
    ensures var f := RealAt(old(lexer.Rest()), integral.Bits()); kind == f.kind && lexer.Moved(f.length, 0)
  {
    hide RealAt, NumeralAt, ExponentAt, Join, After, Newlines, Column;
    RealIs(lexer.Rest(), integral.Bits());
    var significand := new LexInt();
    Copy(significand, integral);
    var fraction := 0;
    var c := lexer.Look();
    if c == '.' {
      c := lexer.LookN(2);
      if c < '0' || c > '9' {
        return IntLiteral(Join(integral.high, integral.low));
      }
      var ok;
      ok, fraction := Fraction(lexer, significand);
      if !ok {
        return LexError;
      }
    }
    kind := Exponent(lexer, significand, fraction);
  }

  /** Reads the digits after the dot, which has been seen but not consumed, onto the end of the significand. */
  method Fraction(lexer: Lexer, significand: LexInt) returns (ok: bool, digitCount: nat)
    requires lexer.Valid() && lexer.len > 0 && !significand.isNegative
    modifies lexer`ptr, lexer`len, lexer`line, lexer`pos, lexer`lost, significand
    ensures lexer.Valid()
    ensures var r := NumeralAt(After(old(lexer.Rest()), 1), old(significand.Bits()), 10, true);
            && lexer.Moved(1 + r.length, 0) && lexer.Rest() == After(old(lexer.Rest()), 1 + r.length)
            && ok == r.ok && (ok ==> significand.Bits() == r.value && digitCount == r.digits)
  {
    hide NumeralAt, Join, Newlines, Column;
    lexer.ConsumeOne();
    ok, digitCount := LexInteger(lexer, 10, significand, true);
  }

  method Exponent(lexer: Lexer, significand: LexInt, fraction: nat) returns (kind: Kind)
    requires lexer.Valid()
    modifies lexer`ptr, lexer`len, lexer`line, lexer`pos, lexer`lost
    ensures lexer.Valid()
    ensures var f := ExponentAt(old(lexer.Rest()), significand.Bits(), fraction);
            kind == f.kind && lexer.Moved(f.length, 0)
  {
    hide NumeralAt, Join, Newlines, Column;
    var e := new LexInt();
    var negative := false;
    var c := lexer.Look();
    if c == 'e' || c == 'E' {
      lexer.ConsumeOne();
      c := lexer.Look();
      if c == '+' || c == '-' {
        negative := c == '-';
        lexer.ConsumeOne();
      }
      var ok, _ := LexInteger(lexer, 10, e, false);
      if !ok {
        return LexError;
      }
    }
    kind := RealLiteral(Join(significand.high, significand.low), fraction, Join(e.high, e.low), negative);
  }

  method NondecimalNumber(lexer: Lexer, base: word) returns (kind: Kind)
    requires lexer.Valid() && base >= 1
    modifies lexer`ptr, lexer`len, lexer`line, lexer`pos, lexer`lost
    ensures lexer.Valid()
    ensures var f := BasedAt(old(lexer.Rest()), base); kind == f.kind && lexer.Moved(f.length, 0)
  {
    hide NumeralAt;
    var value := new LexInt();
    var ok, _ := LexInteger(lexer, base, value, false);
    kind := if ok then IntLiteral(Join(value.high, value.low)) else LexError;
  }

  lemma {:induction false} NumberIs(s: string)
    ensures var c := First(After(s, 1));
            NumberAt(s) ==
            if First(s) == '0' && (c == 'x' || c == 'X') then Later(BasedAt(After(s, 2), 16), 2)
            else if First(s) == '0' && (c == 'b' || c == 'B') then Later(BasedAt(After(s, 2), 2), 2)
            else DecimalAt(s)
  {
    hide BasedAt, DecimalAt;
  }

  lemma {:induction false} DecimalIs(s: string)
    ensures var r := NumeralAt(s, 0, 10, true);
            DecimalAt(s) == Later(if r.ok then AfterIntegral(After(s, r.length), r.value)
                                  else Found(LexError, 0), r.length)
  {
    hide NumeralAt, AfterIntegral;
  }

  /** Reads a number literal, whose first character has been seen but not consumed. */
  method Number(lexer: Lexer) returns (kind: Kind)
    requires lexer.Valid()
    modifies lexer`ptr, lexer`len, lexer`line, lexer`pos, lexer`lost
    ensures lexer.Valid()
    ensures var f := NumberAt(old(lexer.Rest())); kind == f.kind && lexer.Moved(f.length, 0)
  {
    hide NumberAt, BasedAt, DecimalAt, Newlines, Column;
    NumberIs(lexer.Rest());
    var c := lexer.Look();
    if c == '0' {
      c := lexer.LookN(2);
      if c == 'x' || c == 'X' || c == 'b' || c == 'B' {
        lexer.ConsumeTwo();
        kind := NondecimalNumber(lexer, if c == 'x' || c == 'X' then 16 else 2);
        return;
      }
    }
    kind := DecimalNumber(lexer);
  }

  method DecimalNumber(lexer: Lexer) returns (kind: Kind)
    requires lexer.Valid()
    modifies lexer`ptr, lexer`len, lexer`line, lexer`pos, lexer`lost
    ensures lexer.Valid()
    ensures var f := DecimalAt(old(lexer.Rest())); kind == f.kind && lexer.Moved(f.length, 0)
  {
    hide DecimalAt, NumeralAt, RealAt, Join, Newlines, Column;
    DecimalIs(lexer.Rest());
    var value := new LexInt();
    var ok, _ := LexInteger(lexer, 10, value, true);
    if !ok {
      return LexError;
    }
    var c := lexer.Look();
    if c == '.' || c == 'e' || c == 'E' {
      kind := Real(lexer, value);
      return;
    }
    kind := IntLiteral(Join(value.high, value.low));
  }
}
