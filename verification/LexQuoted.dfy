/** What string and character literals stand for, and which of them the lexer goes wrong on. */
module LexQuoted {
  import opened Wrappers
  import opened Words
  import opened LexCursor
  import opened LexLiteral
  import opened TokenText
  import opened Shifts
  import LexNumber

  // ------------------------------------------------------------ writing a string down

  function HexChar(d: nat): char
    requires d < 16
  {
    if d < 10 then '0' + d as char else 'A' + (d - 10) as char
  }

  /** A number in so many hexadecimal digits. */
  function HexText(v: nat, digits: nat): string
    requires v < LexNumber.Power(16, digits)
  {
    if digits == 0 then "" else
      var p := LexNumber.Power(16, digits - 1);
      TopDigit(v, p);
      [HexChar(v / p)] + HexText(v % p, digits - 1)
  }

  lemma {:induction false} TopDigit(v: nat, p: nat)
    requires v < 16 * p
    ensures p > 0 && 0 <= v / p < 16 && v % p < p && v / p * p + v % p == v
  {
    DivBelow(v, p, 16);
    DivModIs(v, p);
  }

  lemma {:induction false} HexReadsBack(v: nat, digits: nat, value: nat, rest: string)
    requires v < LexNumber.Power(16, digits)
    ensures |HexText(v, digits)| == digits
    ensures HexAt(HexText(v, digits) + rest, digits, value) ==
            Escaped(Some(value * LexNumber.Power(16, digits) + v), digits)
  {
    if digits == 0 {
      assert HexText(v, digits) + rest == rest;
    } else {
      var p := LexNumber.Power(16, digits - 1);
      HexTextStep(v, digits);
      var d, tail := v / p, HexText(v % p, digits - 1);
      HexReadsBack(v % p, digits - 1, 16 * value + d, rest);
      hide HexAt, HexText, LexNumber.Power, HexChar;
      DigitFirst(d, tail + rest, digits, value);
      Associate([HexChar(d)], tail, rest);
      PlaceValue(value, d, p, v % p);
    }
  }

  lemma {:induction false} HexTextStep(v: nat, digits: nat)
    requires v < LexNumber.Power(16, digits) && digits > 0
    ensures var p := LexNumber.Power(16, digits - 1);
            && LexNumber.Power(16, digits) == 16 * p
            && p > 0 && 0 <= v / p < 16 && v % p < p && v / p * p + v % p == v
            && HexText(v, digits) == [HexChar(v / p)] + HexText(v % p, digits - 1)
  {
    TopDigit(v, LexNumber.Power(16, digits - 1));
  }

  lemma {:induction false} Associate<T>(a: seq<T>, b: seq<T>, c: seq<T>)
    ensures (a + b) + c == a + (b + c)
  {
  }

  lemma {:induction false} DigitFirst(d: nat, rest: string, digits: nat, value: nat)
    requires d < 16 && digits > 0
    ensures var e := HexAt(rest, digits - 1, 16 * value + d);
            HexAt([HexChar(d)] + rest, digits, value) == Escaped(e.value, 1 + e.length)
  {
    assert ([HexChar(d)] + rest)[1..] == rest;
  }

  lemma {:induction false} PlaceValue(value: nat, d: nat, p: nat, low: nat)
    ensures (16 * value + d) * p + low == value * (16 * p) + (d * p + low)
  {
    assert (16 * value + d) * p == value * (16 * p) + d * p;
  }

  /** A string of code points, each written as an escape. */
  function Quoted(vs: seq<codepoint>): string {
    if vs == [] then "" else CodePoint(vs[0]) + Quoted(vs[1..])
  }

  function CodePoint(v: codepoint): string {
    assert LexNumber.Power(16, 6) == 0x1000000;
    "\\U" + HexText(v, 6)
  }

  lemma {:induction false} CodePointReadsBack(v: codepoint, rest: string)
    ensures var s := CodePoint(v) + rest;
            && |CodePoint(v)| == 8 && s[0] == '\\' && EscapeMisses(s) == 0
            && EscapeAt(s, true, true) == Escaped(Some(v), 8) && After(s, 8) == rest
  {
    assert LexNumber.Power(16, 6) == 0x1000000;
    HexReadsBack(v, 6, 0, rest);
    hide HexAt, HexText;
    assert (CodePoint(v) + rest)[2..] == HexText(v, 6) + rest;
    assert (CodePoint(v) + rest)[1] == 'U';
  }

  lemma {:induction false} QuotedReads(vs: seq<codepoint>, end: string, done: seq<byte>, length: nat)
    requires First(end) == '\"'
    ensures StringAt(Quoted(vs) + end, done, length, 0) ==
            Reads(StringLiteral(done + EncodeAll(vs)), length + 8 * |vs| + 1, 0)
    decreases vs
  {
    hide StringAt, CodePoint, Encode;
    if vs == [] {
      assert Quoted(vs) + end == end && done + EncodeAll(vs) == done;
      StringEnd(end, done, length, 0);
    } else {
      CodePointStep(vs[0], Quoted(vs[1..]) + end, done, length);
      QuotedReads(vs[1..], end, done + Encode(vs[0]), length + 8);
      Associate(CodePoint(vs[0]), Quoted(vs[1..]), end);
      Associate(done, Encode(vs[0]), EncodeAll(vs[1..]));
    }
  }

  lemma {:induction false} CodePointStep(v: codepoint, rest: string, done: seq<byte>, length: nat)
    ensures StringAt(CodePoint(v) + rest, done, length, 0) == StringAt(rest, done + Encode(v), length + 8, 0)
  {
    hide StringAt, CodePoint, Encode, EscapeAt, EscapeMisses;
    CodePointReadsBack(v, rest);
    StringStep(CodePoint(v) + rest, done, length, 0);
  }

  /** A literal that does not begin with three quotes is read from its first quote on. */
  lemma {:induction false} SingleQuote(text: string, rest: string)
    requires !ThreeQuotes("\"" + text + rest)
    ensures QuoteAt("\"" + text + rest) == StringAt(text + rest, [], 1, 0)
  {
    hide StringAt, TripleAt;
    assert ("\"" + text + rest)[1..] == text + rest;
  }

  /** Every string of code points can be written as a literal, and the literal is read as that string. */
  lemma {:induction false} QuotedReadsBack(vs: seq<codepoint>, rest: string)
    requires vs == [] ==> First(rest) != '\"'
    ensures var o := QuoteAt("\"" + Quoted(vs) + "\"" + rest);
            && o.Reads? && o.kind.StringLiteral? && DecodeAll(o.kind.bytes) == Some(vs)
            && o.length == 8 * |vs| + 2 && o.missed == 0
  {
    QuotedReads(vs, "\"" + rest, [], 1);
    DecodeEncoded(vs);
    QuotedIsSingle(vs, rest);
    hide *;
    var text := Quoted(vs) + "\"";
    assert "\"" + Quoted(vs) + "\"" + rest == "\"" + text + rest by { Associate("\"", Quoted(vs), "\""); }
    SingleQuote(text, rest);
    assert text + rest == Quoted(vs) + ("\"" + rest) by { Associate(Quoted(vs), "\"", rest); }
    assert [] + EncodeAll(vs) == EncodeAll(vs);
  }

  lemma {:induction false} QuotedIsSingle(vs: seq<codepoint>, rest: string)
    requires vs == [] ==> First(rest) != '\"'
    ensures !ThreeQuotes("\"" + Quoted(vs) + "\"" + rest)
  {
    hide HexText;
    var s := "\"" + Quoted(vs) + "\"" + rest;
    if vs == [] {
      assert |s| >= 3 ==> s[2] == rest[0];
    } else {
      assert s[1] == '\\';
    }
  }

  // ------------------------------------------------------------ plain text

  predicate Plain(s: string) {
    forall c :: c in s ==> c != '\"' && c != '\\'
  }

  /** Other characters stand for themselves. */
  lemma {:induction false} PlainReads(p: string, rest: string, done: seq<byte>, length: nat, missed: nat)
    requires Plain(p)
    ensures StringAt(p + rest, done, length, missed) == StringAt(rest, done + BytesOf(p), length + |p|, missed)
    decreases p
  {
    if p == [] {
      assert p + rest == rest && done + BytesOf(p) == done;
    } else {
      assert (p + rest)[1..] == p[1..] + rest && (p + rest)[0] == p[0] && p[0] in p;
      assert forall c :: c in p[1..] ==> c in p;
      StringStep(p + rest, done, length, missed);
      PlainReads(p[1..], rest, done + [ByteOf(p[0])], length + 1, missed);
      hide StringAt, Plain;
      BytesStep(p);
      Associate(done, [ByteOf(p[0])], BytesOf(p[1..]));
    }
  }

  /** A triple-quoted string without quotes in it is its text without the common indentation, unless that is one of the
    * texts that are trimmed away and still looked at.
    */
  lemma {:induction false} TripleReads(p: string, rest: string)
    requires '\"' !in p && First(rest) != '\"'
    ensures QuoteAt("\"\"\"" + p + "\"\"\"" + rest) ==
            if LeftoverNewline(BytesOf(p)) then Strays else Reads(StringLiteral(Dedent(BytesOf(p))), |p| + 6, 0)
  {
    var s := "\"\"\"" + p + "\"\"\"" + rest;
    assert s[3..] == p + ("\"\"\"" + rest);
    assert ThreeQuotes(s);
    TripleText(p, "\"\"\"" + rest, [], 3);
    var t := "\"\"\"" + rest;
    assert ThreeQuotes(t) && t[3..] == rest;
    assert [] + BytesOf(p) == BytesOf(p);
  }

  lemma {:induction false} TripleText(p: string, rest: string, done: seq<byte>, length: nat)
    requires '\"' !in p
    ensures TripleAt(p + rest, done, length) == TripleAt(rest, done + BytesOf(p), length + |p|)
    decreases p
  {
    if p == [] {
      assert p + rest == rest && done + BytesOf(p) == done;
    } else {
      assert (p + rest)[1..] == p[1..] + rest && (p + rest)[0] == p[0];
      TripleStep(p + rest, done, length);
      TripleText(p[1..], rest, done + [ByteOf(p[0])], length + 1);
      assert done + [ByteOf(p[0])] + BytesOf(p[1..]) == done + BytesOf(p);
    }
  }

  /** Characters of a character literal that stand for themselves. */
  predicate PlainChars(p: string) {
    forall c :: c in p ==> c as int < 0x80 && c != '\'' && c != '\\'
  }

  /** The characters of a character literal, the first most significant, are the digits of a number to the base 256, of
    * which the low 128 bits are kept.
    */
  lemma {:induction false} CharacterPacks(p: string, rest: string)
    requires PlainChars(p)
    ensures CharAt(p + "'" + rest, 0, 1, 0) ==
            Reads(IntLiteral(LexNumber.Positional(0, 0x100, BytesOf(p)) % WIDE), |p| + 2, 0)
  {
    Associate(p, "'", rest);
    PacksOn(p, "'" + rest, 0, 1);
    CharEnd("'" + rest, LexNumber.Positional(0, 0x100, BytesOf(p)) % WIDE, |p| + 1, 0);
  }

  function Low(v: nat): nat {
    v % WIDE
  }

  lemma {:induction false} PacksOn(p: string, rest: string, v: nat, length: nat)
    requires PlainChars(p)
    ensures CharAt(p + rest, Low(v), length, 0) ==
            CharAt(rest, Low(LexNumber.Positional(v, 0x100, BytesOf(p))), length + |p|, 0)
    decreases p
  {
    hide CharAt, PlainChars, Low;
    if p == [] {
      assert p + rest == rest && BytesOf(p) == [];
    } else {
      hide BytesOf, LexNumber.Positional;
      var c := p[0] as int;
      PlainCharStep(p, rest, v, length);
      PacksOn(p[1..], rest, v * 0x100 + c, length + 1);
      BytesStep(p);
      NextDigit(v, BytesOf(p));
    }
  }

  lemma {:induction false} PlainCharStep(p: string, rest: string, v: nat, length: nat)
    requires PlainChars(p) && p != []
    ensures PlainChars(p[1..]) && p[0] as int < 0x80
    ensures CharAt(p + rest, Low(v), length, 0) ==
            CharAt(p[1..] + rest, Low(v * 0x100 + p[0] as int), length + 1, 0)
  {
    hide CharAt, Shifted, Low;
    assert (p + rest)[1..] == p[1..] + rest && (p + rest)[0] == p[0] && p[0] in p;
    assert forall c :: c in p[1..] ==> c in p;
    CharStep(p + rest, Low(v), length, 0);
    ShiftedMod(v, p[0] as int);
  }

  lemma {:induction false} BytesStep(p: string)
    requires p != []
    ensures BytesOf(p) != [] && BytesOf(p)[0] == ByteOf(p[0]) && BytesOf(p)[1..] == BytesOf(p[1..])
    ensures BytesOf(p) == [ByteOf(p[0])] + BytesOf(p[1..])
  {
  }

  lemma {:induction false} NextDigit(v: nat, ds: seq<nat>)
    requires ds != []
    ensures LexNumber.Positional(v, 0x100, ds) == LexNumber.Positional(v * 0x100 + ds[0], 0x100, ds[1..])
  {
  }

  lemma {:induction false} ShiftedMod(v: nat, c: nat)
    ensures Shifted(Low(v), c) == Low(v * 0x100 + c)
  {
    var q := v / WIDE;
    assert v * 0x100 + c == v % WIDE * 0x100 + c + q * 0x100 * WIDE;
    ModShift(v % WIDE * 0x100 + c, q * 0x100);
  }

  // ------------------------------------------------------------ sources that are safe

  /** No backslash ends the text or stands before a newline. */
  predicate Sound(s: string) {
    forall i :: 0 <= i < |s| && s[i] == '\\' ==> i + 1 < |s| && s[i + 1] != '\n'
  }

  lemma {:induction false} SoundAfter(s: string, n: nat)
    requires Sound(s)
    ensures Sound(After(s, n))
  {
  }

  lemma {:induction false} SoundEscape(s: string)
    requires Sound(s) && First(s) == '\\'
    ensures |s| >= 2 && EscapeMisses(s) == 0
  {
    assert s[0] == '\\';
  }

  lemma {:induction false} StringSound(s: string, done: seq<byte>, length: nat, missed: nat)
    ensures var o := StringAt(s, done, length, missed);
            && (o.Reads? || o.Overruns?) && (o.Reads? ==> o.kind != Eof && o.length >= length && o.missed >= missed)
            && (Sound(s) ==> o.Reads? && o.missed == missed)
    decreases |s|
  {
    hide EscapeAt, Encoded, EscapeMisses, StringAt, Sound;
    if First(s) == '\"' || s == [] {
      StringEnd(s, done, length, missed);
    } else {
      StringStep(s, done, length, missed);
      if s[0] != '\\' {
        if Sound(s) { SoundAfter(s, 1); }
        StringSound(s[1..], done + [ByteOf(s[0])], length + 1, missed);
      } else {
        if Sound(s) { SoundEscape(s); }
        if |s| > 1 {
          var e := EscapeAt(s, true, true);
          if Sound(s) { SoundAfter(s, e.length); }
          StringSound(After(s, e.length), done + Encoded(e), length + e.length, missed + EscapeMisses(s));
        }
      }
    }
  }

  lemma {:induction false} CharSound(s: string, value: nat, length: nat, missed: nat)
    ensures var o := CharAt(s, value, length, missed);
            && (o.Reads? || o.Overruns?) && (o.Reads? ==> o.kind != Eof && o.length >= length && o.missed >= missed)
            && (Sound(s) ==> o.Reads? && o.missed == missed)
    decreases |s|
  {
    hide EscapeAt, Shifted, Packed, EscapeMisses, CharAt, Sound;
    if First(s) == '\'' || s == [] {
      CharEnd(s, value, length, missed);
    } else {
      CharStep(s, value, length, missed);
      if s[0] != '\\' {
        if Sound(s) { SoundAfter(s, 1); }
        CharSound(s[1..], if s[0] as int < 0x80 then Shifted(value, s[0] as int) else value, length + 1, missed);
      } else {
        if Sound(s) { SoundEscape(s); }
        if |s| > 1 {
          var e := EscapeAt(s, false, false);
          if Sound(s) { SoundAfter(s, e.length); }
          CharSound(After(s, e.length), Packed(e, value), length + e.length, missed + EscapeMisses(s));
        }
      }
    }
  }

  /** No byte of the text is a carriage return. */
  predicate NoReturns(s: string) {
    RETURN !in BytesOf(s)
  }

  lemma {:induction false} NoReturnsAfter(s: string, n: nat)
    requires NoReturns(s)
    ensures NoReturns(After(s, n)) && (s != [] ==> ByteOf(s[0]) != RETURN)
  {
    if s != [] { assert BytesOf(s)[0] == ByteOf(s[0]); }
    var t := After(s, n);
    forall i | 0 <= i < |t| ensures BytesOf(t)[i] != RETURN {
      assert BytesOf(t)[i] == BytesOf(s)[n + i];
    }
  }

  lemma {:induction false} TripleSound(s: string, done: seq<byte>, length: nat)
    ensures var o := TripleAt(s, done, length);
            && (o.Reads? || o.Strays?) && (o.Reads? ==> o.kind != Eof && o.length >= length && o.missed == 0)
            && (NoReturns(s) && RETURN !in done ==> o.Reads?)
    decreases |s|
  {
    hide EndTriple, NoReturns;
    TripleStep(s, done, length);
    if ThreeQuotes(s) {
      EndSound(s[3..], done, length + 3);
    } else if s != [] {
      if NoReturns(s) { NoReturnsAfter(s, 1); }
      TripleSound(s[1..], done + [ByteOf(s[0])], length + 1);
    }
  }

  lemma {:induction false} EndSound(s: string, done: seq<byte>, length: nat)
    ensures var o := EndTriple(s, done, length);
            && (o.Reads? || o.Strays?) && (o.Reads? ==> o.kind != Eof && o.length >= length && o.missed == 0)
            && (RETURN !in done ==> o.Reads?)
    decreases |s|
  {
    hide LeftoverNewline, Dedent;
    if First(s) == '\"' {
      EndSound(s[1..], done + [ByteOf('\"')], length + 1);
    } else {
      LeftoverNewlineExactly(done);
    }
  }
}
