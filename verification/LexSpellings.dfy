/** How names and the characters of literals are spelled, and what the spellings are read as. */
module LexSpellings {
  import opened Wrappers
  import opened Words
  import opened Shifts
  import opened LexInts
  import opened LexCursor
  import opened LexLiteral
  import opened LexQuoted
  import opened LexWords
  import opened LexNext
  import opened TokenText
  import LexNumber
  import opened LexWritten

  // ------------------------------------------------------------ names

  predicate IsWord(w: string) {
    forall c :: c in w ==> InWord(c)
  }

  lemma {:induction false} WordReads(w: string, rest: string)
    requires IsWord(w) && !InWord(First(rest))
    ensures Word(w + rest) == w
  {
    if w == [] {
      assert w + rest == rest;
    } else {
      assert (w + rest)[1..] == w[1..] + rest && w[0] in w;
      assert forall c :: c in w[1..] ==> c in w;
      WordReads(w[1..], rest);
    }
  }

  predicate IsKeyword(name: string) {
    name in KEYWORDS
  }

  lemma {:induction false} PrefixedReads(prefix: string, w: string, rest: string, identifiers: bool)
    requires IsWord(w) && !InWord(First(rest))
    ensures Word(w + rest) == w
    ensures WordAt(prefix, w + rest, identifiers) ==
            if IsKeyword(prefix + w) then Some(Keyword(prefix + w))
            else if identifiers && w != [] then Some(Identifier(BytesOf(prefix + w)))
            else None
  {
    WordReads(w, rest);
    hide Word, BytesOf, IsWord, InWord;
  }

  /** A word that stands by itself is a keyword if there is such a keyword, and an identifier otherwise. */
  lemma {:induction false} NameReads(w: string, rest: string, newline: bool, testSymbols: bool)
    requires w != [] && IsWord(w) && (Letter(w[0]) || w[0] == '_') && !InWord(First(rest))
    ensures StepAt(w + rest, newline, testSymbols) ==
            Reads(if IsKeyword(w) then Keyword(w) else Identifier(BytesOf(w)), |w|, 0)
  {
    hide Word, StepAt, BytesOf, Letter, IsWord, IsKeyword, WordAt, InWord;
    PrefixedReads("", w, rest, true);
    var s := w + rest;
    assert s[0] == w[0];
    assert "" + w == w;
    LetterReads(s, newline, testSymbols);
  }

  lemma {:induction false} LetterReads(s: string, newline: bool, testSymbols: bool)
    requires s != [] && (Letter(s[0]) || s[0] == '_')
    ensures StepAt(s, newline, testSymbols) == NameAt(s)
  {
    hide NameAt;
  }

  /** A hash begins a word only if that makes it a keyword. */
  lemma {:induction false} HashReads(w: string, rest: string, newline: bool, testSymbols: bool)
    requires IsWord(w) && !InWord(First(rest))
    ensures StepAt("#" + w + rest, newline, testSymbols) ==
            if IsKeyword("#" + w) then Reads(Keyword("#" + w), 1 + |w|, 0) else Reads(Symbol("#", false), 1, 0)
  {
    hide Word, StepAt, BytesOf, IsWord, IsKeyword, WordAt, InWord;
    PrefixedReads("#", w, rest, false);
    var s := "#" + w + rest;
    assert s[0] == '#' && After(s, 1) == w + rest;
    PrefixReads(s, newline, testSymbols);
  }

  lemma {:induction false} PrefixReads(s: string, newline: bool, testSymbols: bool)
    requires s != []
    ensures s[0] == '#' ==> StepAt(s, newline, testSymbols) == HashAt(s)
    ensures s[0] == '$' ==> StepAt(s, newline, testSymbols) == DollarAt(s, testSymbols)
  {
    hide HashAt, DollarAt;
  }

  /** A dollar begins a keyword or an identifier in tests, and is an error otherwise and by itself. */
  lemma {:induction false} DollarReads(w: string, rest: string, newline: bool, testSymbols: bool)
    requires IsWord(w) && !InWord(First(rest))
    ensures StepAt("$" + w + rest, newline, testSymbols) ==
            if testSymbols && IsKeyword("$" + w) then Reads(Keyword("$" + w), 1 + |w|, 0)
            else if testSymbols && w != "" then Reads(Identifier(BytesOf("$" + w)), 1 + |w|, 0)
            else Reads(LexError, 1, 0)
  {
    hide Word, StepAt, BytesOf, IsWord, IsKeyword, WordAt, InWord;
    PrefixedReads("$", w, rest, true);
    var s := "$" + w + rest;
    assert s[0] == '$' && After(s, 1) == w + rest;
    PrefixReads(s, newline, testSymbols);
  }

  // ------------------------------------------------------------ escapes

  /** The letters of the short escapes, and what they stand for. */
  const LETTERS := "abefnrtv\\0"
  const CODES: seq<nat> := [0x07, 0x08, 0x1B, 0x0C, 0x0A, 0x0D, 0x09, 0x0B, 0x5C, 0x00]

  /** A character of a literal, as it is written: itself; a short escape, by its place in the list; the quote, escaped;
    * digits after x, u or U; or an escape there is not.
    */
  datatype Unit = Self(c: char) | Short(place: nat) | Quote | Hex(letter: char, digits: seq<Mark>) | Bad(c: char)

  function QuoteOf(isString: bool): char {
    if isString then '\"' else '\''
  }

  /** Two digits after x, and four after u and six after U in a string. */
  predicate GoodHex(letter: char, ms: seq<Mark>, isString: bool) {
    && Below(ms, 16) && (forall m :: m in ms ==> !m.underscore)
    && ((letter == 'x' && |ms| == 2) || (isString && letter == 'u' && |ms| == 4) ||
        (isString && letter == 'U' && |ms| == 6))
  }

  predicate Good(u: Unit, isString: bool) {
    match u
    case Self(c) => c != '\\' && c != QuoteOf(isString)
    case Short(place) => place < |LETTERS|
    case Quote => true
    case Hex(letter, digits) => GoodHex(letter, digits, isString)
    case Bad(c) => c !in LETTERS && c != QuoteOf(isString) && c != 'x' && c != '\n' && (isString ==> c !in "uU")
  }

  function UnitText(u: Unit, isString: bool): string
    requires Good(u, isString)
  {
    match u
    case Self(c) => [c]
    case Short(place) => ['\\', LETTERS[place]]
    case Quote => ['\\', QuoteOf(isString)]
    case Hex(letter, digits) => ['\\', letter] + Spelled(digits)
    case Bad(c) => ['\\', c]
  }

  /** The code point an escape stands for, if there is one. */
  function UnitValue(u: Unit, isString: bool): Option<nat>
    requires Good(u, isString)
  {
    match u
    case Self(c) => Some(c as int)
    case Short(place) => Some(CODES[place])
    case Quote => Some(QuoteOf(isString) as int)
    case Hex(_, digits) => if NumberOf(digits, 16) <= 0x10FFFF then Some(NumberOf(digits, 16)) else None
    case Bad(_) => None
  }

  lemma {:induction false} ShortIs(place: nat, isString: bool)
    requires place < |LETTERS|
    ensures SimpleEscape(LETTERS[place], isString) == Some(CODES[place]) && HexDigits(LETTERS[place], isString) == 0
    ensures LETTERS[place] != '\n' && CODES[place] <= 0x5C
  {
  }

  lemma {:induction false} BadIs(c: char, isString: bool)
    requires Good(Bad(c), isString)
    ensures SimpleEscape(c, isString) == None && HexDigits(c, isString) == 0
  {
    assert LETTERS[0] == 'a' && LETTERS[1] == 'b' && LETTERS[2] == 'e' && LETTERS[3] == 'f' && LETTERS[4] == 'n';
    assert LETTERS[5] == 'r' && LETTERS[6] == 't' && LETTERS[7] == 'v' && LETTERS[8] == '\\' && LETTERS[9] == '0';
  }

  lemma {:induction false} HexSpelled(ms: seq<Mark>, value: nat, rest: string)
    requires Below(ms, 16) && forall m :: m in ms ==> !m.underscore
    ensures |Spelled(ms)| == |ms|
    ensures HexAt(Spelled(ms) + rest, |ms|, value) ==
            Escaped(Some(value * LexNumber.Power(16, |ms|) + NumberOf(ms, 16)), |ms|)
  {
    hide Spelled, DigitChar, NumberOf, LexNumber.Power, HexAt, HexDigit;
    if ms == [] {
      NothingSpelled(rest, value);
    } else {
      var d := ms[0].digit;
      var c, more := DigitChar(d, ms[0].capital), Spelled(ms[1..]);
      SpelledCons(ms, 16);
      assert ms[0] in ms;
      HexSpelled(ms[1..], 16 * value + d, rest);
      HexDigitIs(d, ms[0].capital);
      NumberCons(ms);
      HexStep([c] + more + rest, |ms|, value);
      assert After([c] + more + rest, 1) == more + rest;
      PlaceValue(value, d, LexNumber.Power(16, |ms| - 1), NumberOf(ms[1..], 16));
    }
  }

  lemma {:induction false} NothingSpelled(rest: string, value: nat)
    ensures Spelled([]) == "" && NumberOf([], 16) == 0 && LexNumber.Power(16, 0) == 1
    ensures HexAt(Spelled([]) + rest, 0, value) == Escaped(Some(value), 0)
  {
  }

  lemma {:induction false} NumberCons(ms: seq<Mark>)
    requires ms != []
    ensures var p := LexNumber.Power(16, |ms| - 1);
            NumberOf(ms, 16) == ms[0].digit * p + NumberOf(ms[1..], 16) && LexNumber.Power(16, |ms|) == 16 * p
  {
  }

  lemma {:induction false} HexDigitIs(d: nat, capital: bool)
    requires d < 16
    ensures HexDigit(DigitChar(d, capital)) == Some(d)
  {
  }

  /** Every escape is read as what it stands for. */
  lemma {:induction false} EscapeReads(u: Unit, isString: bool, rest: string)
    requires Good(u, isString) && !u.Self?
    ensures var s := UnitText(u, isString) + rest;
            && |s| >= 2 && s[0] == '\\' && EscapeMisses(s) == 0
            && EscapeAt(s, isString, isString) == Escaped(UnitValue(u, isString), |UnitText(u, isString)|)
            && After(s, |UnitText(u, isString)|) == rest
  {
    hide HexAt, Spelled, NumberOf;
    var s := UnitText(u, isString) + rest;
    match u
    case Short(place) =>
      ShortIs(place, isString);
    case Quote =>
    case Hex(letter, digits) =>
      HexSpelled(digits, 0, rest);
      assert s[2..] == Spelled(digits) + rest;
      assert HexDigits(letter, isString) == |digits|;
    case Bad(c) =>
      BadIs(c, isString);
  }

  // ------------------------------------------------------------ literals

  predicate AllGood(us: seq<Unit>, isString: bool) {
    forall u :: u in us ==> Good(u, isString)
  }

  function UnitsText(us: seq<Unit>, isString: bool): string
    requires AllGood(us, isString)
  {
    if us == [] then "" else
      assert Good(us[0], isString);
      UnitText(us[0], isString) + UnitsText(us[1..], isString)
  }

  /** A character that is not escaped gives its own byte, and an escape the encoding of its code point. */
  function UnitBytes(u: Unit): seq<byte>
    requires Good(u, true)
  {
    if u.Self? then [ByteOf(u.c)]
    else if UnitValue(u, true).None? || UnitValue(u, true).value > 0x10FFFF then []
    else Encode(UnitValue(u, true).value)
  }

  function UnitsBytes(us: seq<Unit>): seq<byte>
    requires AllGood(us, true)
  {
    if us == [] then [] else
      assert Good(us[0], true);
      UnitBytes(us[0]) + UnitsBytes(us[1..])
  }

  lemma {:induction false} StringUnit(u: Unit, rest: string, done: seq<byte>, length: nat)
    requires Good(u, true)
    ensures StringAt(UnitText(u, true) + rest, done, length, 0) ==
            StringAt(rest, done + UnitBytes(u), length + |UnitText(u, true)|, 0)
  {
    hide StringAt, Encode, EscapeAt, EscapeMisses;
    var s := UnitText(u, true) + rest;
    if u.Self? {
      assert s[0] == u.c && s[1..] == rest;
    } else {
      EscapeReads(u, true, rest);
    }
    StringStep(s, done, length, 0);
  }

  /** A string is read as what its characters stand for, one after the other; an escape there is not is passed over. */
  lemma {:induction false} UnitsRead(us: seq<Unit>, rest: string, done: seq<byte>, length: nat)
    requires AllGood(us, true)
    ensures StringAt(UnitsText(us, true) + ("\"" + rest), done, length, 0) ==
            Reads(StringLiteral(done + UnitsBytes(us)), length + |UnitsText(us, true)| + 1, 0)
    decreases us
  {
    hide StringAt, UnitText, UnitBytes;
    if us == [] {
      assert UnitsText(us, true) + ("\"" + rest) == "\"" + rest && done + [] == done;
      StringEnd("\"" + rest, done, length, 0);
    } else {
      assert Good(us[0], true);
      StringUnit(us[0], UnitsText(us[1..], true) + ("\"" + rest), done, length);
      UnitsRead(us[1..], rest, done + UnitBytes(us[0]), length + |UnitText(us[0], true)|);
      Associate(UnitText(us[0], true), UnitsText(us[1..], true), "\"" + rest);
      Associate(done, UnitBytes(us[0]), UnitsBytes(us[1..]));
    }
  }

  /** Without a quote after it, it is an error that takes all there is. */
  lemma {:induction false} UnitsUnended(us: seq<Unit>, done: seq<byte>, length: nat)
    requires AllGood(us, true)
    ensures StringAt(UnitsText(us, true), done, length, 0) == Reads(LexError, length + |UnitsText(us, true)|, 0)
    decreases us
  {
    hide StringAt, UnitText, UnitBytes;
    if us == [] {
      StringEnd("", done, length, 0);
    } else {
      assert Good(us[0], true);
      StringUnit(us[0], UnitsText(us[1..], true), done, length);
      UnitsUnended(us[1..], done + UnitBytes(us[0]), length + |UnitText(us[0], true)|);
    }
  }

  /** The bytes a character literal is made of. */
  function CharValue(u: Unit): seq<nat>
    requires Good(u, false)
  {
    if u.Self? then (if u.c as int < 0x80 then [u.c as int] else [])
    else if UnitValue(u, false).None? then [] else [UnitValue(u, false).value]
  }

  function CharValues(us: seq<Unit>): seq<nat>
    requires AllGood(us, false)
  {
    if us == [] then [] else
      assert Good(us[0], false);
      CharValue(us[0]) + CharValues(us[1..])
  }

  /** A number made longer by a digit to the base 256, if there is one, as far as 128 bits hold it. */
  function Pushed(v: nat, ds: seq<nat>): nat {
    LexNumber.Positional(v, 0x100, ds)
  }

  lemma {:induction false} CharUnit(u: Unit, rest: string, v: nat, length: nat)
    requires Good(u, false)
    ensures CharAt(UnitText(u, false) + rest, Low(v), length, 0) ==
            CharAt(rest, Low(Pushed(v, CharValue(u))), length + |UnitText(u, false)|, 0)
  {
    hide CharAt, EscapeAt, EscapeMisses, Low, Shifted;
    var s := UnitText(u, false) + rest;
    if u.Self? {
      assert s[0] == u.c && s[1..] == rest;
    } else {
      EscapeReads(u, false, rest);
    }
    CharStep(s, Low(v), length, 0);
    if CharValue(u) != [] {
      ShiftedMod(v, CharValue(u)[0]);
      NextDigit(v, CharValue(u));
      assert CharValue(u)[1..] == [];
    }
  }

  /** A character literal is the number whose digits to the base 256 its characters and escapes are, the last of them
    * that fit in 128 bits.
    */
  lemma {:induction false} CharactersRead(us: seq<Unit>, rest: string, v: nat, length: nat)
    requires AllGood(us, false)
    ensures CharAt(UnitsText(us, false) + ("'" + rest), Low(v), length, 0) ==
            Reads(IntLiteral(Low(Pushed(v, CharValues(us)))), length + |UnitsText(us, false)| + 1, 0)
    decreases us
  {
    hide CharAt, UnitText, CharValue, Low;
    if us == [] {
      assert UnitsText(us, false) + ("'" + rest) == "'" + rest;
      CharEnd("'" + rest, Low(v), length, 0);
    } else {
      assert Good(us[0], false);
      CharUnit(us[0], UnitsText(us[1..], false) + ("'" + rest), v, length);
      CharactersRead(us[1..], rest, Pushed(v, CharValue(us[0])), length + |UnitText(us[0], false)|);
      Associate(UnitText(us[0], false), UnitsText(us[1..], false), "'" + rest);
      PositionalSum(v, 0x100, CharValue(us[0]), CharValues(us[1..]));
    }
  }

  lemma {:induction false} CharactersUnended(us: seq<Unit>, v: nat, length: nat)
    requires AllGood(us, false)
    ensures CharAt(UnitsText(us, false), Low(v), length, 0) == Reads(LexError, length + |UnitsText(us, false)|, 0)
    decreases us
  {
    hide CharAt, UnitText, CharValue, Low;
    if us == [] {
      CharEnd("", Low(v), length, 0);
    } else {
      assert Good(us[0], false);
      CharUnit(us[0], UnitsText(us[1..], false), v, length);
      CharactersUnended(us[1..], Pushed(v, CharValue(us[0])), length + |UnitText(us[0], false)|);
    }
  }

  // ------------------------------------------------------------ triple quotes

  /** Nowhere in the text are there three quotes in a row. */
  predicate NoThree(p: string) {
    forall i :: 0 <= i <= |p| ==> !ThreeQuotes(p[i..])
  }

  /** Text that three quotes end only where it ends. */
  predicate Inside(p: string) {
    NoThree(p) && (p != [] ==> p[|p| - 1] != '\"')
  }

  lemma {:induction false} NoThreeAfter(p: string)
    requires NoThree(p) && p != []
    ensures NoThree(p[1..]) && !ThreeQuotes(p)
  {
    hide ThreeQuotes;
    assert p[0..] == p;
    forall i | 0 <= i <= |p[1..]|
      ensures !ThreeQuotes(p[1..][i..])
    {
      assert p[1..][i..] == p[i + 1..];
    }
  }

  lemma {:induction false} InsideText(p: string, rest: string, done: seq<byte>, length: nat)
    requires Inside(p)
    ensures TripleAt(p + rest, done, length) == TripleAt(rest, done + BytesOf(p), length + |p|)
    decreases p
  {
    hide TripleAt, NoThree;
    if p == [] {
      assert p + rest == rest && done + BytesOf(p) == done;
    } else {
      NoThreeAfter(p);
      assert (p + rest)[1..] == p[1..] + rest && (p + rest)[0] == p[0];
      assert |p| > 1 ==> p[1..][|p| - 2] == p[|p| - 1];
      assert !ThreeQuotes(p + rest);
      TripleStep(p + rest, done, length);
      InsideText(p[1..], rest, done + [ByteOf(p[0])], length + 1);
      hide BytesOf, ThreeQuotes;
      BytesStep(p);
      Associate(done, [ByteOf(p[0])], BytesOf(p[1..]));
    }
  }

  /** Without three quotes a triple-quoted string is an error that takes all there is. */
  lemma {:induction false} TripleUnended(p: string, done: seq<byte>, length: nat)
    requires NoThree(p)
    ensures TripleAt(p, done, length) == Reads(LexError, length + |p|, 0)
    decreases p
  {
    hide TripleAt, NoThree, ThreeQuotes;
    TripleStep(p, done, length);
    if p != [] {
      NoThreeAfter(p);
      TripleUnended(p[1..], done + [ByteOf(p[0])], length + 1);
    }
  }

  function Quotes(n: nat): (s: string)
    ensures |s| == n && forall i :: 0 <= i < n ==> s[i] == '\"'
  {
    seq(n, i => '\"')
  }

  /** Of the quotes that end a triple-quoted string, all but three belong to its text. */
  lemma {:induction false} QuotesBelong(p: string, n: nat, rest: string)
    requires Inside(p) && First(rest) != '\"'
    ensures var text := BytesOf(p + Quotes(n));
            QuoteAt("\"\"\"" + p + "\"\"\"" + Quotes(n) + rest) ==
            if LeftoverNewline(text) then Strays else Reads(StringLiteral(Dedent(text)), |p| + n + 6, 0)
  {
    hide BytesOf, TripleAt, EndTriple, Dedent, LeftoverNewline, Inside;
    var end := "\"\"\"" + Quotes(n) + rest;
    TripleParts(p, Quotes(n), rest);
    InsideText(p, end, [], 3);
    TripleStep(end, BytesOf(p), 3 + |p|);
    EndWithQuotes(n, rest, BytesOf(p), 6 + |p|);
    assert [] + BytesOf(p) == BytesOf(p);
    BytesJoined(p, Quotes(n));
  }

  lemma {:induction false} BytesJoined(a: string, b: string)
    ensures BytesOf(a + b) == BytesOf(a) + BytesOf(b)
  {
  }

  lemma {:induction false} TripleParts(p: string, quotes: string, rest: string)
    ensures var end := "\"\"\"" + quotes + rest;
            var s := "\"\"\"" + p + "\"\"\"" + quotes + rest;
            s[3..] == p + end && ThreeQuotes(s) && ThreeQuotes(end) && end[3..] == quotes + rest
  {
    var end := "\"\"\"" + quotes + rest;
    var s := "\"\"\"" + p + "\"\"\"" + quotes + rest;
    assert s == "\"\"\"" + (p + end);
  }

  lemma {:induction false} EndWithQuotes(n: nat, rest: string, done: seq<byte>, length: nat)
    requires First(rest) != '\"'
    ensures var text := done + BytesOf(Quotes(n));
            EndTriple(Quotes(n) + rest, done, length) ==
            if LeftoverNewline(text) then Strays else Reads(StringLiteral(Dedent(text)), length + n, 0)
    decreases n
  {
    hide Dedent, LeftoverNewline;
    if n == 0 {
      assert Quotes(0) + rest == rest && done + BytesOf(Quotes(0)) == done;
    } else {
      var s := Quotes(n) + rest;
      assert s[1..] == Quotes(n - 1) + rest && s[0] == '\"';
      EndWithQuotes(n - 1, rest, done + [ByteOf('\"')], length + 1);
      assert done + [ByteOf('\"')] + BytesOf(Quotes(n - 1)) == done + BytesOf(Quotes(n));
    }
  }
}
