/** The reading of string and character literals. */
module LexLiteral {
  import opened Wrappers
  import opened Words
  import opened Shifts
  import opened LexInts
  import opened LexCursor
  import opened TokenText
  import LexNumber

  // ------------------------------------------------------------ escapes

  function HexDigit(c: char): Option<nat> {
    if '0' <= c <= '9' then Some((c - '0') as nat)
    else if 'a' <= c <= 'f' then Some((c - 'a') as nat + 10)
    else if 'A' <= c <= 'F' then Some((c - 'A') as nat + 10)
    else None
  }

  /** What an escape stands for, if anything, and how many characters it takes. */
  datatype Escaped = Escaped(value: Option<nat>, length: nat)

  /** The hexadecimal digits still to be read, after those that have given `value`. */
  function HexAt(s: string, digits: nat, value: nat): Escaped {
    if digits == 0 then Escaped(Some(value), 0)
    else if HexDigit(First(s)).None? then Escaped(None, 0)
    else
      var e := HexAt(After(s, 1), digits - 1, 16 * value + HexDigit(First(s)).value);
      Escaped(e.value, 1 + e.length)
  }

  lemma {:induction false} HexStep(s: string, digits: nat, value: nat)
    ensures HexAt(s, digits, value) ==
            if digits == 0 then Escaped(Some(value), 0)
            else if HexDigit(First(s)).None? then Escaped(None, 0)
            else
              var e := HexAt(After(s, 1), digits - 1, 16 * value + HexDigit(First(s)).value);
              Escaped(e.value, 1 + e.length)
  {
  }

  /** Each of the digits there are is worth its place, and they are fewer than asked for just in case the next character
    * is none.
    */
  lemma {:induction false} HexBounded(s: string, digits: nat, value: nat)
    ensures var e := HexAt(s, digits, value);
            && e.length <= |s| && e.length <= digits && (e.value.Some? <==> e.length == digits)
            && (e.length < digits ==> HexDigit(First(After(s, e.length))).None?)
            && (e.value.Some? ==> value * LexNumber.Power(16, digits) <= e.value.value
                                  < (value + 1) * LexNumber.Power(16, digits))
  {
    if digits > 0 && HexDigit(First(s)).Some? {
      var d, p := HexDigit(First(s)).value, LexNumber.Power(16, digits - 1);
      HexBounded(After(s, 1), digits - 1, 16 * value + d);
      hide HexDigit;
      Nested(value, d, p);
    }
  }

  lemma {:induction false} Nested(value: nat, d: nat, p: nat)
    requires d < 16
    ensures value * (16 * p) <= (16 * value + d) * p && (16 * value + d + 1) * p <= (value + 1) * (16 * p)
  {
    assert (16 * value + d) * p == value * (16 * p) + d * p;
    assert (16 * value + d + 1) * p == value * (16 * p) + (d + 1) * p;
    MulMono(d + 1, 16, p);
  }

  function HexDigits(c: char, unicodeAllowed: bool): nat {
    if c == 'x' then 2
    else if unicodeAllowed && c == 'u' then 4
    else if unicodeAllowed && c == 'U' then 6
    else 0
  }

  function SimpleEscape(c: char, isString: bool): Option<nat> {
    match c
    case 'a' => Some(0x07)
    case 'b' => Some(0x08)
    case 'e' => Some(0x1B)
    case 'f' => Some(0x0C)
    case 'n' => Some(0x0A)
    case 'r' => Some(0x0D)
    case 't' => Some(0x09)
    case 'v' => Some(0x0B)
    case '\\' => Some(0x5C)
    case '0' => Some(0x00)
    case '\"' => if isString then Some(0x22) else None
    case '\'' => if isString then None else Some(0x27)
    case _ => None
  }

  /** An escape, of which the backslash and the next character are there. */
  function EscapeAt(s: string, unicodeAllowed: bool, isString: bool): (e: Escaped)
    requires |s| >= 2
    ensures e.length >= 2
    ensures e.value.Some? ==> e.value.value <= 0x10FFFF
  {
    var digits := HexDigits(s[1], unicodeAllowed);
    var e := if digits > 0 then HexAt(s[2..], digits, 0) else Escaped(SimpleEscape(s[1], isString), 0);
    Escaped(if e.value.Some? && e.value.value <= 0x10FFFF then e.value else None, 2 + e.length)
  }

  /** A newline right after the backslash is not counted. */
  function EscapeMisses(s: string): nat {
    if First(After(s, 1)) == '\n' then 1 else 0
  }

  /** Reads the digits of an escape. When there are too few it returns minus the number of characters of the escape up
    * to there, counting the two before the digits.
    */
  method ReadHexEscape(lexer: Lexer, length: nat) returns (value: int)
    requires lexer.Valid() && length <= 6
    modifies lexer`ptr, lexer`len, lexer`line, lexer`pos, lexer`lost
    ensures lexer.Valid()
    ensures var e := HexAt(old(lexer.Rest()), length, 0);
            && lexer.Moved(e.length, 0) && lexer.Rest() == After(old(lexer.Rest()), e.length)
            && value == if e.value.Some? then e.value.value else -2 - e.length
  {
    hide HexAt, Newlines, Column;
    ghost var s := lexer.Rest();
    value := 0;
    var textLen := 2;
    ghost var e := HexAt(s, length, 0);
    for i := 0 to length
      invariant lexer.Valid() && lexer.Moved(i, 0) && textLen == 2 + i && value >= 0
      invariant lexer.Rest() == After(s, i)
      invariant var f := HexAt(lexer.Rest(), length - i, value); e == Escaped(f.value, i + f.length)
    {
      HexStep(lexer.Rest(), length - i, value);
      var c := lexer.Look();
      var digit := 0;
      if '0' <= c <= '9' {
        digit := (c - '0') as int;
      } else if 'a' <= c <= 'f' {
        digit := (c - 'a') as int + 10;
      } else if 'A' <= c <= 'F' {
        digit := (c - 'A') as int + 10;
      } else {
        return -textLen;
      }
      textLen := textLen + 1;
      lexer.ConsumeOne();
      value := 16 * value + digit;
    }
    HexStep(lexer.Rest(), 0, value);
  }

  /** Reads an escape, whose backslash has been seen but not consumed. A negative value is an error; nothing at all is
    * returned when the backslash is the last character, of which two are consumed nevertheless.
    */
  method Escape(lexer: Lexer, unicodeAllowed: bool, isString: bool) returns (value: Option<int>)
    requires lexer.Valid() && lexer.len > 0
    modifies lexer`ptr, lexer`len, lexer`line, lexer`pos, lexer`lost
    ensures lexer.Valid() && (value == None <==> old(lexer.len) == 1)
    ensures value.Some? ==>
              var s := old(lexer.Rest());
              var e := EscapeAt(s, unicodeAllowed, isString);
              && lexer.Moved(e.length, EscapeMisses(s)) && lexer.Rest() == After(s, e.length)
              && if e.value.Some? then value.value == e.value.value else value.value < 0
  {
    hide HexAt, Newlines, Column;
    ghost var s := lexer.Rest();
    var c := lexer.LookN(2);
    if lexer.len < 2 {
      return None;
    }
    OneCharacter(c);
    assert s[1..2] == [c];
    lexer.ConsumeChars(2);
    var hexDigits := 0;
    var v := -2;
    match c {
      case 'a' => v := 0x07;
      case 'b' => v := 0x08;
      case 'e' => v := 0x1B;
      case 'f' => v := 0x0C;
      case 'n' => v := 0x0A;
      case 'r' => v := 0x0D;
      case 't' => v := 0x09;
      case 'v' => v := 0x0B;
      case '\\' => v := 0x5C;
      case '0' => v := 0x00;
      case 'x' => hexDigits := 2;
      case '\"' => if isString { v := 0x22; }
      case '\'' => if !isString { v := 0x27; }
      case 'u' => if unicodeAllowed { hexDigits := 4; }
      case 'U' => if unicodeAllowed { hexDigits := 6; }
      case _ =>
    }
    if hexDigits > 0 {
      v := ReadHexEscape(lexer, hexDigits);
      if v < 0 {
        return Some(-1);
      }
      if v > 0x10FFFF {
        return Some(-1);
      }
    }
    if v < 0 {
      return Some(-1);
    }
    value := Some(v);
  }

  // ------------------------------------------------------------ string literals

  function Encoded(e: Escaped): seq<byte> {
    if e.value.Some? && e.value.value <= 0x10FFFF then Encode(e.value.value) else []
  }

  /** A string literal from somewhere within it, after characters that have given the bytes `done`. */
  function StringAt(s: string, done: seq<byte>, length: nat, missed: nat): Outcome
    decreases |s|
  {
    if s == [] then Reads(LexError, length, missed)
    else if s[0] == '\"' then Reads(StringLiteral(done), length + 1, missed)
    else if s[0] == '\\' then
      if |s| == 1 then Overruns else
        var e := EscapeAt(s, true, true);
        StringAt(After(s, e.length), done + Encoded(e), length + e.length, missed + EscapeMisses(s))
    else StringAt(s[1..], done + [ByteOf(s[0])], length + 1, missed)
  }

  predicate ThreeQuotes(s: string) {
    |s| >= 3 && s[0] == '\"' && s[1] == '\"' && s[2] == '\"'
  }

  method AtThreeQuotes(lexer: Lexer) returns (r: bool)
    requires lexer.Valid()
    ensures r == ThreeQuotes(lexer.Rest()) && (r ==> lexer.len >= 3)
  {
    var c := lexer.Look();
    var c2 := lexer.LookN(2);
    var c3 := lexer.LookN(3);
    r := c == '\"' && c2 == '\"' && c3 == '\"';
  }

  /** A triple-quoted string from somewhere within it. Of four quotes or more all but three are part of it. */
  function TripleAt(s: string, done: seq<byte>, length: nat): Outcome {
    if s == [] then Reads(LexError, length, 0)
    else if ThreeQuotes(s) then EndTriple(s[3..], done, length + 3)
    else TripleAt(s[1..], done + [ByteOf(s[0])], length + 1)
  }

  lemma {:induction false} TripleStep(s: string, done: seq<byte>, length: nat)
    ensures TripleAt(s, done, length) ==
            if s == [] then Reads(LexError, length, 0)
            else if ThreeQuotes(s) then EndTriple(s[3..], done, length + 3)
            else TripleAt(s[1..], done + [ByteOf(s[0])], length + 1)
  {
  }

  function EndTriple(s: string, done: seq<byte>, length: nat): Outcome {
    if First(s) == '\"' then EndTriple(s[1..], done + [ByteOf('\"')], length + 1)
    else if LeftoverNewline(done) then Strays
    else Reads(StringLiteral(Dedent(done)), length, 0)
  }

  /** A string literal from its leading quote on. */
  function QuoteAt(s: string): Outcome {
    if ThreeQuotes(s) then TripleAt(s[3..], [], 3) else StringAt(After(s, 1), [], 1, 0)
  }

  ghost predicate Ready(lexer: Lexer)
    reads lexer, lexer.text
  {
    lexer.Valid() && lexer.text.Valid()
  }

  /** One step within a string literal: an escape or a plain character. */
  lemma {:induction false} StringStep(s: string, done: seq<byte>, length: nat, missed: nat)
    requires s != [] && s[0] != '\"'
    ensures StringAt(s, done, length, missed) ==
            if s[0] != '\\' then StringAt(s[1..], done + [ByteOf(s[0])], length + 1, missed)
            else if |s| == 1 then Overruns
            else
              var e := EscapeAt(s, true, true);
              StringAt(After(s, e.length), done + Encoded(e), length + e.length, missed + EscapeMisses(s))
  {
  }

  lemma {:induction false} StringEnd(s: string, done: seq<byte>, length: nat, missed: nat)
    requires First(s) == '\"' || s == []
    ensures StringAt(s, done, length, missed) ==
            if s == [] then Reads(LexError, length, missed) else Reads(StringLiteral(done), length + 1, missed)
  {
  }

  /** Reads an escape of a string literal into the token text. Bad escapes have been reported, and are ignored. */
  method StringEscape(lexer: Lexer) returns (ok: bool)
    requires Ready(lexer) && lexer.len > 0
    modifies lexer`ptr, lexer`len, lexer`line, lexer`pos, lexer`lost, lexer.text, lexer.text.buffer
    ensures Ready(lexer) && (lexer.text.buffer == old(lexer.text.buffer) || fresh(lexer.text.buffer))
    ensures ok <==> old(lexer.len) > 1
    ensures ok ==>
              var s := old(lexer.Rest());
              var e := EscapeAt(s, true, true);
              && lexer.Moved(e.length, EscapeMisses(s)) && lexer.Rest() == After(s, e.length)
              && lexer.text.Contents() == old(lexer.text.Contents()) + Encoded(e)
  {
    hide EscapeAt, EscapeMisses, Encode, After, Newlines, Column;
    var value := Escape(lexer, true, true);
    if value == None {
      return false;
    }
    if value.value >= 0 {
      lexer.text.AppendUtf8(value.value);
    }
    ok := true;
  }

  /** Reads a string literal, whose leading quote has been seen but not consumed. */
  method String(lexer: Lexer) returns (kind: Option<Kind>)
    requires Ready(lexer) && lexer.text.Contents() == [] && First(lexer.Rest()) == '\"'
    modifies lexer, lexer.text, lexer.text.buffer
    ensures Ready(lexer) && (lexer.text.buffer == old(lexer.text.buffer) || fresh(lexer.text.buffer))
    ensures lexer.Did(QuoteAt(old(lexer.Rest())), kind)
  {
    hide TripleAt, StringAt, Newlines, Column, ThreeQuotes;
    var triple := AtThreeQuotes(lexer);
    if triple {
      kind := TripleString(lexer);
      return;
    }
    lexer.ConsumeOne();
    kind := StringBody(lexer, old(lexer.ptr), old(lexer.lost));
  }

  /** The loop over a string literal that began at `start`. */
  method StringBody(lexer: Lexer, ghost start: nat, ghost lost: nat) returns (kind: Option<Kind>)
    requires Ready(lexer) && start <= lexer.ptr && lost <= lexer.lost
    modifies lexer, lexer.text, lexer.text.buffer
    ensures Ready(lexer) && (lexer.text.buffer == old(lexer.text.buffer) || fresh(lexer.text.buffer))
    ensures lexer.newline == old(lexer.newline) && lexer.skipped == old(lexer.skipped)
    ensures var o := StringAt(old(lexer.Rest()), old(lexer.text.Contents()), old(lexer.ptr) - start,
                              old(lexer.lost) - lost);
            if o.Reads? then kind == Some(o.kind) && lexer.ptr == start + o.length && lexer.lost == lost + o.missed
            else o == Overruns && kind == None
  {
    hide EscapeAt, EscapeMisses, StringAt, Encoded, Newlines, Column, After, ByteOf;
    ghost var o := StringAt(lexer.Rest(), lexer.text.Contents(), lexer.ptr - start, lexer.lost - lost);
    while true
      invariant Ready(lexer) && (lexer.text.buffer == old(lexer.text.buffer) || fresh(lexer.text.buffer))
      invariant start <= lexer.ptr && lost <= lexer.lost
      invariant lexer.newline == old(lexer.newline) && lexer.skipped == old(lexer.skipped)
      invariant StringAt(lexer.Rest(), lexer.text.Contents(), lexer.ptr - start, lexer.lost - lost) == o
      decreases lexer.len
    {
      ghost var s, length, missed := lexer.Rest(), lexer.ptr - start, lexer.lost - lost;
      if lexer.IsEof() {
        StringEnd(s, lexer.text.Contents(), length, missed);
        lexer.SkipAll();
        return Some(LexError);
      }
      var c := lexer.Look();
      if c == '\"' {
        StringEnd(s, lexer.text.Contents(), length, missed);
        lexer.ConsumeOne();
        return Some(StringLiteral(lexer.text.buffer[..lexer.text.buflen]));
      }
      StringStep(s, lexer.text.Contents(), length, missed);
      if c == '\\' {
        var ok := StringEscape(lexer);
        if !ok {
          return None;
        }
      } else {
        lexer.text.Append(ByteOf(c));
        lexer.ConsumeOne();
      }
    }
  }

  /** Reads a triple-quoted string, whose three quotes have been seen but not consumed. */
  method TripleString(lexer: Lexer) returns (kind: Option<Kind>)
    requires Ready(lexer) && lexer.text.Contents() == [] && ThreeQuotes(lexer.Rest())
    modifies lexer, lexer.text, lexer.text.buffer
    ensures Ready(lexer) && (lexer.text.buffer == old(lexer.text.buffer) || fresh(lexer.text.buffer))
    ensures lexer.Did(TripleAt(old(lexer.Rest())[3..], [], 3), kind)
  {
    hide TripleAt, Newlines, Column;
    NoNewlines(lexer.Rest());
    lexer.ConsumeChars(3);
    kind := TripleBody(lexer, old(lexer.ptr));
  }

  /** The loop over a triple-quoted string that began at `start`. */
  method TripleBody(lexer: Lexer, ghost start: nat) returns (kind: Option<Kind>)
    requires Ready(lexer) && start <= lexer.ptr
    modifies lexer, lexer.text, lexer.text.buffer
    ensures Ready(lexer) && (lexer.text.buffer == old(lexer.text.buffer) || fresh(lexer.text.buffer))
    ensures var o := TripleAt(old(lexer.Rest()), old(lexer.text.Contents()), old(lexer.ptr) - start);
            if o.Reads? then kind == Some(o.kind) && lexer.ptr == start + o.length && o.missed == 0
              else o == Strays && kind == None
    ensures lexer.lost == old(lexer.lost) && lexer.skipped == old(lexer.skipped) && lexer.newline == old(lexer.newline)
  {
    hide TripleAt, EndTriple, Newlines, Column, ByteOf, ThreeQuotes;
    ghost var o := TripleAt(lexer.Rest(), lexer.text.Contents(), lexer.ptr - start);
    while true
      invariant Ready(lexer) && (lexer.text.buffer == old(lexer.text.buffer) || fresh(lexer.text.buffer))
      invariant start <= lexer.ptr
      invariant lexer.lost == old(lexer.lost) && lexer.skipped == old(lexer.skipped) &&
                lexer.newline == old(lexer.newline)
      invariant TripleAt(lexer.Rest(), lexer.text.Contents(), lexer.ptr - start) == o
      decreases lexer.len
    {
      TripleStep(lexer.Rest(), lexer.text.Contents(), lexer.ptr - start);
      if lexer.IsEof() {
        lexer.SkipAll();
        return Some(LexError);
      }
      var atEnd := AtThreeQuotes(lexer);
      if atEnd {
        NoNewlines(lexer.Rest());
        lexer.ConsumeChars(3);
        kind := TripleEnd(lexer, start);
        return;
      }
      var c := lexer.Look();
      lexer.ConsumeOne();
      lexer.text.Append(ByteOf(c));
    }
  }

  /** The end of a triple-quoted string that began at `start`. */
  method TripleEnd(lexer: Lexer, ghost start: nat) returns (kind: Option<Kind>)
    requires Ready(lexer) && start <= lexer.ptr
    modifies lexer, lexer.text, lexer.text.buffer
    ensures Ready(lexer) && (lexer.text.buffer == old(lexer.text.buffer) || fresh(lexer.text.buffer))
    ensures var o := EndTriple(old(lexer.Rest()), old(lexer.text.Contents()), old(lexer.ptr) - start);
            if o.Reads? then kind == Some(o.kind) && lexer.ptr == start + o.length && o.missed == 0
              else o == Strays && kind == None
    ensures lexer.lost == old(lexer.lost) && lexer.skipped == old(lexer.skipped) && lexer.newline == old(lexer.newline)
  {
    hide LeftoverNewline, Dedent, Newlines, Column;
    ghost var o := EndTriple(lexer.Rest(), lexer.text.Contents(), lexer.ptr - start);
    var c := lexer.Look();
    while c == '\"'
      invariant Ready(lexer) && (lexer.text.buffer == old(lexer.text.buffer) || fresh(lexer.text.buffer))
      invariant start <= lexer.ptr
      invariant lexer.lost == old(lexer.lost) && lexer.skipped == old(lexer.skipped) &&
                lexer.newline == old(lexer.newline)
      invariant c == First(lexer.Rest())
      invariant EndTriple(lexer.Rest(), lexer.text.Contents(), lexer.ptr - start) == o
      decreases lexer.len
    {
      lexer.text.Append(ByteOf('\"'));
      lexer.ConsumeOne();
      c := lexer.Look();
    }
    var defined := lexer.text.Normalise();
    kind := if defined then Some(StringLiteral(lexer.text.buffer[..lexer.text.buflen])) else None;
  }

  lemma {:induction false} NoNewlines(s: string)
    requires ThreeQuotes(s)
    ensures Newlines(s[1..3]) == 0
  {
    OneCharacter('\"');
    NewlinesAdd("\"", "\"");
    assert s[1..3] == "\"" + "\"";
  }

  // ------------------------------------------------------------ character literals

  function Shifted(value: nat, c: nat): nat {
    (value * 0x100 + c) % WIDE
  }

  /** A character literal from somewhere within it: every character is a byte of the number, and the last sixteen count.
    * Bytes above 127 are negative as characters and are passed over like bad escapes.
    */
  function CharAt(s: string, value: nat, length: nat, missed: nat): Outcome
    decreases |s|
  {
    if s == [] then Reads(LexError, length, missed)
    else if s[0] == '\'' then Reads(IntLiteral(value), length + 1, missed)
    else if s[0] == '\\' then
      if |s| == 1 then Overruns else
        var e := EscapeAt(s, false, false);
        CharAt(After(s, e.length), Packed(e, value), length + e.length, missed + EscapeMisses(s))
    else CharAt(s[1..], if s[0] as int < 0x80 then Shifted(value, s[0] as int) else value, length + 1, missed)
  }

  function Packed(e: Escaped, value: nat): nat {
    if e.value.Some? then Shifted(value, e.value.value) else value
  }

  lemma {:induction false} CharStep(s: string, value: nat, length: nat, missed: nat)
    requires s != [] && s[0] != '\''
    ensures CharAt(s, value, length, missed) ==
            if s[0] != '\\' then
              CharAt(s[1..], if s[0] as int < 0x80 then Shifted(value, s[0] as int) else value, length + 1, missed)
            else if |s| == 1 then Overruns
            else
              var e := EscapeAt(s, false, false);
              CharAt(After(s, e.length), Packed(e, value), length + e.length, missed + EscapeMisses(s))
  {
  }

  lemma {:induction false} CharEnd(s: string, value: nat, length: nat, missed: nat)
    requires First(s) == '\'' || s == []
    ensures CharAt(s, value, length, missed) ==
            if s == [] then Reads(LexError, length, missed) else Reads(IntLiteral(value), length + 1, missed)
  {
  }

  /** Without the escapes of code points, what an escape stands for is a byte. */
  lemma {:induction false} EscapeIsByte(s: string, isString: bool)
    requires |s| >= 2
    ensures var e := EscapeAt(s, false, isString); e.value.Some? ==> e.value.value < 0x100
  {
    hide HexAt;
    HexBounded(s[2..], 2, 0);
    assert LexNumber.Power(16, 2) == 0x100;
  }

  /** Reads a character literal, whose leading quote has been seen but not consumed. */
  method Character(lexer: Lexer) returns (kind: Option<Kind>)
    requires lexer.Valid() && lexer.len > 0
    modifies lexer
    ensures lexer.Valid() && lexer.Did(CharAt(old(lexer.Rest())[1..], 0, 1, 0), kind)
  {
    hide EscapeAt, EscapeMisses, CharAt, Newlines, Column, After;
    ghost var o := CharAt(lexer.Rest()[1..], 0, 1, 0);
    lexer.ConsumeOne();
    var value := new LexInt();
    while true
      invariant lexer.Valid() && lexer.ptr >= old(lexer.ptr) && lexer.lost >= old(lexer.lost)
      invariant lexer.newline == old(lexer.newline) && lexer.skipped == old(lexer.skipped)
      invariant CharAt(lexer.Rest(), value.Bits(), lexer.ptr - old(lexer.ptr), lexer.lost - old(lexer.lost)) == o
      decreases lexer.len
    {
      ghost var s, length, missed := lexer.Rest(), lexer.ptr - old(lexer.ptr), lexer.lost - old(lexer.lost);
      if lexer.IsEof() {
        CharEnd(s, value.Bits(), length, missed);
        lexer.SkipAll();
        return Some(LexError);
      }
      var look := lexer.Look();
      if look == '\'' {
        CharEnd(s, value.Bits(), length, missed);
        lexer.ConsumeOne();
        return Some(IntLiteral(Join(value.high, value.low)));
      }
      CharStep(s, value.Bits(), length, missed);
      // A byte above 127 is a negative `char`.
      var c := if look as int < 0x80 then look as int else -1;
      if look == '\\' {
        var escaped := Escape(lexer, false, false);
        if escaped == None {
          return None;
        }
        EscapeIsByte(s, false);
        c := escaped.value;
      } else {
        lexer.ConsumeOne();
      }
      if c >= 0 {
        Char(value, c);
      }
    }
  }
}
