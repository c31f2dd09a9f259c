/** The next token of a source, and the tokens of a whole source. */
module LexNext {
  import opened Wrappers
  import opened LexCursor
  import opened LexLiteral
  import opened LexNumber
  import opened LexQuoted
  import opened LexWords

  /** What comes of the next characters; whether `$` begins a word is a setting for tests. */
  function StepAt(s: string, newline: bool, testSymbols: bool): Outcome
    requires s != []
  {
    var c := s[0];
    if c == '\n' then Skips(1, true)
    else if c == '\r' || c == '\t' || c == ' ' then Skips(1, newline)
    else if c == '/' then SlashAt(s, newline)
    else if c == '\"' then QuoteAt(s)
    else if c == '\'' then CharAt(s[1..], 0, 1, 0)
    else if c == '#' then HashAt(s)
    else if c == '$' then DollarAt(s, testSymbols)
    else if Decimal(c) then Reads(NumberAt(s).kind, NumberAt(s).length, 0)
    else if Letter(c) || c == '_' then NameAt(s)
    else SymbolAt(s, newline)
  }

  /** A keyword or identifier, without a prefix. */
  function NameAt(s: string): Outcome {
    var k := WordAt("", s, true);
    if k.Some? then Reads(k.value, |Word(s)|, 0) else Overruns
  }

  predicate Fails(o: Outcome) {
    o.Overruns? || o.Strays?
  }

  /** Every step gets on. Without bad backslashes no newline is missed, and without carriage returns as well none fails.
    */
  ghost predicate Sane(o: Outcome, s: string) {
    && (o.Skips? ==> 0 < o.length <= |s|)
    && (o.Reads? ==> o.length > 0 && o.kind != Eof)
    && (Sound(s) ==> !o.Overruns? && (o.Reads? ==> o.missed == 0))
    && (NoReturns(s) ==> !o.Strays?)
  }

  lemma {:induction false} StepSane(s: string, newline: bool, testSymbols: bool)
    requires s != []
    ensures var o := StepAt(s, newline, testSymbols);
            Sane(o, s) && if s[0] == '\"' || s[0] == '\'' then !o.Skips? && !o.Unended? else !Fails(o)
  {
    hide QuoteAt, CharAt, SlashAt, HashAt, DollarAt, NumberAt, NameAt, SymbolAt, Sound, NoReturns;
    var c := s[0];
    if c == '/' {
      SlashSane(s, newline);
    } else if c == '\"' {
      QuoteSane(s);
    } else if c == '\'' {
      CharSane(s);
    } else if c == '#' || c == '$' {
      WordSane(s, testSymbols);
    } else if Decimal(c) {
      NumberSane(s);
    } else if Letter(c) || c == '_' {
      NameSane(s);
    } else {
      SymbolSane(s, newline);
    }
  }

  lemma {:induction false} SlashSane(s: string, newline: bool)
    ensures Sane(SlashAt(s, newline), s) && !Fails(SlashAt(s, newline))
  {
    hide CommentAt, LineAt, Sound, NoReturns;
    CommentEnds(After(s, 2), 1, 2);
    LineLongest(After(s, 2));
  }

  lemma {:induction false} QuoteSane(s: string)
    ensures Sane(QuoteAt(s), s) && (QuoteAt(s).Reads? || Fails(QuoteAt(s)))
  {
    hide StringAt, TripleAt, NoReturns, Sound;
    if ThreeQuotes(s) {
      TripleSound(s[3..], [], 3);
      if NoReturns(s) { NoReturnsAfter(s, 3); }
    } else {
      StringSound(After(s, 1), [], 1, 0);
      if Sound(s) { SoundAfter(s, 1); }
    }
  }

  lemma {:induction false} CharSane(s: string)
    requires s != []
    ensures var o := CharAt(s[1..], 0, 1, 0); Sane(o, s) && (o.Reads? || Fails(o))
  {
    hide CharAt, NoReturns, Sound;
    CharSound(s[1..], 0, 1, 0);
    if Sound(s) { SoundAfter(s, 1); }
  }

  lemma {:induction false} WordSane(s: string, testSymbols: bool)
    ensures var h, d := HashAt(s), DollarAt(s, testSymbols); Sane(h, s) && Sane(d, s) && h.Reads? && d.Reads?
  {
    hide Word, Sound, NoReturns;
  }

  lemma {:induction false} NumberSane(s: string)
    requires s != [] && Decimal(s[0])
    ensures Sane(Reads(NumberAt(s).kind, NumberAt(s).length, 0), s)
  {
    NumberProgress(s);
    hide NumberAt, Sound, NoReturns;
    NumberIsLiteral(s);
  }

  lemma {:induction false} NumberIsLiteral(s: string)
    ensures NumberAt(s).kind != Eof
  {
    hide NumeralAt;
  }

  lemma {:induction false} NameSane(s: string)
    requires s != [] && InWord(s[0])
    ensures Sane(NameAt(s), s) && NameAt(s).Reads?
  {
    hide Sound, NoReturns;
  }

  lemma {:induction false} SymbolSane(s: string, newline: bool)
    ensures Sane(SymbolAt(s, newline), s) && SymbolAt(s, newline).Reads?
  {
    hide Symbols, FirstSymbol, Sound, NoReturns;
    LongestSymbol(s, 0);
    forall i | 0 <= i < |Symbols()| ensures Symbols()[i] != [] {
      SymbolSizes(i);
    }
  }

  // ------------------------------------------------------------ the next token

  /** How much is passed over before the next token, and what that is. */
  datatype Next = Next(before: nat, outcome: Outcome)

  function NextAt(s: string, newline: bool, testSymbols: bool): Next
    decreases |s|
  {
    if s == [] then Next(0, Reads(Eof, 0, 0)) else
      StepSane(s, newline, testSymbols);
      var o := StepAt(s, newline, testSymbols);
      if o.Skips? then
        var n := NextAt(After(s, o.length), o.newline, testSymbols);
        Next(o.length + n.before, n.outcome)
      else Next(0, o)
  }

  lemma {:induction false} NextStep(s: string, newline: bool, testSymbols: bool)
    requires s != []
    ensures var o, n := StepAt(s, newline, testSymbols), NextAt(s, newline, testSymbols);
            if o.Skips? then
              var m := NextAt(After(s, o.length), o.newline, testSymbols);
              n == Next(o.length + m.before, m.outcome)
            else n == Next(0, o)
  {
    hide StepAt;
  }

  /** After blanks and comments there is the end or a token of some length, with the same provisos. */
  ghost predicate Arrives(n: Next, s: string) {
    var o := n.outcome;
    && !o.Skips? && (o.Unended? ==> n.before < |s|)
    && (o.Reads? ==> if o.kind == Eof then n.before == |s| && o == Reads(Eof, 0, 0) else o.length > 0)
    && (Sound(s) ==> !o.Overruns? && (o.Reads? ==> o.missed == 0))
    && (NoReturns(s) ==> !o.Strays?)
  }

  lemma {:induction false} NoneNext(newline: bool, testSymbols: bool)
    ensures NextAt([], newline, testSymbols) == Next(0, Reads(Eof, 0, 0))
  {
  }

  lemma {:induction false} AfterShorter(s: string, n: nat)
    requires 0 < n <= |s|
    ensures |After(s, n)| == |s| - n
  {
  }

  lemma {:induction false} NextSane(s: string, newline: bool, testSymbols: bool)
    ensures Arrives(NextAt(s, newline, testSymbols), s)
    decreases |s|
  {
    hide StepAt, Sound, NoReturns, NextAt, After;
    if s == [] {
      NoneNext(newline, testSymbols);
    } else {
      StepSane(s, newline, testSymbols);
      NextStep(s, newline, testSymbols);
      var o := StepAt(s, newline, testSymbols);
      if o.Skips? {
        AfterShorter(s, o.length);
        NextSane(After(s, o.length), o.newline, testSymbols);
        if Sound(s) { SoundAfter(s, o.length); }
        if NoReturns(s) { NoReturnsAfter(s, o.length); }
      }
    }
  }

  /** The choice by the first character. Nothing is returned for blanks and comments, and when the source fails. */
  method Step(lexer: Lexer, testSymbols: bool) returns (kind: Option<Kind>, fails: bool)
    requires Ready(lexer) && lexer.len > 0 && lexer.text.Contents() == []
    modifies lexer, lexer.text, lexer.text.buffer
    ensures Ready(lexer) && (lexer.text.buffer == old(lexer.text.buffer) || fresh(lexer.text.buffer))
    ensures var o := StepAt(old(lexer.Rest()), old(lexer.newline), testSymbols);
            lexer.Did(o, kind) && fails == Fails(o)
  {
    hide QuoteAt, CharAt, SlashAt, HashAt, DollarAt, NumberAt, WordAt, SymbolAt, Newlines, Column, Word, BytesOf;
    StepSane(lexer.Rest(), lexer.newline, testSymbols);
    var c := lexer.Look();
    fails := false;
    if c == '\n' {
      lexer.newline := true;
      lexer.ConsumeOne();
      kind := None;
    } else if c == '\r' || c == '\t' || c == ' ' {
      lexer.ConsumeOne();
      kind := None;
    } else if c == '/' {
      kind := Slash(lexer);
    } else if c == '\"' {
      kind := String(lexer);
      fails := kind == None;
    } else if c == '\'' {
      kind := Character(lexer);
      fails := kind == None;
    } else if c == '#' {
      kind := Hash(lexer);
    } else if c == '$' {
      kind := Dollar(lexer, testSymbols);
    } else if Decimal(c) {
      var k := Number(lexer);
      kind := Some(k);
    } else if Letter(c) || c == '_' {
      NoBytes("");
      assert ""[..0] == "";
      kind := KeywordOrId(lexer, true, "");
    } else {
      var k := SymbolToken(lexer);
      kind := Some(k);
    }
  }

  function KindOf(o: Outcome): Option<Kind> {
    if o.Reads? then Some(o.kind) else if o.Unended? then Some(LexError) else None
  }

  /** The token is what comes next, with the line and the column at which it begins; these are short of just the
    * newlines that had been lost before. After it the cursor is past it, except that a comment that does not end uses
    * everything up. There is no token just if the source fails.
    */
  twostate predicate Advanced(lexer: Lexer, n: Next, new token: Option<Token>)
    reads lexer
  {
    var start := old(lexer.ptr) + n.before;
    && (token.Some? ==> KindOf(n.outcome) == Some(token.value.kind) && start <= |lexer.source|)
    && (token == None ==> Fails(n.outcome))
    && (token.Some? && !old(lexer.skipped) ==>
          && token.value.line + old(lexer.lost) == 1 + Newlines(lexer.source[..start])
          && (old(lexer.lost) == 0 ==> token.value.pos == 1 + Column(lexer.source[..start])))
    && (n.outcome.Reads? ==> lexer.Moved(n.before + n.outcome.length, n.outcome.missed))
    && (n.outcome.Unended? ==> lexer.len == 0 && lexer.lost == old(lexer.lost))
  }

  /** Passes over blanks and comments, and reads the token after them. */
  method Seek(lexer: Lexer, testSymbols: bool) returns (token: Option<Token>)
    requires Ready(lexer)
    modifies lexer, lexer.text, lexer.text.buffer
    ensures Ready(lexer) && (lexer.text.buffer == old(lexer.text.buffer) || fresh(lexer.text.buffer))
    ensures Advanced(lexer, NextAt(old(lexer.Rest()), old(lexer.newline), testSymbols), token)
  {
    hide StepAt, NextAt, Newlines, Column, Sane;
    ghost var n := NextAt(lexer.Rest(), lexer.newline, testSymbols);
    while true
      invariant Ready(lexer) && (lexer.text.buffer == old(lexer.text.buffer) || fresh(lexer.text.buffer))
      invariant lexer.ptr >= old(lexer.ptr) && lexer.Moved(lexer.ptr - old(lexer.ptr), 0)
      invariant var m := NextAt(lexer.Rest(), lexer.newline, testSymbols);
                n == Next(lexer.ptr - old(lexer.ptr) + m.before, m.outcome)
      decreases lexer.len
    {
      var line, pos := lexer.line, lexer.pos;
      lexer.text.buflen := 0;
      if lexer.IsEof() {
        assert lexer.Rest() == [];
        NoneNext(lexer.newline, testSymbols);
        return Some(Token(Eof, line, pos));
      }
      StepGetsOn(lexer.source, lexer.ptr, lexer.newline, testSymbols);
      NextStep(lexer.Rest(), lexer.newline, testSymbols);
      var kind, fails := Step(lexer, testSymbols);
      if fails {
        return None;
      }
      if kind.Some? {
        return Some(Token(kind.value, line, pos));
      }
    }
  }

  lemma {:induction false} StepGetsOn(s: string, i: nat, newline: bool, testSymbols: bool)
    requires i < |s|
    ensures var o := StepAt(s[i..], newline, testSymbols);
            o.Skips? ==> o.length > 0 && After(s[i..], o.length) == After(s, i + o.length)
  {
    hide StepAt;
    StepSane(s[i..], newline, testSymbols);
  }

  /** Reads the next token. Whether there is one or the end, the cursor gets on. A source without bad backslashes loses
    * no newline, and if it has no carriage returns either it does not fail.
    */
  method LexerNext(lexer: Lexer, testSymbols: bool) returns (token: Option<Token>)
    requires Ready(lexer)
    modifies lexer, lexer.text, lexer.text.buffer
    ensures Ready(lexer) && (lexer.text.buffer == old(lexer.text.buffer) || fresh(lexer.text.buffer))
    ensures token.Some? ==> !lexer.newline
    ensures token.Some? ==> if token.value.kind == Eof then lexer.len == 0 else lexer.len < old(lexer.len)
    ensures Sound(old(lexer.Rest())) && token.Some? ==> lexer.lost == old(lexer.lost)
    ensures Sound(old(lexer.Rest())) && NoReturns(old(lexer.Rest())) ==> token.Some?
    ensures Advanced(lexer, NextAt(old(lexer.Rest()), old(lexer.newline), testSymbols), token)
  {
    hide NextAt, Sound, NoReturns, Newlines, Column;
    NextSane(lexer.Rest(), lexer.newline, testSymbols);
    token := Seek(lexer, testSymbols);
    lexer.newline := false;
  }
}
