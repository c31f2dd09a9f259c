/** The tokens of a whole source. */
module LexRun {
  import opened Wrappers
  import opened LexCursor
  import opened LexLiteral
  import opened LexLost
  import opened LexNext
  import opened LexQuoted

  /** What a token is, where it starts, and how many newlines have been missed before it. */
  datatype Lexeme = Lexeme(kind: Kind, start: nat, lost: nat)

  /** The tokens of a source up to the end of it, or the failure. */
  datatype Run = Run(lexemes: seq<Lexeme>, complete: bool)

  function RunAt(s: string, newline: bool, testSymbols: bool, at: nat, lost: nat): Run
    requires at <= |s|
    decreases |s| - at
  {
    NextSane(s[at..], newline, testSymbols);
    var n := NextAt(s[at..], newline, testSymbols);
    var start, stop := at + n.before, EndOf(n, at, |s|);
    if KindOf(n.outcome) == None || stop > |s| then Run([], false)
    else if n.outcome == Reads(Eof, 0, 0) then Run([Lexeme(Eof, start, lost)], true)
    else
      var r := RunAt(s, false, testSymbols, stop, lost + MissedBy(n.outcome));
      Run([Lexeme(KindOf(n.outcome).value, start, lost)] + r.lexemes, r.complete)
  }

  function EndOf(n: Next, at: nat, size: nat): nat {
    if n.outcome.Reads? then at + n.before + n.outcome.length else size
  }

  function MissedBy(o: Outcome): nat {
    if o.Reads? then o.missed else 0
  }

  lemma {:induction false} RunStep(s: string, newline: bool, testSymbols: bool, at: nat, lost: nat)
    requires at <= |s|
    ensures var n := NextAt(s[at..], newline, testSymbols);
            var start, stop := at + n.before, EndOf(n, at, |s|);
            RunAt(s, newline, testSymbols, at, lost) ==
            if KindOf(n.outcome) == None || stop > |s| then Run([], false)
            else if n.outcome == Reads(Eof, 0, 0) then Run([Lexeme(Eof, start, lost)], true)
            else
              var r := RunAt(s, false, testSymbols, stop, lost + MissedBy(n.outcome));
              Run([Lexeme(KindOf(n.outcome).value, start, lost)] + r.lexemes, r.complete)
  {
    hide NextAt;
  }

  ghost predicate Ascending(ls: seq<Lexeme>, from: nat, to: nat) {
    && (forall i :: 0 <= i < |ls| ==> from <= ls[i].start <= to)
    && (forall i, j :: 0 <= i < j < |ls| ==> ls[i].start < ls[j].start && ls[i].lost <= ls[j].lost)
  }

  /** Tokens start one after the other, and the end of the source is the last of them and only that. */
  lemma {:induction false} RunAscends(s: string, newline: bool, testSymbols: bool, at: nat, lost: nat)
    requires at <= |s|
    ensures var r := RunAt(s, newline, testSymbols, at, lost);
            && Ascending(r.lexemes, at, |s|) && (forall i :: 0 <= i < |r.lexemes| ==> lost <= r.lexemes[i].lost)
            && (r.complete ==>
                  && r.lexemes != []
                  && var last := r.lexemes[|r.lexemes| - 1]; last.kind == Eof && last.start == |s|)
            && (forall i :: 0 <= i < |r.lexemes| - (if r.complete then 1 else 0) ==> r.lexemes[i].kind != Eof)
    decreases |s| - at
  {
    hide NextAt, RunAt, Sound, NoReturns;
    var n := NextAt(s[at..], newline, testSymbols);
    NextSane(s[at..], newline, testSymbols);
    RunStep(s, newline, testSymbols, at, lost);
    var stop := EndOf(n, at, |s|);
    if KindOf(n.outcome).Some? && stop <= |s| && n.outcome != Reads(Eof, 0, 0) {
      RunAscends(s, false, testSymbols, stop, lost + MissedBy(n.outcome));
    }
  }

  /** Without bad backslashes no newline is missed. */
  lemma {:induction false} SoundLosesNothing(s: string, newline: bool, testSymbols: bool, at: nat)
    requires at <= |s| && Sound(s)
    ensures forall l :: l in RunAt(s, newline, testSymbols, at, 0).lexemes ==> l.lost == 0
    decreases |s| - at
  {
    hide NextAt, RunAt, Sound, NoReturns;
    var n := NextAt(s[at..], newline, testSymbols);
    RestSafe(s, at);
    NextSane(s[at..], newline, testSymbols);
    RunStep(s, newline, testSymbols, at, 0);
    var stop := EndOf(n, at, |s|);
    if KindOf(n.outcome).Some? && stop <= |s| && n.outcome != Reads(Eof, 0, 0) {
      SoundLosesNothing(s, false, testSymbols, stop);
    }
  }

  /** Where a token begins, lines and columns counted from one. */
  ghost predicate Begins(token: Token, s: string, start: nat)
    requires start <= |s|
  {
    token.line == 1 + Newlines(s[..start]) && token.pos == 1 + Column(s[..start])
  }

  /** The tokens are these, and each of them has the line and the column at which it begins if and only if no newline
    * has been missed before it. Nothing is said of the end of the source after a comment that does not end.
    */
  ghost predicate Lexed(tokens: seq<Token>, ls: seq<Lexeme>, s: string) {
    && |tokens| == |ls|
    && (forall i :: 0 <= i < |ls| ==> ls[i].start <= |s| && tokens[i].kind == ls[i].kind)
    && (forall i :: 0 <= i < |ls| && (ls[i].kind != Eof || NoErrors(ls)) ==>
          (Begins(tokens[i], s, ls[i].start) <==> ls[i].lost == 0))
  }

  ghost predicate NoErrors(ls: seq<Lexeme>) {
    forall i :: 0 <= i < |ls| ==> ls[i].kind != LexError
  }

  lemma {:induction false} LexedOn(tokens: seq<Token>, ls: seq<Lexeme>, s: string, token: Token, l: Lexeme)
    requires Lexed(tokens, ls, s) && l.start <= |s| && token.kind == l.kind
    requires l.kind != Eof || NoErrors(ls) ==> (Begins(token, s, l.start) <==> l.lost == 0)
    ensures Lexed(tokens + [token], ls + [l], s)
    ensures NoErrors(ls + [l]) <==> NoErrors(ls) && l.kind != LexError
  {
    hide Begins;
    assert forall i :: 0 <= i < |ls| ==> (ls + [l])[i] == ls[i];
    assert (ls + [l])[|ls|] == l;
  }

  lemma {:induction false} NothingLexed(s: string)
    ensures Lexed([], [], s) && NoErrors([])
  {
  }

  /** Reading one more token leaves the rest of them. */
  lemma {:induction false} OneFewer(all: seq<Lexeme>, done: seq<Lexeme>, l: Lexeme, rest: seq<Lexeme>)
    requires all == done + ([l] + rest)
    ensures all == (done + [l]) + rest
  {
  }

  /** Reads the next token, and says where it starts and how many newlines have been missed before it. */
  method NextLexeme(lexer: Lexer, testSymbols: bool) returns (token: Option<Token>, ghost l: Lexeme)
    requires Ready(lexer)
    modifies lexer, lexer.text, lexer.text.buffer
    ensures Ready(lexer) && (lexer.text.buffer == old(lexer.text.buffer) || fresh(lexer.text.buffer))
    ensures var r := RunAt(lexer.source, old(lexer.newline), testSymbols, old(lexer.ptr), old(lexer.lost));
            if token == None then r == Run([], false)
            else if l.kind == Eof then r == Run([l], true) && lexer.len == 0
            else
              && lexer.len < old(lexer.len)
              && var q := RunAt(lexer.source, lexer.newline, testSymbols, lexer.ptr, lexer.lost);
                 r == Run([l] + q.lexemes, q.complete)
    ensures token.Some? ==>
              && token.value.kind == l.kind && l.start <= |lexer.source|
              && (!old(lexer.skipped) ==> (Begins(token.value, lexer.source, l.start) <==> l.lost == 0))
              && (l.kind != Eof ==> !old(lexer.skipped)) && (lexer.skipped ==> old(lexer.skipped) || l.kind == LexError)
    ensures Sound(lexer.source) && NoReturns(lexer.source) ==> token.Some?
  {
    hide NextAt, RunAt, Sound, NoReturns, Newlines, Column;
    ghost var n := NextAt(lexer.Rest(), lexer.newline, testSymbols);
    RunStep(lexer.source, lexer.newline, testSymbols, lexer.ptr, lexer.lost);
    NextSane(lexer.Rest(), lexer.newline, testSymbols);
    RestSafe(lexer.source, lexer.ptr);
    l := Lexeme(if KindOf(n.outcome).Some? then KindOf(n.outcome).value
                else LexError, lexer.ptr + n.before, lexer.lost);
    token := LexerNext(lexer, testSymbols);
  }

  /** Reads tokens until the end of the source, which takes finitely many of them. A source without bad backslashes and
    * without carriage returns is read to its end.
    */
  method Tokenise(source: string, testSymbols: bool) returns (tokens: seq<Token>, complete: bool)
    ensures var r := RunAt(source, true, testSymbols, 0, 0);
            complete == r.complete && Lexed(tokens, r.lexemes, source)
    ensures Sound(source) && NoReturns(source) ==> complete
  {
    hide NextAt, RunAt, Sound, NoReturns, Newlines, Column, Lexed, NoErrors, Begins;
    NothingLexed(source);
    var lexer := new Lexer(source);
    tokens := [];
    ghost var r, done: seq<Lexeme> := RunAt(source, true, testSymbols, 0, 0), [];
    while true
      invariant Ready(lexer) && fresh(lexer) && fresh(lexer.text) && fresh(lexer.text.buffer) && lexer.source == source
      invariant var q := RunAt(source, lexer.newline, testSymbols, lexer.ptr, lexer.lost);
                r.lexemes == done + q.lexemes && r.complete == q.complete
      invariant Lexed(tokens, done, source)
      invariant NoErrors(done) ==> !lexer.skipped
      decreases lexer.len
    {
      var token;
      ghost var l;
      token, l := NextLexeme(lexer, testSymbols);
      if token == None {
        assert done + [] == done;
        return tokens, false;
      }
      LexedOn(tokens, done, source, token.value, l);
      tokens := tokens + [token.value];
      if token.value.kind == Eof {
        return tokens, true;
      }
      OneFewer(r.lexemes, done, l, RunAt(source, lexer.newline, testSymbols, lexer.ptr, lexer.lost).lexemes);
      done := done + [l];
    }
  }

  lemma {:induction false} RestSafe(s: string, at: nat)
    requires at <= |s|
    ensures (Sound(s) ==> Sound(s[at..])) && (NoReturns(s) ==> NoReturns(s[at..]))
  {
    hide Sound, NoReturns;
    if Sound(s) { SoundAfter(s, at); }
    if NoReturns(s) { NoReturnsAfter(s, at); }
  }

  // ------------------------------------------------------------ sources with bad backslashes

  lemma {:induction false} StringComesNext(s: string, newline: bool, testSymbols: bool)
    requires First(s) == '\"'
    ensures NextAt(s, newline, testSymbols) == Next(0, QuoteAt(s))
  {
    hide QuoteAt, NextAt;
    QuoteSane(s);
    NextStep(s, newline, testSymbols);
  }

  /** The first token of a source that begins with a string literal. */
  method FirstString(source: string) returns (lexer: Lexer, token: Option<Token>)
    requires First(source) == '\"'
    ensures Ready(lexer) && lexer.source == source
    ensures var o := QuoteAt(source);
            if o.Reads? then
              token == Some(Token(o.kind, 1, 1)) && lexer.ptr == o.length && lexer.lost == o.missed && !lexer.skipped
            else token == None
  {
    hide QuoteAt, NextAt;
    StringComesNext(source, true, false);
    QuoteSane(source);
    lexer := new Lexer(source);
    assert lexer.Rest() == source && source[..0] == "";
    token := LexerNext(lexer, false);
  }

  /** A string literal with a newline that is escaped. */
  function Broken(p: string, q: string): string {
    "\"" + p + "\\\n" + q + "\""
  }

  lemma {:induction false} BrokenMisses(p: string, q: string, rest: string)
    requires IsContent(p) && IsContent(q)
    ensures var s := Broken(p, q) + rest;
            && First(s) == '\"' && s[|Broken(p, q)|..] == rest
            && QuoteAt(s) == Reads(StringLiteral(BytesIn(p) + BytesIn(q)), |Broken(p, q)|,
                                   MissedIn(p) + MissedIn(q) + 1)
  {
    hide QuoteAt, IsContent, BytesIn, MissedIn;
    EscapedNewlineMissed(p, q, rest);
  }

  /** After a string with a backslash before a newline in it, no position is right any more. */
  method AfterEscapedNewline(p: string, q: string, rest: string) returns (lexer: Lexer, token: Option<Token>)
    requires IsContent(p) && IsContent(q) && rest != []
    ensures Ready(lexer) && lexer.source == Broken(p, q) + rest && lexer.Rest() == rest
    ensures lexer.lost == MissedIn(p) + MissedIn(q) + 1 && !lexer.Exact()
    ensures token == Some(Token(StringLiteral(BytesIn(p) + BytesIn(q)), 1, 1))
  {
    hide QuoteAt, IsContent, BytesIn, MissedIn;
    BrokenMisses(p, q, rest);
    var source := Broken(p, q) + rest;
    hide Broken;
    lexer, token := FirstString(source);
    lexer.ExactIffNoneLost();
  }

  /** A string that a backslash at the end of the source leaves open is no token. */
  method AtTrailingBackslash(p: string) returns (token: Option<Token>)
    requires IsContent(p)
    ensures token == None
  {
    hide QuoteAt, IsContent;
    TrailingBackslashOverruns(p);
    var _, t := FirstString("\"" + p + "\\");
    token := t;
  }
}
