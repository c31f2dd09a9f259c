/** What lies between tokens, and which tokens are the first of their line. */
module LexStretch {
  import opened Wrappers
  import opened LexCursor
  import opened LexLiteral
  import opened LexNumber
  import opened LexWords
  import opened LexNext
  import opened LexRun

  /** A blank, a newline, a line comment without its newline, or a block comment. */
  datatype Piece = Blank(c: char) | Newline | Line(text: string) | Block(body: Body)

  function PieceText(p: Piece): (text: string)
    ensures text != []
  {
    match p
    case Blank(c) => [c]
    case Newline => "\n"
    case Line(text) => "//" + text
    case Block(body) => "/*" + LexWords.Written(body) + "*/"
  }

  function Spread(ps: seq<Piece>): string {
    if ps == [] then "" else PieceText(ps[0]) + Spread(ps[1..])
  }

  predicate GoodPiece(p: Piece) {
    match p
    case Blank(c) => c in " \t\r"
    case Newline => true
    case Line(text) => '\n' !in text
    case Block(body) => Proper(body)
  }

  /** A line comment goes on to the end of its line, or of the source. */
  predicate Stretch(ps: seq<Piece>, rest: string) {
    ps == [] ||
    (GoodPiece(ps[0]) && Stretch(ps[1..], rest) &&
     (ps[0].Line? ==> if ps[1..] == [] then rest == [] else ps[1].Newline?))
  }

  /** After the last block comment there is a newline outside comments, the one that ends a line comment included; or
    * there is no block comment, and a newline came before already.
    */
  ghost predicate FirstOfLine(ps: seq<Piece>, newline: bool) {
    || (exists i :: 0 <= i < |ps| && ps[i].Newline? && forall j :: i < j < |ps| ==> !ps[j].Block?)
    || (newline && forall j :: 0 <= j < |ps| ==> !ps[j].Block?)
  }

  /** The flag after a piece. */
  function Flag(p: Piece, newline: bool): bool {
    p.Newline? || (newline && !p.Block?)
  }

  lemma {:induction false} FirstOfLineStep(ps: seq<Piece>, newline: bool)
    requires ps != []
    ensures FirstOfLine(ps, newline) <==> FirstOfLine(ps[1..], Flag(ps[0], newline))
  {
    var qs, flag := ps[1..], Flag(ps[0], newline);
    assert forall j :: 0 <= j < |qs| ==> qs[j] == ps[j + 1];
    if FirstOfLine(qs, flag) {
      if i :| 0 <= i < |qs| && qs[i].Newline? && forall j :: i < j < |qs| ==> !qs[j].Block? {
        assert ps[i + 1].Newline? && forall j :: i + 1 < j < |ps| ==> !ps[j].Block? by {
          assert forall j :: i + 1 < j < |ps| ==> ps[j] == qs[j - 1];
        }
      } else {
        assert forall j :: 0 < j < |ps| ==> ps[j] == qs[j - 1];
        assert ps[0].Newline? ==> FirstOfLine(ps, newline);
      }
    }
    if FirstOfLine(ps, newline) {
      if i :| 0 <= i < |ps| && ps[i].Newline? && forall j :: i < j < |ps| ==> !ps[j].Block? {
        if i > 0 {
          assert qs[i - 1].Newline?;
        }
      }
    }
  }

  // ------------------------------------------------------------ one piece

  /** A piece is passed over, and leaves its flag. */
  lemma {:induction false} PieceSkipped(p: Piece, rest: string, newline: bool, testSymbols: bool)
    requires GoodPiece(p) && (p.Line? ==> rest == [] || rest[0] == '\n')
    ensures StepAt(PieceText(p) + rest, newline, testSymbols) == Skips(|PieceText(p)|, Flag(p, newline))
  {
    hide StepAt, SlashAt;
    var s := PieceText(p) + rest;
    OneStep(s, newline, testSymbols);
    match p
    case Blank(c) =>
      assert s[0] == c;
    case Newline =>
      assert s[0] == '\n';
    case Line(text) =>
      LinePassed(text, rest, newline);
    case Block(body) =>
      BlockPassed(body, rest, newline);
  }

  lemma {:induction false} OneStep(s: string, newline: bool, testSymbols: bool)
    requires s != []
    ensures s[0] == '\n' ==> StepAt(s, newline, testSymbols) == Skips(1, true)
    ensures s[0] == ' ' || s[0] == '\t' || s[0] == '\r' ==> StepAt(s, newline, testSymbols) == Skips(1, newline)
    ensures s[0] == '/' ==> StepAt(s, newline, testSymbols) == SlashAt(s, newline)
  {
    hide SlashAt;
  }

  lemma {:induction false} LinePassed(text: string, rest: string, newline: bool)
    requires '\n' !in text && (rest == [] || rest[0] == '\n')
    ensures var s := "//" + text + rest; s[0] == '/' && SlashAt(s, newline) == Skips(2 + |text|, newline)
  {
    hide CommentAt, LineAt;
    var s := "//" + text + rest;
    assert First(After(s, 1)) == '/' && After(s, 2) == text + rest;
    LineIs(text, rest);
  }

  lemma {:induction false} BlockPassed(body: Body, rest: string, newline: bool)
    requires Proper(body)
    ensures var w := LexWords.Written(body);
            var s := "/*" + w + "*/" + rest;
            s[0] == '/' && SlashAt(s, newline) == Skips(|w| + 4, false)
  {
    hide CommentAt, LineAt, Proper;
    var w := LexWords.Written(body);
    hide LexWords.Written;
    var s := "/*" + w + "*/" + rest;
    assert First(After(s, 1)) == '*' && After(s, 2) == (w + "*/") + rest;
    assert Holds(After(s, 2), body);
    CommentsNest(After(s, 2));
  }

  lemma {:induction false} LineIs(text: string, rest: string)
    requires '\n' !in text && (rest == [] || rest[0] == '\n')
    ensures LineAt(text + rest) == text
  {
    if text == [] {
      assert text + rest == rest;
    } else {
      assert (text + rest)[1..] == text[1..] + rest && text[0] in text;
      LineIs(text[1..], rest);
    }
  }

  /** What is passed over is a piece. */
  lemma {:induction false} SkippedPiece(s: string, newline: bool, testSymbols: bool) returns (p: Piece)
    requires s != [] && StepAt(s, newline, testSymbols).Skips?
    ensures GoodPiece(p) && PieceText(p) <= s
    ensures StepAt(s, newline, testSymbols) == Skips(|PieceText(p)|, Flag(p, newline))
    ensures p.Line? ==> s[|PieceText(p)|..] == [] || s[|PieceText(p)|] == '\n'
  {
    hide QuoteAt, CharAt, HashAt, DollarAt, NumberAt, NameAt, SymbolAt, CommentAt, LineAt;
    StepSaneHere(s, newline, testSymbols);
    var c := s[0];
    if c == '\n' {
      p := Newline;
    } else if c == '\r' || c == '\t' || c == ' ' {
      p := Blank(c);
    } else {
      assert c == '/';
      p := CommentPiece(s, newline);
    }
  }

  lemma {:induction false} StepSaneHere(s: string, newline: bool, testSymbols: bool)
    requires s != [] && StepAt(s, newline, testSymbols).Skips?
    ensures s[0] in "\n\r\t /"
  {
    hide QuoteAt, CharAt, SlashAt, HashAt, DollarAt, NumberAt, NameAt, SymbolAt;
    var c := s[0];
    if c == '\"' {
      QuoteSane(s);
    } else if c == '\'' {
      CharSane(s);
    } else if c == '#' || c == '$' {
      WordSane(s, testSymbols);
    } else if Decimal(c) {
      NumberSane(s);
    } else if Letter(c) || c == '_' {
      NameSane(s);
    } else if c !in "\n\r\t /" {
      SymbolSane(s, newline);
    }
  }

  lemma {:induction false} CommentPiece(s: string, newline: bool) returns (p: Piece)
    requires s != [] && s[0] == '/' && SlashAt(s, newline).Skips?
    ensures GoodPiece(p) && PieceText(p) <= s
    ensures SlashAt(s, newline) == Skips(|PieceText(p)|, Flag(p, newline))
    ensures p.Line? ==> s[|PieceText(p)|..] == [] || s[|PieceText(p)|] == '\n'
  {
    hide CommentAt, LineAt;
    var t := After(s, 2);
    if First(After(s, 1)) == '*' {
      hide Proper, LexWords.Written;
      CommentsNest(t);
      var b :| Holds(t, b);
      p := Block(b);
      BlockFirst(LexWords.Written(b), s);
    } else {
      LineLongest(t);
      p := Line(LineAt(t));
      LineFirst(LineAt(t), s);
    }
  }

  lemma {:induction false} BlockFirst(w: string, s: string)
    requires |s| >= 2 && s[0] == '/' && s[1] == '*' && w + "*/" <= After(s, 2)
    ensures "/*" + w + "*/" <= s
  {
    assert s == "/*" + After(s, 2);
    assert "/*" + w + "*/" == "/*" + (w + "*/");
  }

  lemma {:induction false} LineFirst(text: string, s: string)
    requires |s| >= 2 && s[0] == '/' && s[1] == '/' && text <= After(s, 2)
    ensures "//" + text <= s && s[2 + |text|..] == After(s, 2)[|text|..]
  {
    assert s == "//" + After(s, 2);
  }

  // ------------------------------------------------------------ a whole stretch

  /** What is read where a stretch ends. */
  function Arrival(rest: string, newline: bool, testSymbols: bool): Outcome {
    if rest == [] then Reads(Eof, 0, 0) else StepAt(rest, newline, testSymbols)
  }

  lemma {:induction false} Joined(a: string, b: string, c: string)
    ensures (a + b) + c == a + (b + c) && After(a + (b + c), |a|) == b + c
  {
  }

  lemma {:induction false} LineStops(ps: seq<Piece>, rest: string)
    requires ps != [] && Stretch(ps, rest) && ps[0].Line?
    ensures var more := Spread(ps[1..]) + rest; more == [] || more[0] == '\n'
  {
    if ps[1..] != [] {
      assert ps[1..][0] == ps[1];
    }
  }

  /** A stretch is passed over as a whole, and what comes after it is read as first of its line or not by what the
    * stretch is made of.
    */
  lemma {:induction false} StretchPassed(ps: seq<Piece>, rest: string, newline: bool, testSymbols: bool)
    requires Stretch(ps, rest) && !Arrival(rest, FirstOfLine(ps, newline), testSymbols).Skips?
    ensures NextAt(Spread(ps) + rest, newline, testSymbols) ==
            Next(|Spread(ps)|, Arrival(rest, FirstOfLine(ps, newline), testSymbols))
    decreases |ps|
  {
    hide StepAt, NextAt, FirstOfLine, GoodPiece, PieceText, After;
    if ps == [] {
      NothingPassed(newline);
      assert Spread(ps) + rest == rest;
      if rest == [] {
        NoneNext(newline, testSymbols);
      } else {
        NextStep(rest, newline, testSymbols);
      }
    } else {
      var text, more := PieceText(ps[0]), Spread(ps[1..]);
      FirstOfLineStep(ps, newline);
      if ps[0].Line? { LineStops(ps, rest); }
      PieceSkipped(ps[0], more + rest, newline, testSymbols);
      StretchPassed(ps[1..], rest, Flag(ps[0], newline), testSymbols);
      Joined(text, more, rest);
      hide Stretch, Spread, Flag, Arrival;
      NextStep(text + (more + rest), newline, testSymbols);
    }
  }

  lemma {:induction false} NothingPassed(newline: bool)
    ensures FirstOfLine([], newline) == newline
  {
  }

  /** Whatever is passed over before a token is a stretch. */
  lemma {:induction false} StretchBefore(s: string, newline: bool, testSymbols: bool) returns (ps: seq<Piece>)
    ensures var n := NextAt(s, newline, testSymbols);
            && n.before <= |s| && Spread(ps) == s[..n.before] && Stretch(ps, s[n.before..])
            && n.outcome == Arrival(s[n.before..], FirstOfLine(ps, newline), testSymbols) && !n.outcome.Skips?
    decreases |s|
  {
    hide StepAt, NextAt, FirstOfLine, GoodPiece, PieceText;
    ps := [];
    NothingPassed(newline);
    if s == [] {
      NoneNext(newline, testSymbols);
    } else {
      NextStep(s, newline, testSymbols);
      var o := StepAt(s, newline, testSymbols);
      if o.Skips? {
        var p := SkippedPiece(s, newline, testSymbols);
        var t := s[o.length..];
        assert After(s, o.length) == t;
        var qs := StretchBefore(t, o.newline, testSymbols);
        ps := [p] + qs;
        assert ps[1..] == qs;
        FirstOfLineStep(ps, newline);
        var n := NextAt(t, o.newline, testSymbols);
        assert s[..o.length + n.before] == s[..o.length] + t[..n.before] && t[n.before..] == s[o.length + n.before..];
        if p.Line? { NextPiece(qs, t, n.before, FirstOfLine(qs, o.newline), testSymbols); }
      }
    }
  }

  /** After a line comment there is a newline, or nothing at all. */
  lemma {:induction false} NextPiece(qs: seq<Piece>, t: string, n: nat, newline: bool, testSymbols: bool)
    requires (t == [] || t[0] == '\n') && n <= |t| && Spread(qs) == t[..n] && Stretch(qs, t[n..])
    requires !Arrival(t[n..], newline, testSymbols).Skips?
    ensures if qs == [] then t[n..] == [] else qs[0].Newline?
  {
    hide StepAt;
    if qs == [] {
      assert t[n..] == t;
      if t != [] {
        NewlinePassed(t, newline, testSymbols);
      }
    } else {
      assert PieceText(qs[0])[0] == t[0];
    }
  }

  lemma {:induction false} NewlinePassed(s: string, newline: bool, testSymbols: bool)
    requires s != [] && s[0] == '\n'
    ensures StepAt(s, newline, testSymbols).Skips?
  {
  }

  // ------------------------------------------------------------ the tokens concerned

  /** An opening bracket is another symbol when it is the first of its line, and so is a minus, unless it is part of an
    * arrow.
    */
  lemma {:induction false} OpeningSymbol(s: string, newline: bool, testSymbols: bool)
    requires s != []
    ensures s[0] in "([{" ==> StepAt(s, newline, testSymbols) == Reads(Symbol([s[0]], newline), 1, 0)
    ensures s[0] == '-' ==> StepAt(s, newline, testSymbols) ==
                            if First(After(s, 1)) == '>' then Reads(Symbol("->", false), 2, 0)
                            else Reads(Symbol("-", newline), 1, 0)
  {
    if s[0] in "([{-" {
      FirstSymbolFits(s);
      hide FirstSymbol, Symbols;
    }
  }

  lemma {:induction false} FirstSymbolFits(s: string)
    requires s != [] && s[0] in "([{-"
    ensures FirstSymbol(s, 0) == Some(if s[0] == '-' && First(After(s, 1)) == '>' then "->" else [s[0]])
  {
    hide Symbols, FirstSymbol;
    var place := if s[0] == '{' then 9 else if s[0] == '(' then 11 else if s[0] == '[' then 13 else 23;
    RowBegins(0);
    RowBegins(1);
    RowBegins(place);
    NextSymbol(s, 0);
    NextSymbol(s, 1);
    NextSymbol(s, place);
    assert [s[0]] <= s;
    if s[0] == '-' {
      assert "->" <= s <==> First(After(s, 1)) == '>';
    }
    if !("->" <= s) {
      SymbolsPassed(s, 2, place);
    }
  }

  /** Where in the table there are symbols that begin with an opening bracket or a minus. */
  lemma {:induction false} RowBegins(i: nat)
    requires i < 24
    ensures |Symbols()| > 24
    ensures var u := Symbols()[i];
            && u != [] && (u[0] == '{' <==> i == 9) && (u[0] == '(' <==> i == 11) && (u[0] == '[' <==> i == 13)
            && (u[0] == '-' <==> i == 1 || i == 23) && (i == 1 ==> u == "->")
            && (i == 9 ==> u == "{") && (i == 11 ==> u == "(") && (i == 13 ==> u == "[") && (i == 23 ==> u == "-")
  {
  }

  /** No symbol between these places fits. */
  lemma {:induction false} SymbolsPassed(s: string, i: nat, j: nat)
    requires s != [] && 2 <= i <= j < 24
    requires j == if s[0] == '{' then 9 else if s[0] == '(' then 11 else if s[0] == '[' then 13 else 23
    requires s[0] == '{' || s[0] == '(' || s[0] == '[' || s[0] == '-'
    ensures j <= |Symbols()| && FirstSymbol(s, i) == FirstSymbol(s, j)
    decreases j - i
  {
    hide Symbols, FirstSymbol;
    RowBegins(i);
    if i < j {
      NextSymbol(s, i);
      SymbolsPassed(s, i + 1, j);
    }
  }

  // ------------------------------------------------------------ the tokens of a source

  /** The token that starts there ends there. A comment that does not end takes all there is. */
  ghost predicate Ends(s: string, l: Lexeme, stop: nat, testSymbols: bool)
    requires l.start <= |s|
  {
    exists newline: bool ::
      var o := Arrival(s[l.start..], newline, testSymbols);
      KindOf(o) == Some(l.kind) && stop == if o.Reads? then l.start + o.length else |s|
  }

  /** Token `i` comes after a stretch that begins where the token before it ends, and is what is read there, first of
    * its line or not.
    */
  ghost predicate Placed(s: string, ls: seq<Lexeme>, i: nat, newline: bool, testSymbols: bool, at: nat, stop: nat,
          ps: seq<Piece>)
    requires i < |ls|
  {
    && at <= stop <= ls[i].start <= |s| && Spread(ps) == s[stop..ls[i].start] && Stretch(ps, s[ls[i].start..])
    && KindOf(Arrival(s[ls[i].start..], FirstOfLine(ps, newline && i == 0), testSymbols)) == Some(ls[i].kind)
    && (i == 0 ==> stop == at)
    && (i > 0 ==> ls[i - 1].start <= |s| && Ends(s, ls[i - 1], stop, testSymbols))
  }

  lemma {:induction false} LexemePlaced(s: string, newline: bool, testSymbols: bool, at: nat, lost: nat, i: nat)
    returns (stop: nat, ps: seq<Piece>)
    requires at <= |s| && i < |RunAt(s, newline, testSymbols, at, lost).lexemes|
    ensures Placed(s, RunAt(s, newline, testSymbols, at, lost).lexemes, i, newline, testSymbols, at, stop, ps)
    decreases i
  {
    hide NextAt, RunAt, FirstOfLine, Spread, Stretch, StepAt;
    RunStep(s, newline, testSymbols, at, lost);
    var n := NextAt(s[at..], newline, testSymbols);
    var ls := RunAt(s, newline, testSymbols, at, lost).lexemes;
    var qs := StretchBefore(s[at..], newline, testSymbols);
    Sliced(s, at, n.before);
    if i == 0 {
      stop, ps := at, qs;
    } else {
      var end, more := EndOf(n, at, |s|), lost + MissedBy(n.outcome);
      var rs := RunAt(s, false, testSymbols, end, more).lexemes;
      stop, ps := LexemePlaced(s, false, testSymbols, end, more, i - 1);
      assert ls[i] == rs[i - 1];
      if i == 1 {
        assert Ends(s, ls[0], stop, testSymbols) by { assert stop == end; }
      } else {
        assert ls[i - 1] == rs[i - 2];
      }
    }
  }

  lemma {:induction false} Sliced(s: string, at: nat, n: nat)
    requires at <= |s|
    ensures n <= |s[at..]| ==> s[at..][..n] == s[at..at + n] && s[at..][n..] == s[at + n..]
  {
  }

  /** Of the tokens of a whole source, an opening bracket is the symbol for the first of a line exactly when, between it
    * and the token before it, a newline outside comments comes after the last block comment; before the first token, it
    * is also enough that there is no block comment. So is a minus that is not part of an arrow.
    */
  lemma {:induction false} FirstTokensOfLines(source: string, testSymbols: bool, i: nat)
    returns (stop: nat, ps: seq<Piece>)
    requires i < |RunAt(source, true, testSymbols, 0, 0).lexemes|
    ensures var ls := RunAt(source, true, testSymbols, 0, 0).lexemes;
            && Placed(source, ls, i, true, testSymbols, 0, stop, ps)
            && (First(source[ls[i].start..]) in "([{" ==>
                  ls[i].kind == Symbol([source[ls[i].start]], FirstOfLine(ps, i == 0)))
            && (First(source[ls[i].start..]) == '-' && First(After(source[ls[i].start..], 1)) != '>' ==>
                  ls[i].kind == Symbol("-", FirstOfLine(ps, i == 0)))
  {
    stop, ps := LexemePlaced(source, true, testSymbols, 0, 0, i);
    var ls := RunAt(source, true, testSymbols, 0, 0).lexemes;
    var rest := source[ls[i].start..];
    hide RunAt, FirstOfLine, Spread, Stretch, StepAt;
    if rest != [] {
      OpeningSymbol(rest, FirstOfLine(ps, i == 0), testSymbols);
    }
  }

  /** In `f (x)` the bracket is not the first of its line. */
  lemma {:induction false} CallOnOneLine(testSymbols: bool)
    ensures NextAt(" (x)", false, testSymbols) == Next(1, Reads(Symbol("(", false), 1, 0))
  {
    var ps := [Blank(' ')];
    assert Spread(ps) == " " by { assert Spread(ps[1..]) == ""; }
    assert !FirstOfLine(ps, false);
    assert Stretch(ps[1..], "(x)");
    hide StepAt, NextAt, FirstOfLine, Stretch, Spread;
    OpeningSymbol("(x)", false, testSymbols);
    assert " " + "(x)" == " (x)";
    assert Stretch(ps, "(x)") by { OneBlank(ps); }
    StretchPassed(ps, "(x)", false, testSymbols);
  }

  lemma {:induction false} OneBlank(ps: seq<Piece>)
    requires ps == [Blank(' ')]
    ensures Stretch(ps, "(x)")
  {
    assert Stretch(ps[1..], "(x)");
  }
}
