/** Whole sources: tokens written one after the other, with blanks and comments between them, are the tokens that are
  * read.
  */
module LexSource {
  import opened Wrappers
  import opened Words
  import opened Shifts
  import opened LexInts
  import opened LexCursor
  import opened LexLiteral
  import opened LexQuoted
  import opened LexWords
  import opened LexNext
  import opened LexRun
  import opened LexSpellings
  import opened LexStretch
  import opened LexWritten
  import LexNumber
  import TokenText

  /** A token as it is written. */
  datatype Tok =
    | NameTok(name: string)
    | HashTok(name: string)
    | DollarTok(name: string)
    | NumberTok(number: Literal)
    | BasedTok(digits: seq<Mark>, hex: bool, capital: bool)
    | StringTok(units: seq<Unit>)
    | TripleTok(plain: string, quotes: nat)
    | CharTok(chars: seq<Unit>)
    | SymbolTok(symbol: string)

  /** It can be written, its numbers fit, and what begins with a dollar is for tests only. */
  predicate GoodTok(t: Tok, testSymbols: bool) {
    match t
    case NameTok(w) => w != [] && IsWord(w) && (Letter(w[0]) || w[0] == '_')
    case HashTok(w) => IsWord(w) && IsKeyword("#" + w)
    case DollarTok(w) => IsWord(w) && w != [] && testSymbols
    case NumberTok(n) => WellWritten(n) && !n.integral[0].underscore && LiteralFits(n)
    case BasedTok(ms, hex, _) =>
      ms != [] && Below(ms, BaseOf(hex)) && Fits(NumberOf(ms, BaseOf(hex)), |ms|)
    case StringTok(us) => AllGood(us, true)
    case TripleTok(p, n) => Inside(p) && !TokenText.LeftoverNewline(BytesOf(p + Quotes(n)))
    case CharTok(us) => AllGood(us, false)
    case SymbolTok(u) => u in Symbols()
  }

  function BaseOf(hex: bool): nat {
    if hex then 16 else 2
  }

  function TokText(t: Tok, testSymbols: bool): string
    requires GoodTok(t, testSymbols)
  {
    match t
    case NameTok(w) => w
    case HashTok(w) => "#" + w
    case DollarTok(w) => "$" + w
    case NumberTok(n) => LiteralText(n)
    case BasedTok(ms, hex, capital) => BasedText(ms, hex, capital)
    case StringTok(us) => "\"" + UnitsText(us, true) + "\""
    case TripleTok(p, n) => "\"\"\"" + p + "\"\"\"" + Quotes(n)
    case CharTok(us) => "'" + UnitsText(us, false) + "'"
    case SymbolTok(u) => u
  }

  /** What it is read as, first of its line or not. */
  function TokKind(t: Tok, first: bool, testSymbols: bool): Kind
    requires GoodTok(t, testSymbols)
  {
    match t
    case NameTok(w) => if IsKeyword(w) then Keyword(w) else Identifier(BytesOf(w))
    case HashTok(w) => Keyword("#" + w)
    case DollarTok(w) => if IsKeyword("$" + w) then Keyword("$" + w) else Identifier(BytesOf("$" + w))
    case NumberTok(n) => Meaning(n)
    case BasedTok(ms, hex, _) => IntLiteral(NumberOf(ms, BaseOf(hex)))
    case StringTok(us) => StringLiteral(UnitsBytes(us))
    case TripleTok(p, n) => StringLiteral(TokenText.Dedent(BytesOf(p + Quotes(n))))
    case CharTok(us) => IntLiteral(Low(Pushed(0, CharValues(us))))
    case SymbolTok(u) => Symbol(u, first && u in ["(", "[", "{", "-"])
  }

  /** What follows does not make it longer, or another token. */
  predicate Apart(t: Tok, rest: string) {
    match t
    case NameTok(_) => !InWord(First(rest))
    case HashTok(_) => !InWord(First(rest))
    case DollarTok(_) => !InWord(First(rest))
    case NumberTok(n) => Stops(n, rest)
    case BasedTok(_, _, _) => !LexNumber.InNumeral(First(rest), false)
    case StringTok(us) => us == [] ==> First(rest) != '\"'
    case TripleTok(_, _) => First(rest) != '\"'
    case CharTok(_) => true
    case SymbolTok(u) => SymbolApart(u, rest)
  }

  /** No longer symbol, comment or keyword begins like this. */
  predicate SymbolApart(u: string, rest: string) {
    && (forall v :: v in Symbols() && u < v ==> !(v <= u + rest))
    && (u == "/" ==> First(rest) != '/' && First(rest) != '*')
    && (u == "#" ==> !IsKeyword("#" + Word(rest)))
  }

  // ------------------------------------------------------------ one token

  lemma {:induction false} ByFirst(s: string, newline: bool, testSymbols: bool)
    requires s != []
    ensures s[0] == '\"' ==> StepAt(s, newline, testSymbols) == QuoteAt(s)
    ensures s[0] == '\'' ==> StepAt(s, newline, testSymbols) == CharAt(s[1..], 0, 1, 0)
    ensures LexNumber.Decimal(s[0]) ==>
              StepAt(s, newline, testSymbols) ==
              Reads(LexNumber.NumberAt(s).kind, LexNumber.NumberAt(s).length, 0)
  {
    hide QuoteAt, CharAt, LexNumber.NumberAt, NameAt, SymbolAt, SlashAt, HashAt, DollarAt;
  }

  lemma {:induction false} NumberRead(n: Literal, rest: string, newline: bool, testSymbols: bool)
    requires WellWritten(n) && !n.integral[0].underscore && LiteralFits(n) && Stops(n, rest)
    ensures LiteralText(n) != [] && StepAt(LiteralText(n) + rest, newline, testSymbols) ==
                                    Reads(Meaning(n), |LiteralText(n)|, 0)
  {
    LiteralReads(n, rest);
    SpelledCons(n.integral, 10);
    DigitCharIs(n.integral[0].digit, n.integral[0].capital);
    hide StepAt, LexNumber.NumberAt, Meaning, LiteralFits, Stops, FractionText, TailText, Below;
    var s := LiteralText(n) + rest;
    assert s[0] == Spelled(n.integral)[0];
    ByFirst(s, newline, testSymbols);
  }

  lemma {:induction false} BasedRead(ms: seq<Mark>, hex: bool, capital: bool, rest: string, newline: bool,
          testSymbols: bool)
    requires ms != [] && Below(ms, BaseOf(hex)) && Fits(NumberOf(ms, BaseOf(hex)), |ms|)
    requires !LexNumber.InNumeral(First(rest), false)
    ensures var text := BasedText(ms, hex, capital);
            && text != []
            && StepAt(text + rest, newline, testSymbols) == Reads(IntLiteral(NumberOf(ms, BaseOf(hex))), |text|, 0)
  {
    BasedReads(ms, hex, capital, rest);
    hide StepAt, LexNumber.NumberAt, Fits, NumberOf, Spelled, Below;
    var s := BasedText(ms, hex, capital) + rest;
    assert s[0] == '0';
    ByFirst(s, newline, testSymbols);
  }

  lemma {:induction false} StringRead(us: seq<Unit>, rest: string, newline: bool, testSymbols: bool)
    requires AllGood(us, true) && (us == [] ==> First(rest) != '\"')
    ensures var text := "\"" + UnitsText(us, true) + "\"";
            StepAt(text + rest, newline, testSymbols) == Reads(StringLiteral(UnitsBytes(us)), |text|, 0)
  {
    UnitsRead(us, rest, [], 1);
    NotTriple(us, rest);
    hide StepAt, StringAt, UnitsText, UnitsBytes, ThreeQuotes;
    var text := UnitsText(us, true) + "\"";
    Associate("\"", UnitsText(us, true), "\"");
    SingleQuote(text, rest);
    Associate(UnitsText(us, true), "\"", rest);
    assert [] + UnitsBytes(us) == UnitsBytes(us);
    ByFirst("\"" + text + rest, newline, testSymbols);
  }

  lemma {:induction false} NotTriple(us: seq<Unit>, rest: string)
    requires AllGood(us, true) && (us == [] ==> First(rest) != '\"')
    ensures !ThreeQuotes("\"" + (UnitsText(us, true) + "\"") + rest)
  {
    var s := "\"" + (UnitsText(us, true) + "\"") + rest;
    if us == [] {
      assert s == "\"\"" + rest;
    } else {
      assert Good(us[0], true);
      assert s[1] == UnitText(us[0], true)[0];
    }
  }

  lemma {:induction false} TripleRead(p: string, n: nat, rest: string, newline: bool, testSymbols: bool)
    requires Inside(p) && First(rest) != '\"' && !TokenText.LeftoverNewline(BytesOf(p + Quotes(n)))
    ensures var text := "\"\"\"" + p + "\"\"\"" + Quotes(n);
            StepAt(text + rest, newline, testSymbols) ==
            Reads(StringLiteral(TokenText.Dedent(BytesOf(p + Quotes(n)))), |text|, 0)
  {
    hide StepAt, QuoteAt, TokenText.Dedent, TokenText.LeftoverNewline, Inside;
    QuotesBelong(p, n, rest);
    ByFirst("\"\"\"" + p + "\"\"\"" + Quotes(n) + rest, newline, testSymbols);
  }

  lemma {:induction false} LowZero()
    ensures Low(0) == 0
  {
  }

  lemma {:induction false} CharRead(us: seq<Unit>, rest: string, newline: bool, testSymbols: bool)
    requires AllGood(us, false)
    ensures var text := "'" + UnitsText(us, false) + "'";
            StepAt(text + rest, newline, testSymbols) == Reads(IntLiteral(Low(Pushed(0, CharValues(us)))), |text|, 0)
  {
    hide StepAt, CharAt, UnitsText, CharValues, Pushed, Low;
    LowZero();
    CharactersRead(us, rest, 0, 1);
    var u := UnitsText(us, false);
    var s := "'" + u + "'" + rest;
    assert s[1..] == u + ("'" + rest);
    ByFirst(s, newline, testSymbols);
  }

  /** No blank, quote, dollar, digit, letter or underscore. */
  predicate Marking(c: char) {
    ' ' < c && c != '\"' && c != '\'' && c != '$' && c != '_' && !LexNumber.Decimal(c) && !Letter(c)
  }

  /** Which characters symbols begin with. */
  lemma {:induction false} SymbolBegins(i: nat)
    requires i < |Symbols()|
    ensures var u := Symbols()[i];
            && u != [] && Marking(u[0])
            && (u[0] == '/' ==> u == "/") && (u[0] == '#' ==> u == "#")
  {
  }

  lemma {:induction false} AllOf<T>(s: seq<T>)
    ensures s[0..] == s
  {
  }

  lemma {:induction false} SymbolFound(u: string, rest: string)
    requires u in Symbols() && forall v :: v in Symbols() && u < v ==> !(v <= u + rest)
    ensures FirstSymbol(u + rest, 0) == Some(u)
  {
    hide Symbols, FirstSymbol;
    var s := u + rest;
    LongestSymbol(s, 0);
    AllOf(Symbols());
    assert u <= s;
    var t := FirstSymbol(s, 0).value;
    assert u == t[..|u|];
    assert u != t ==> u < t;
  }

  lemma {:induction false} SymbolRead(u: string, rest: string, newline: bool, testSymbols: bool)
    requires u in Symbols() && SymbolApart(u, rest)
    ensures u != [] && StepAt(u + rest, newline, testSymbols) ==
                       Reads(Symbol(u, newline && u in ["(", "[", "{", "-"]), |u|, 0)
  {
    hide Symbols, Word;
    var i :| 0 <= i < |Symbols()| && Symbols()[i] == u;
    SymbolBegins(i);
    var s := u + rest;
    assert s[0] == u[0];
    if u == "/" {
      SlashAlone(rest, newline, testSymbols);
    } else if u == "#" {
      HashAlone(rest, newline, testSymbols);
    } else {
      SymbolFound(u, rest);
      SymbolByFirst(s, newline, testSymbols);
    }
  }

  lemma {:induction false} SymbolByFirst(s: string, newline: bool, testSymbols: bool)
    requires s != [] && Marking(s[0]) && s[0] != '/' && s[0] != '#'
    ensures StepAt(s, newline, testSymbols) == SymbolAt(s, newline)
  {
    hide SymbolAt;
  }

  lemma {:induction false} SlashAlone(rest: string, newline: bool, testSymbols: bool)
    requires First(rest) != '/' && First(rest) != '*'
    ensures StepAt("/" + rest, newline, testSymbols) == Reads(Symbol("/", false), 1, 0)
  {
    hide StepAt;
    var s := "/" + rest;
    OneStep(s, newline, testSymbols);
    assert After(s, 1) == rest;
  }

  lemma {:induction false} HashAlone(rest: string, newline: bool, testSymbols: bool)
    requires !IsKeyword("#" + Word(rest))
    ensures StepAt("#" + rest, newline, testSymbols) == Reads(Symbol("#", false), 1, 0)
  {
    hide StepAt, Word;
    var s := "#" + rest;
    PrefixReads(s, newline, testSymbols);
    assert After(s, 1) == rest;
  }

  /** Every token is read as what it is, to its end, if what follows is apart from it. */
  lemma {:induction false} TokenReads(t: Tok, rest: string, newline: bool, testSymbols: bool)
    requires GoodTok(t, testSymbols) && Apart(t, rest)
    ensures var text := TokText(t, testSymbols);
            && text != []
            && StepAt(text + rest, newline, testSymbols) == Reads(TokKind(t, newline, testSymbols), |text|, 0)
  {
    hide StepAt, Stops, WellWritten, LiteralFits, UnitsText, LiteralText, BasedText, SymbolApart, Inside;
    match t
    case NameTok(w) => NameReads(w, rest, newline, testSymbols);
    case HashTok(w) => HashReads(w, rest, newline, testSymbols);
    case DollarTok(w) => DollarReads(w, rest, newline, testSymbols);
    case NumberTok(n) => NumberRead(n, rest, newline, testSymbols);
    case BasedTok(ms, hex, capital) => BasedRead(ms, hex, capital, rest, newline, testSymbols);
    case StringTok(us) => StringRead(us, rest, newline, testSymbols);
    case TripleTok(p, n) => TripleRead(p, n, rest, newline, testSymbols);
    case CharTok(us) => CharRead(us, rest, newline, testSymbols);
    case SymbolTok(u) => SymbolRead(u, rest, newline, testSymbols);
  }

  lemma {:induction false} KindIsNoEnd(t: Tok, newline: bool, testSymbols: bool)
    requires GoodTok(t, testSymbols)
    ensures TokKind(t, newline, testSymbols) != Eof
  {
    hide Meaning, GoodTok;
    if t.NumberTok? { MeaningIsNoEnd(t.number); }
  }

  lemma {:induction false} MeaningIsNoEnd(n: Literal)
    ensures Meaning(n) != Eof
  {
  }

  // ------------------------------------------------------------ a whole source

  /** A token and what is passed over before it. */
  datatype Entry = Entry(before: seq<Piece>, tok: Tok)

  function SourceText(es: seq<Entry>, end: seq<Piece>, testSymbols: bool): string
    requires forall e :: e in es ==> GoodTok(e.tok, testSymbols)
  {
    if es == [] then Spread(end) else
      assert es[0] in es;
      Spread(es[0].before) + (TokText(es[0].tok, testSymbols) + SourceText(es[1..], end, testSymbols))
  }

  /** Every token can be written, what is between tokens is blanks and comments, and enough of them. */
  predicate GoodSource(es: seq<Entry>, end: seq<Piece>, testSymbols: bool) {
    && (forall e :: e in es ==> GoodTok(e.tok, testSymbols))
    && if es == [] then Stretch(end, "") else
         var rest := SourceText(es[1..], end, testSymbols);
         assert es[0] in es;
         && Stretch(es[0].before, TokText(es[0].tok, testSymbols) + rest)
         && Apart(es[0].tok, rest) && GoodSource(es[1..], end, testSymbols)
  }

  /** The tokens, from a place in the source where a newline has come before or not. */
  ghost function Lexemes(es: seq<Entry>, end: seq<Piece>, testSymbols: bool, at: nat, newline: bool): seq<Lexeme>
    requires forall e :: e in es ==> GoodTok(e.tok, testSymbols)
  {
    if es == [] then [Lexeme(Eof, at + |Spread(end)|, 0)] else
      assert es[0] in es;
      var start := at + |Spread(es[0].before)|;
      [Lexeme(TokKind(es[0].tok, FirstOfLine(es[0].before, newline), testSymbols), start, 0)] +
      Lexemes(es[1..], end, testSymbols, start + |TokText(es[0].tok, testSymbols)|, false)
  }

  lemma {:induction false} EntryComesNext(e: Entry, rest: string, newline: bool, testSymbols: bool)
    requires GoodTok(e.tok, testSymbols) && Apart(e.tok, rest)
    requires Stretch(e.before, TokText(e.tok, testSymbols) + rest)
    ensures var text := TokText(e.tok, testSymbols);
            && text != []
            && NextAt(Spread(e.before) + (text + rest), newline, testSymbols) ==
               Next(|Spread(e.before)|, Reads(TokKind(e.tok, FirstOfLine(e.before, newline), testSymbols), |text|, 0))
  {
    hide StepAt, NextAt, TokKind, GoodTok, Apart, Stretch, Spread, FirstOfLine;
    var first, text := FirstOfLine(e.before, newline), TokText(e.tok, testSymbols);
    TokenReads(e.tok, rest, first, testSymbols);
    hide TokText;
    StretchPassed(e.before, text + rest, newline, testSymbols);
  }

  lemma {:induction false} EndComesNext(end: seq<Piece>, newline: bool, testSymbols: bool)
    requires Stretch(end, "")
    ensures NextAt(Spread(end), newline, testSymbols) == Next(|Spread(end)|, Reads(Eof, 0, 0))
  {
    hide StepAt, NextAt, Stretch, Spread, FirstOfLine;
    assert Spread(end) + "" == Spread(end);
    StretchPassed(end, "", newline, testSymbols);
  }

  lemma {:induction false} EntriesRun(s: string, es: seq<Entry>, end: seq<Piece>, testSymbols: bool, at: nat,
          newline: bool)
    requires GoodSource(es, end, testSymbols) && at <= |s| && s[at..] == SourceText(es, end, testSymbols)
    ensures RunAt(s, newline, testSymbols, at, 0) == Run(Lexemes(es, end, testSymbols, at, newline), true)
    decreases |es|
  {
    hide NextAt, RunAt, TokText, TokKind, GoodTok, Apart, Stretch, Spread, FirstOfLine;
    RunStep(s, newline, testSymbols, at, 0);
    if es == [] {
      EndComesNext(end, newline, testSymbols);
    } else {
      var rest := SourceText(es[1..], end, testSymbols);
      var e := es[0];
      assert e in es;
      EntryComesNext(e, rest, newline, testSymbols);
      KindIsNoEnd(e.tok, FirstOfLine(e.before, newline), testSymbols);
      var a, text := Spread(e.before), TokText(e.tok, testSymbols);
      PartWay(s, at, a, text, rest);
      EntriesRun(s, es[1..], end, testSymbols, at + |a| + |text|, false);
    }
  }

  lemma {:induction false} PartWay(s: string, at: nat, a: string, text: string, rest: string)
    requires at <= |s| && s[at..] == a + (text + rest)
    ensures at + |a| + |text| <= |s| && s[at + |a| + |text|..] == rest
  {
    assert |s[at..]| == |s| - at;
    assert s[at + |a| + |text|..] == s[at..][|a| + |text|..];
  }

  /** Reading a source gives back the tokens it has been written from, each where it was written and first of its line
    * where a newline comes before it, and ends with the source.
    */
  lemma {:induction false} SourceReadsBack(es: seq<Entry>, end: seq<Piece>, testSymbols: bool)
    requires GoodSource(es, end, testSymbols)
    ensures RunAt(SourceText(es, end, testSymbols), true, testSymbols, 0, 0) ==
            Run(Lexemes(es, end, testSymbols, 0, true), true)
  {
    hide RunAt, Lexemes;
    var s := SourceText(es, end, testSymbols);
    AllOf(s);
    hide GoodSource;
    EntriesRun(s, es, end, testSymbols, 0, true);
  }
}
