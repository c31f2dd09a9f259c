/** Which newlines the lexer misses, and when it runs over the end of the source. */
module LexLost {
  import opened LexCursor
  import opened LexLiteral
  import opened LexQuoted
  import opened TokenText

  // ------------------------------------------------------------ backslashes

  /** How many backslashes stand right before a place. */
  function Backslashes(s: string, i: nat): nat
    requires i <= |s|
  {
    if i == 0 || s[i - 1] != '\\' then 0 else 1 + Backslashes(s, i - 1)
  }

  /** An odd number of them leaves the last one over, which takes what comes next with it. */
  predicate Taken(s: string, i: nat)
    requires i <= |s|
  {
    Backslashes(s, i) % 2 == 1
  }

  /** The newlines among the first `n` characters that are taken by a backslash. */
  function TakenNewlines(s: string, n: nat): nat
    requires n <= |s|
  {
    if n == 0 then 0 else TakenNewlines(s, n - 1) + if s[n - 1] == '\n' && Taken(s, n - 1) then 1 else 0
  }

  /** Between the places no `quote` ends a literal. */
  ghost predicate NoneEnds(s: string, start: nat, end: nat, quote: char) {
    forall j :: start <= j < end <= |s| && s[j] == quote ==> Taken(s, j)
  }

  lemma {:induction false} HexRun(s: string, digits: nat, value: nat)
    ensures var e := HexAt(s, digits, value);
            e.length <= |s| && forall j :: 0 <= j < e.length ==> HexDigit(s[j]).Some?
    decreases digits
  {
    if digits > 0 && HexDigit(First(s)).Some? {
      HexRun(After(s, 1), digits - 1, 16 * value + HexDigit(First(s)).value);
      hide HexDigit;
      assert forall j :: 1 <= j < |s| ==> s[j] == After(s, 1)[j - 1];
    }
  }

  lemma {:induction false} EscapeRun(s: string, unicodeAllowed: bool, isString: bool)
    requires |s| >= 2
    ensures var e := EscapeAt(s, unicodeAllowed, isString);
            2 <= e.length <= |s| && forall j :: 2 <= j < e.length ==> HexDigit(s[j]).Some?
  {
    var digits := HexDigits(s[1], unicodeAllowed);
    HexRun(s[2..], digits, 0);
    hide HexDigit, HexAt;
    assert forall j :: 2 <= j < |s| ==> s[j] == s[2..][j - 2];
  }

  /** Digits neither take anything nor are newlines. */
  lemma {:induction false} DigitsTakeNothing(s: string, start: nat, end: nat)
    requires start <= end <= |s| && forall j :: start <= j < end ==> HexDigit(s[j]).Some?
    ensures TakenNewlines(s, end) == TakenNewlines(s, start)
    ensures start < end ==> Backslashes(s, end) == 0
    decreases end
  {
    if start < end {
      DigitsTakeNothing(s, start, end - 1);
    }
  }

  /** Between two places where nothing is taken, `k` newlines are, and no literal ends. */
  ghost predicate Takes(t: string, at: nat, next: nat, k: nat, quote: char) {
    && at <= next <= |t| && !Taken(t, next) && NoneEnds(t, at, next, quote)
    && TakenNewlines(t, next) == TakenNewlines(t, at) + k
  }

  lemma {:induction false} PlainTakes(t: string, at: nat, quote: char)
    requires at < |t| && !Taken(t, at) && t[at] != '\\' && t[at] != quote
    ensures Takes(t, at, at + 1, 0, quote) && t[at..][1..] == t[at + 1..]
  {
  }

  lemma {:induction false} PairTakes(t: string, at: nat, quote: char)
    requires at + 2 <= |t| && t[at] == '\\' && !Taken(t, at) && quote != '\\'
    ensures Takes(t, at, at + 2, if t[at + 1] == '\n' then 1 else 0, quote)
  {
    assert Backslashes(t, at + 1) == 1 + Backslashes(t, at);
    assert Backslashes(t, at + 2) == if t[at + 1] == '\\' then 2 + Backslashes(t, at) else 0;
  }

  lemma {:induction false} DigitsTake(t: string, at: nat, mid: nat, next: nat, k: nat, quote: char)
    requires Takes(t, at, mid, k, quote) && mid <= next <= |t| && HexDigit(quote).None?
    requires forall j :: mid <= j < next ==> HexDigit(t[j]).Some?
    ensures Takes(t, at, next, k, quote)
  {
    DigitsTakeNothing(t, mid, next);
  }

  /** An escape takes one character, and ends where nothing is taken. */
  lemma {:induction false} EscapeTakes(t: string, at: nat, unicodeAllowed: bool, isString: bool, quote: char)
    requires at + 2 <= |t| && t[at] == '\\' && !Taken(t, at) && (quote == '\"' || quote == '\'')
    ensures var e, s := EscapeAt(t[at..], unicodeAllowed, isString), t[at..];
            After(s, e.length) == After(t, at + e.length) && Takes(t, at, at + e.length, EscapeMisses(s), quote)
  {
    var s := t[at..];
    EscapeRun(s, unicodeAllowed, isString);
    var e := EscapeAt(s, unicodeAllowed, isString);
    PairTakes(t, at, quote);
    hide EscapeAt, Takes, Taken, HexDigit;
    forall j | at + 2 <= j < at + e.length
      ensures HexDigit(t[j]).Some?
    {
      assert t[j] == s[j - at];
    }
    assert HexDigit(quote).None? by { NoDigit(quote); }
    DigitsTake(t, at, at + 2, at + e.length, EscapeMisses(s), quote);
  }

  lemma {:induction false} NoDigit(quote: char)
    requires quote == '\"' || quote == '\''
    ensures HexDigit(quote).None?
  {
  }

  /** Every newline up to the end of a literal is missed that is taken, and no other. The end is the first quote that is
    * not taken, or the end of the source, and the source is overrun if what is beyond that is taken.
    */
  ghost predicate Accounts(t: string, at: nat, o: Outcome, length: nat, missed: nat, quote: char)
    requires at <= |t|
  {
    if o.Reads? then
      var end := at + (o.length - length);
      && at <= end <= |t| && o.missed == missed + TakenNewlines(t, end) - TakenNewlines(t, at)
      && if o.kind == LexError then end == |t| && !Taken(t, end) && NoneEnds(t, at, end, quote) else
           at < end && t[end - 1] == quote && !Taken(t, end - 1) && NoneEnds(t, at, end - 1, quote)
    else o == Overruns && Taken(t, |t|) && NoneEnds(t, at, |t|, quote)
  }

  lemma {:induction false} AccountsOn(t: string, at: nat, next: nat, k: nat, o: Outcome, length: nat, missed: nat,
          quote: char)
    requires Takes(t, at, next, k, quote) && Accounts(t, next, o, length + (next - at), missed + k, quote)
    ensures Accounts(t, at, o, length, missed, quote)
  {
    hide Taken, TakenNewlines;
  }

  lemma {:induction false} AccountsEnd(t: string, at: nat, o: Outcome, length: nat, missed: nat, quote: char)
    requires at <= |t| && !Taken(t, at) && quote != '\\' && quote != '\n'
    requires at < |t| && t[at] != quote ==> at + 1 == |t| && t[at] == '\\' && o == Overruns
    requires at < |t| && t[at] == quote ==>
             o.Reads? && o.length == length + 1 && o.missed == missed && o.kind != LexError
    requires at == |t| ==> o == Reads(LexError, length, missed)
    ensures Accounts(t, at, o, length, missed, quote)
  {
  }

  /** So it is with string literals. */
  lemma {:induction false} StringTakes(t: string, at: nat, done: seq<byte>, length: nat, missed: nat)
    requires at <= |t| && !Taken(t, at)
    ensures Accounts(t, at, StringAt(t[at..], done, length, missed), length, missed, '\"')
    decreases |t| - at
  {
    hide StringAt, EscapeAt, Encoded, Accounts, Taken, Takes, EscapeMisses;
    var s, o := t[at..], StringAt(t[at..], done, length, missed);
    if First(s) == '\"' || s == [] {
      StringEnd(s, done, length, missed);
      AccountsEnd(t, at, o, length, missed, '\"');
    } else {
      StringStep(s, done, length, missed);
      if s[0] != '\\' {
        PlainTakes(t, at, '\"');
        StringTakes(t, at + 1, done + [ByteOf(s[0])], length + 1, missed);
        AccountsOn(t, at, at + 1, 0, o, length, missed, '\"');
      } else if |s| == 1 {
        AccountsEnd(t, at, o, length, missed, '\"');
      } else {
        var e := EscapeAt(s, true, true);
        EscapeTakes(t, at, true, true, '\"');
        TakesWithin(t, at, at + e.length, EscapeMisses(s), '\"');
        StringTakes(t, at + e.length, done + Encoded(e), length + e.length, missed + EscapeMisses(s));
        AccountsOn(t, at, at + e.length, EscapeMisses(s), o, length, missed, '\"');
      }
    }
  }

  lemma {:induction false} TakesWithin(t: string, at: nat, next: nat, k: nat, quote: char)
    requires Takes(t, at, next, k, quote)
    ensures at <= next <= |t| && !Taken(t, next)
  {
  }

  /** And with character literals. */
  lemma {:induction false} CharTakes(t: string, at: nat, value: nat, length: nat, missed: nat)
    requires at <= |t| && !Taken(t, at)
    ensures Accounts(t, at, CharAt(t[at..], value, length, missed), length, missed, '\'')
    decreases |t| - at
  {
    hide CharAt, EscapeAt, Packed, Shifted, Accounts, Taken, Takes, EscapeMisses;
    var s, o := t[at..], CharAt(t[at..], value, length, missed);
    if First(s) == '\'' || s == [] {
      CharEnd(s, value, length, missed);
      AccountsEnd(t, at, o, length, missed, '\'');
    } else {
      CharStep(s, value, length, missed);
      if s[0] != '\\' {
        PlainTakes(t, at, '\'');
        CharTakes(t, at + 1, if s[0] as int < 0x80 then Shifted(value, s[0] as int) else value, length + 1, missed);
        AccountsOn(t, at, at + 1, 0, o, length, missed, '\'');
      } else if |s| == 1 {
        AccountsEnd(t, at, o, length, missed, '\'');
      } else {
        var e := EscapeAt(s, false, false);
        EscapeTakes(t, at, false, false, '\'');
        TakesWithin(t, at, at + e.length, EscapeMisses(s), '\'');
        CharTakes(t, at + e.length, Packed(e, value), length + e.length, missed + EscapeMisses(s));
        AccountsOn(t, at, at + e.length, EscapeMisses(s), o, length, missed, '\'');
      }
    }
  }

  /** A string literal misses just the newlines with an odd number of backslashes right before them; it ends at the
    * first quote without; and it runs over the end of the source if and only if there is no such quote, and an odd
    * number of backslashes at the end.
    */
  lemma {:induction false} StringMisses(s: string)
    requires First(s) == '\"' && !ThreeQuotes(s)
    ensures var t, o := s[1..], QuoteAt(s);
            && (o == Overruns <==> Taken(t, |t|) && NoneEnds(t, 0, |t|, '\"'))
            && (o.Reads? ==> 0 < o.length <= |s| && o.missed == TakenNewlines(t, o.length - 1))
            && (o.Reads? && o.kind != LexError ==>
                  && o.length >= 2 && t[o.length - 2] == '\"' && !Taken(t, o.length - 2)
                  && NoneEnds(t, 0, o.length - 2, '\"'))
  {
    var t := s[1..];
    assert !Taken(t, 0) && t[0..] == t;
    StringTakes(t, 0, [], 1, 0);
    hide StringAt, Taken, TripleAt;
    assert TakenNewlines(t, 0) == 0;
  }

  lemma {:induction false} CharMisses(s: string)
    requires First(s) == '\''
    ensures var t, o := s[1..], CharAt(s[1..], 0, 1, 0);
            && (o == Overruns <==> Taken(t, |t|) && NoneEnds(t, 0, |t|, '\''))
            && (o.Reads? ==> 0 < o.length <= |s| && o.missed == TakenNewlines(t, o.length - 1))
            && (o.Reads? && o.kind != LexError ==>
                  && o.length >= 2 && t[o.length - 2] == '\'' && !Taken(t, o.length - 2)
                  && NoneEnds(t, 0, o.length - 2, '\''))
  {
    var t := s[1..];
    assert !Taken(t, 0) && t[0..] == t;
    CharTakes(t, 0, 0, 1, 0);
    hide CharAt, Taken;
    assert TakenNewlines(t, 0) == 0;
  }

  /** An escaped backslash before a newline is harmless. */
  lemma {:induction false} EscapedBackslash()
    ensures QuoteAt("\"\\\\\n\"") == Reads(StringLiteral([0x5C, NEWLINE]), 5, 0)
  {
    var s := "\"\\\\\n\"";
    assert s[1..] == "\\\\\n\"";
    assert After(s[1..], 2) == "\n\"" && s[1..][1] == '\\';
    StringStep(s[1..], [], 1, 0);
    StringStep("\n\"", [0x5C], 3, 0);
    assert "\n\""[1..] == "\"";
    StringEnd("\"", [0x5C, NEWLINE], 4, 0);
    hide StringAt, TripleAt;
    assert [] + [0x5C] == [0x5C] && [0x5C] + [NEWLINE] == [0x5C, NEWLINE];
  }

  // ------------------------------------------------------------ contents of literals

  /** A text that a string literal can consist of: with a quote after it, it is read up to that. */
  predicate IsContent(p: string) {
    var o := StringAt(p + "\"", [], 0, 0);
    o.Reads? && o.kind.StringLiteral? && o.length == |p| + 1
  }

  /** What it stands for. */
  function BytesIn(p: string): seq<byte>
    requires IsContent(p)
  {
    StringAt(p + "\"", [], 0, 0).kind.bytes
  }

  function MissedIn(p: string): nat
    requires IsContent(p)
  {
    StringAt(p + "\"", [], 0, 0).missed
  }

  /** The same reading, begun with something read before. */
  function Begun(o: Outcome, done: seq<byte>, length: nat, missed: nat): Outcome {
    if !o.Reads? then o
    else Reads(if o.kind.StringLiteral? then StringLiteral(done + o.kind.bytes) else o.kind, length + o.length,
               missed + o.missed)
  }

  lemma {:induction false} BegunBefore(s: string, pre: seq<byte>, l: nat, m: nat, done: seq<byte>, length: nat,
          missed: nat)
    ensures StringAt(s, pre + done, l + length, m + missed) == Begun(StringAt(s, done, length, missed), pre, l, m)
    decreases |s|
  {
    hide StringAt, EscapeAt, Encoded, EscapeMisses;
    if First(s) == '\"' || s == [] {
      StringEnd(s, done, length, missed);
      StringEnd(s, pre + done, l + length, m + missed);
    } else {
      StringStep(s, done, length, missed);
      StringStep(s, pre + done, l + length, m + missed);
      if s[0] != '\\' {
        BegunBefore(s[1..], pre, l, m, done + [ByteOf(s[0])], length + 1, missed);
        Associate(pre, done, [ByteOf(s[0])]);
      } else if |s| > 1 {
        var e := EscapeAt(s, true, true);
        BegunBefore(After(s, e.length), pre, l, m, done + Encoded(e), length + e.length, missed + EscapeMisses(s));
        Associate(pre, done, Encoded(e));
      }
    }
  }

  lemma {:induction false} HexSame(p: string, a: string, b: string, digits: nat, value: nat)
    requires HexDigit(First(a)).None? && HexDigit(First(b)).None?
    ensures HexAt(p + a, digits, value) == HexAt(p + b, digits, value) && HexAt(p + a, digits, value).length <= |p|
    decreases digits
  {
    if p == [] {
      assert p + a == a && p + b == b;
    } else if digits > 0 {
      assert (p + a)[1..] == p[1..] + a && (p + b)[1..] == p[1..] + b;
      if HexDigit(p[0]).Some? {
        HexSame(p[1..], a, b, digits - 1, 16 * value + HexDigit(p[0]).value);
      }
    }
  }

  /** An escape is the same whatever follows it, other than a digit. */
  lemma {:induction false} EscapeSame(p: string, a: string, b: string)
    requires |p| >= 2 && HexDigit(First(a)).None? && HexDigit(First(b)).None?
    ensures var e, e' := EscapeAt(p + a, true, true), EscapeAt(p + b, true, true);
            && e == e' && e.length <= |p|
            && After(p + a, e.length) == After(p, e.length) + a && After(p + b, e.length) == After(p, e.length) + b
            && EscapeMisses(p + a) == EscapeMisses(p + b)
  {
    hide HexDigit, HexAt;
    assert (p + a)[2..] == p[2..] + a && (p + b)[2..] == p[2..] + b;
    HexSame(p[2..], a, b, HexDigits(p[1], true), 0);
    var n := EscapeAt(p + a, true, true).length;
    hide EscapeAt;
    assert (p + a)[n..] == p[n..] + a && (p + b)[n..] == p[n..] + b;
  }

  lemma {:induction false} StringClosed(s: string, done: seq<byte>, length: nat, missed: nat)
    ensures First(s) == '\"' ==> StringAt(s, done, length, missed) == Reads(StringLiteral(done), length + 1, missed)
    ensures s == "\\\"" ==> !(StringAt(s, done, length, missed).Reads? &&
                               StringAt(s, done, length, missed).kind.StringLiteral?)
  {
    if s == "\\\"" {
      StringStep(s, done, length, missed);
      StringEnd([], done + [0x22], length + 2, missed);
    }
  }

  /** What has been read when a content is, whatever comes after it, other than a digit. */
  lemma {:induction false} ContentThen(p: string, rest: string, done: seq<byte>, length: nat, missed: nat)
    requires HexDigit(First(rest)).None?
    requires var o := StringAt(p + "\"", done, length, missed);
             o.Reads? && o.kind.StringLiteral? && o.length == length + |p| + 1
    ensures var o := StringAt(p + "\"", done, length, missed);
            StringAt(p + rest, done, length, missed) == StringAt(rest, o.kind.bytes, length + |p|, o.missed)
    decreases |p|
  {
    var s, t := p + "\"", p + rest;
    StringClosed(s, done, length, missed);
    hide StringAt, EscapeAt, Encoded, EscapeMisses, HexDigit;
    if p == [] {
      assert s == "\"" && t == rest;
    } else {
      assert s[0] == p[0] && t[0] == p[0] && p[0] != '\"';
      assert |p| == 1 && p[0] == '\\' ==> s == "\\\"";
      StringStep(s, done, length, missed);
      StringStep(t, done, length, missed);
      if p[0] != '\\' {
        assert s[1..] == p[1..] + "\"" && t[1..] == p[1..] + rest;
        ContentThen(p[1..], rest, done + [ByteOf(p[0])], length + 1, missed);
      } else {
        var e := EscapeAt(s, true, true);
        assert HexDigit('\"').None? by { NoDigit('\"'); }
        EscapeSame(p, "\"", rest);
        ContentThen(After(p, e.length), rest, done + Encoded(e), length + e.length, missed + EscapeMisses(s));
      }
    }
  }

  lemma {:induction false} ContentReads(p: string, rest: string, done: seq<byte>, length: nat, missed: nat)
    requires IsContent(p) && HexDigit(First(rest)).None?
    ensures StringAt(p + rest, done, length, missed) ==
            StringAt(rest, done + BytesIn(p), length + |p|, missed + MissedIn(p))
  {
    hide StringAt, HexDigit;
    ContentThen(p, rest, [], 0, 0);
    BegunBefore(p + rest, done, length, missed, [], 0, 0);
    BegunBefore(rest, done, length, missed, BytesIn(p), |p|, MissedIn(p));
    assert done + [] == done;
  }

  /** Text without quotes and backslashes is content. */
  lemma {:induction false} PlainIsContent(p: string)
    requires Plain(p)
    ensures IsContent(p) && BytesIn(p) == BytesOf(p) && MissedIn(p) == 0
  {
    PlainReads(p, "\"", [], 0, 0);
    StringEnd("\"", BytesOf(p), |p|, 0);
    assert [] + BytesOf(p) == BytesOf(p);
  }

  lemma {:induction false} ContentOpens(p: string, t: string)
    requires IsContent(p) && First(t) == '\\'
    ensures !ThreeQuotes("\"" + p + t)
  {
    StringClosed(p + "\"", [], 0, 0);
    hide StringAt;
    var s := "\"" + p + t;
    if p == [] {
      assert s[1] == t[0];
    } else {
      assert (p + "\"")[0] == p[0] && s[1] == p[0];
    }
  }

  /** A backslash before a newline loses the count of a line, between any contents of a string literal. */
  lemma {:induction false} EscapedNewlineMissed(p: string, q: string, rest: string)
    requires IsContent(p) && IsContent(q)
    ensures QuoteAt("\"" + p + "\\\n" + q + "\"" + rest) ==
            Reads(StringLiteral(BytesIn(p) + BytesIn(q)), |p| + |q| + 4, MissedIn(p) + MissedIn(q) + 1)
  {
    hide QuoteAt, IsContent, BytesIn, MissedIn, StringAt, ThreeQuotes;
    var t := "\\\n" + (q + ("\"" + rest));
    assert "\"" + p + "\\\n" + q + "\"" + rest == "\"" + p + t;
    ContentOpens(p, t);
    SingleQuote(p, t);
    ContentsRead(p, q, "\"" + rest);
  }

  lemma {:induction false} ContentsRead(p: string, q: string, end: string)
    requires IsContent(p) && IsContent(q) && First(end) == '\"'
    ensures StringAt(p + ("\\\n" + (q + end)), [], 1, 0) ==
            Reads(StringLiteral(BytesIn(p) + BytesIn(q)), |p| + |q| + 4, MissedIn(p) + MissedIn(q) + 1)
  {
    hide IsContent, BytesIn, MissedIn, StringAt;
    ContentReads(p, "\\\n" + (q + end), [], 1, 0);
    assert [] + BytesIn(p) == BytesIn(p);
    NewlineEscape(q + end, BytesIn(p), 1 + |p|, MissedIn(p));
    ContentReads(q, end, BytesIn(p), 3 + |p|, MissedIn(p) + 1);
    StringEnd(end, BytesIn(p) + BytesIn(q), |p| + |q| + 3, MissedIn(p) + MissedIn(q) + 1);
  }

  /** A newline is no escape. It and the backslash are consumed, and it is missed. */
  lemma {:induction false} NewlineEscape(rest: string, done: seq<byte>, length: nat, missed: nat)
    ensures StringAt("\\\n" + rest, done, length, missed) == StringAt(rest, done, length + 2, missed + 1)
  {
    var t := "\\\n" + rest;
    StringStep(t, done, length, missed);
    hide StringAt;
    assert t[2..] == rest && done + [] == done;
  }

  /** A backslash that is the last character of the source makes the lexer consume one more than there is. */
  lemma {:induction false} TrailingBackslashOverruns(p: string)
    requires IsContent(p)
    ensures QuoteAt("\"" + p + "\\") == Overruns
  {
    ContentOpens(p, "\\");
    SingleQuote(p, "\\");
    ContentReads(p, "\\", [], 1, 0);
  }
}
