/** What normalising a triple-quoted string makes of a text, said by how the text is laid out. */
module TextLayout {
  import opened TokenText

  // ------------------------------------------------------- the leading newline

  /** Of the trimmed lines one newline goes, if they begin with one, with the carriage return before it. */
  lemma {:induction false} OneNewlineGoes(s: seq<byte>)
    requires NEWLINE in s
    ensures var t := TrimLines(Lines(s), Margin(Lines(s), |s|));
            && ([NEWLINE] <= t ==> t == [NEWLINE] + Dedent(s))
            && ([RETURN, NEWLINE] <= t ==> t == [RETURN, NEWLINE] + Dedent(s))
            && (!([NEWLINE] <= t) && !([RETURN, NEWLINE] <= t) ==> t == Dedent(s))
  {
    hide TrimLines, Lines, Margin, DropNewline;
    NewlineDropped(TrimLines(Lines(s), Margin(Lines(s), |s|)));
  }

  lemma {:induction false} NewlineDropped(t: seq<byte>)
    ensures [NEWLINE] <= t ==> t == [NEWLINE] + DropNewline(t)
    ensures [RETURN, NEWLINE] <= t ==> t == [RETURN, NEWLINE] + DropNewline(t)
    ensures !([NEWLINE] <= t) && !([RETURN, NEWLINE] <= t) ==> t == DropNewline(t)
  {
    assert [NEWLINE] <= t <==> |t| >= 1 && t[0] == NEWLINE;
    assert [RETURN, NEWLINE] <= t <==> |t| >= 2 && t[0] == RETURN && t[1] == NEWLINE;
  }

  /** An empty first line goes. */
  lemma {:induction false} EmptyFirstLine(s: seq<byte>)
    ensures var ls, ws := Lines([NEWLINE] + s), Margin(Lines([NEWLINE] + s), |s| + 1);
            ls == [[NEWLINE]] + Lines(s) && Dedent([NEWLINE] + s) == TrimLines(Lines(s), ws)
  {
    hide Lines, Margin, Dedent, TrimLines;
    var u := [NEWLINE] + s;
    LinesEmpty(s);
    NewlineStays(Lines(s), Margin(Lines(u), |u|));
    assert u[0] == NEWLINE;
    OneNewlineGoes(u);
    Unfronted(TrimLines(Lines(s), Margin(Lines(u), |u|)), Dedent(u));
  }

  lemma {:induction false} Unfronted(a: seq<byte>, b: seq<byte>)
    ensures [NEWLINE] <= [NEWLINE] + a
    ensures [NEWLINE] + a == [NEWLINE] + b ==> a == b
  {
    assert ([NEWLINE] + a)[1..] == a && ([NEWLINE] + b)[1..] == b;
  }

  lemma {:induction false} LinesEmpty(s: seq<byte>)
    ensures Lines([NEWLINE] + s) == [[NEWLINE]] + Lines(s)
  {
    var u := [NEWLINE] + s;
    assert LineLength(u) == 1;
    assert u[..1] == [NEWLINE] && u[1..] == s;
  }

  lemma {:induction false} NewlineStays(ls: seq<seq<byte>>, ws: nat)
    ensures TrimLines([[NEWLINE]] + ls, ws) == [NEWLINE] + TrimLines(ls, ws)
  {
    assert ([[NEWLINE]] + ls)[1..] == ls;
  }

  /** So does one that ends in CR LF, if the margin leaves its newline; if the margin takes both bytes, one more
    * newline at the start of the lines that follow goes.
    */
  lemma {:induction false} EmptyFirstLineReturn(s: seq<byte>)
    ensures var u := [RETURN, NEWLINE] + s;
            var ws, t := Margin(Lines(u), |u|), TrimLines(Lines(s), Margin(Lines(u), |u|));
            && Lines(u) == [[RETURN, NEWLINE]] + Lines(s)
            && (ws < 2 ==> Dedent(u) == t)
            && (ws >= 2 && [NEWLINE] <= t ==> t == [NEWLINE] + Dedent(u))
            && (ws >= 2 && [RETURN, NEWLINE] <= t ==> t == [RETURN, NEWLINE] + Dedent(u))
            && (ws >= 2 && !([NEWLINE] <= t) && !([RETURN, NEWLINE] <= t) ==> t == Dedent(u))
  {
    var u := [RETURN, NEWLINE] + s;
    LinesFirst([RETURN], s);
    assert [RETURN] + [NEWLINE] == [RETURN, NEWLINE] && [RETURN] + [NEWLINE] + s == u;
    var ws := Margin(Lines(u), |u|);
    assert Lines(u)[1..] == Lines(s);
    assert TrimLine([RETURN, NEWLINE], ws) ==
           if ws == 0 then [RETURN, NEWLINE] else if ws == 1 then [NEWLINE] else [];
    OneNewlineGoes(u);
  }

  lemma {:induction false} LinesFirst(l: seq<byte>, rest: seq<byte>)
    requires NEWLINE !in l
    ensures Lines(l + [NEWLINE] + rest) == [l + [NEWLINE]] + Lines(rest)
  {
    var s := l + [NEWLINE] + rest;
    assert s[|l|] == NEWLINE;
    var n := LineLength(s);
    assert n == |l| + 1;
    assert s[..n] == l + [NEWLINE] && s[n..] == rest;
  }

  lemma {:induction false} LinesLast(l: seq<byte>)
    requires NEWLINE !in l
    ensures Lines(l) == if l == [] then [] else [l]
  {
    if l != [] {
      assert LineLength(l) == |l|;
      assert l[..|l|] == l && l[|l|..] == [];
    }
  }

  // ------------------------------------------------------------ rows of a text

  /** A line without its newline: the blanks that belong to the margin, and the text after them. */
  datatype Row = Row(pad: seq<byte>, text: seq<byte>)

  /** The pad is as wide as the margin, or the line holds nothing but less than that. */
  predicate Fits(r: Row, w: nat) {
    && (forall b :: b in r.pad ==> Blank(b))
    && NEWLINE !in r.text && RETURN !in r.text
    && (|r.pad| == w || (r.text == [] && |r.pad| < w))
  }

  predicate AllFit(rows: seq<Row>, w: nat) {
    forall r :: r in rows ==> Fits(r, w)
  }

  /** The text of the rows: each ends in a newline, but for the last. */
  function Laid(rows: seq<Row>, last: Row): seq<byte> {
    if rows == [] then last.pad + last.text else
      (rows[0].pad + rows[0].text) + [NEWLINE] + Laid(rows[1..], last)
  }

  /** The same rows without the margin. A row of a few blanks only is left out. */
  function Plain(rows: seq<Row>, last: Row, w: nat): seq<byte> {
    if rows == [] then last.text
    else if 0 < |rows[0].pad| < w then Plain(rows[1..], last, w)
    else rows[0].text + [NEWLINE] + Plain(rows[1..], last, w)
  }

  /** Some row's text begins without a blank. */
  predicate Starts(r: Row) {
    r.text != [] && Solid(r.text[0])
  }

  predicate Anchored(rows: seq<Row>, last: Row) {
    Starts(last) || exists r :: r in rows && Starts(r)
  }

  /** Whether the rows of a text are trimmed line by line. */
  ghost predicate TrimsTo(rows: seq<Row>, last: Row, w: nat) {
    TrimLines(Lines(Laid(rows, last)), w) == Plain(rows, last, w)
  }

  lemma {:induction false} LaidFirst(rows: seq<Row>, last: Row, w: nat)
    requires rows != [] && AllFit(rows, w)
    ensures Lines(Laid(rows, last)) == [rows[0].pad + rows[0].text + [NEWLINE]] + Lines(Laid(rows[1..], last))
    ensures Fits(rows[0], w) && AllFit(rows[1..], w)
  {
    var r := rows[0];
    assert r in rows && NEWLINE !in r.pad + r.text;
    LinesFirst(r.pad + r.text, Laid(rows[1..], last));
  }

  lemma {:induction false} RowsTrimmed(rows: seq<Row>, last: Row, w: nat)
    requires AllFit(rows, w) && Fits(last, w)
    ensures TrimsTo(rows, last, w)
  {
    hide AllFit, Lines, TrimLines, TrimLine, Fits, Plain, Laid;
    if rows == [] {
      LastTrims(last, w);
    } else {
      LaidFirst(rows, last, w);
      RowsTrimmed(rows[1..], last, w);
      RowTrimmed(rows[0], w);
      TrimCons(rows[0].pad + rows[0].text + [NEWLINE], Lines(Laid(rows[1..], last)), w);
      PlainCons(rows, last, w);
    }
  }

  lemma {:induction false} LastTrims(last: Row, w: nat)
    requires Fits(last, w)
    ensures TrimsTo([], last, w)
  {
    assert forall b :: b in last.pad ==> Blank(b);
    LinesLast(last.pad + last.text);
    LastTrimmed(last, w);
    hide TrimLines, Lines, Fits;
  }

  lemma {:induction false} TrimCons(l: seq<byte>, ls: seq<seq<byte>>, w: nat)
    ensures TrimLines([l] + ls, w) == TrimLine(l, w) + TrimLines(ls, w)
  {
    hide TrimLine;
    assert ([l] + ls)[1..] == ls;
  }

  lemma {:induction false} PlainCons(rows: seq<Row>, last: Row, w: nat)
    requires rows != []
    ensures Plain(rows, last, w) ==
            (if 0 < |rows[0].pad| < w then [] else rows[0].text + [NEWLINE]) + Plain(rows[1..], last, w)
  {
    assert [] + Plain(rows[1..], last, w) == Plain(rows[1..], last, w);
  }

  lemma {:induction false} RowTrimmed(r: Row, w: nat)
    requires Fits(r, w)
    ensures TrimLine(r.pad + r.text + [NEWLINE], w) == if 0 < |r.pad| < w then [] else r.text + [NEWLINE]
  {
    var l := r.pad + r.text + [NEWLINE];
    if |r.pad| == w {
      assert l[w..] == r.text + [NEWLINE];
    } else {
      assert r.text == [] && |l| <= w;
      assert |r.pad| == 0 ==> l == [NEWLINE];
      assert |r.pad| > 0 ==> |l| > 1;
    }
  }

  lemma {:induction false} LastTrimmed(last: Row, w: nat)
    requires Fits(last, w)
    ensures var l := last.pad + last.text; TrimLines(if l == [] then [] else [l], w) == last.text
  {
    var l := last.pad + last.text;
    if l != [] {
      assert NEWLINE !in l && l[0] in l;
      var ls: seq<seq<byte>> := [l];
      assert |ls[1..]| == 0;
      assert |last.pad| == w ==> l[w..] == last.text;
    }
  }

  // --------------------------------------------------------------- the margin

  lemma {:induction false} PaddedIndent(pad: seq<byte>, text: seq<byte>)
    requires forall b :: b in pad ==> Blank(b)
    ensures Indent(pad + text) == |pad| + Indent(text)
    ensures HasSolid(pad + text) <==> HasSolid(text)
  {
    if pad == [] {
      assert pad + text == text;
    } else {
      assert pad[0] in pad && (pad + text)[1..] == pad[1..] + text;
      PaddedIndent(pad[1..], text);
      SolidCons(pad + text);
    }
  }

  lemma {:induction false} SolidCons(l: seq<byte>)
    requires l != []
    ensures HasSolid(l) <==> Solid(l[0]) || HasSolid(l[1..])
  {
    if HasSolid(l[1..]) {
      var i :| 0 <= i < |l[1..]| && Solid(l[1..][i]);
      assert Solid(l[i + 1]);
    }
    if HasSolid(l) && !Solid(l[0]) {
      var i :| 0 <= i < |l| && Solid(l[i]);
      assert Solid(l[1..][i - 1]);
    }
  }

  /** A line made of a row is indented by the margin at least, if it counts; by just that, if its text starts at
    * once.
    */
  lemma {:induction false} RowIndent(r: Row, end: seq<byte>, w: nat)
    requires Fits(r, w) && (end == [] || end == [NEWLINE])
    ensures HasSolid(r.pad + r.text + end) ==> Indent(r.pad + r.text + end) >= w
    ensures Starts(r) && |r.pad| == w ==> HasSolid(r.pad + r.text + end) && Indent(r.pad + r.text + end) == w
  {
    assert r.pad + r.text + end == r.pad + (r.text + end);
    PaddedIndent(r.pad, r.text + end);
    if Starts(r) {
      assert Solid((r.text + end)[0]);
    }
    if r.text == [] {
      assert !HasSolid(r.text + end);
    }
  }

  ghost predicate Indented(ls: seq<seq<byte>>, w: nat) {
    forall l :: l in ls && HasSolid(l) ==> Indent(l) >= w
  }

  ghost predicate Reaches(ls: seq<seq<byte>>, w: nat) {
    exists l :: l in ls && HasSolid(l) && Indent(l) == w
  }

  lemma {:induction false} IndentedCons(l: seq<byte>, ls: seq<seq<byte>>, w: nat)
    requires HasSolid(l) ==> Indent(l) >= w
    ensures Indented(ls, w) ==> Indented([l] + ls, w)
    ensures (HasSolid(l) && Indent(l) == w) || Reaches(ls, w) ==> Reaches([l] + ls, w)
  {
    hide HasSolid;
    assert l in [l] + ls;
    if Reaches(ls, w) {
      var l' :| l' in ls && HasSolid(l') && Indent(l') == w;
      assert l' in [l] + ls;
    }
  }

  lemma {:induction false} NoneIndented(w: nat)
    ensures Indented([], w)
  {
  }

  lemma {:induction false} RowsIndented(rows: seq<Row>, last: Row, w: nat)
    requires AllFit(rows, w) && Fits(last, w)
    ensures Indented(Lines(Laid(rows, last)), w)
    ensures Anchored(rows, last) ==> Reaches(Lines(Laid(rows, last)), w)
    ensures w <= |Laid(rows, last)| || !Anchored(rows, last)
  {
    hide Lines, Indented, Reaches, HasSolid, Indent;
    if rows == [] {
      LinesLast(last.pad + last.text);
      RowIndent(last, [], w);
      assert last.pad + last.text + [] == last.pad + last.text;
      IndentedCons(last.pad + last.text, [], w);
      NoneIndented(w);
      assert [last.pad + last.text] + [] == [last.pad + last.text];
    } else {
      LaidFirst(rows, last, w);
      RowsIndented(rows[1..], last, w);
      RowIndent(rows[0], [NEWLINE], w);
      IndentedCons(rows[0].pad + rows[0].text + [NEWLINE], Lines(Laid(rows[1..], last)), w);
      AnchoredCons(rows, last);
    }
  }

  lemma {:induction false} AnchoredCons(rows: seq<Row>, last: Row)
    requires rows != []
    ensures Anchored(rows, last) <==> Starts(rows[0]) || Anchored(rows[1..], last)
  {
    assert forall r :: r in rows <==> r == rows[0] || r in rows[1..];
  }

  lemma {:induction false} LaidMargin(rows: seq<Row>, last: Row, w: nat)
    requires rows != [] && AllFit(rows, w) && Fits(last, w)
    requires Anchored(rows, last) || w == |Laid(rows, last)|
    ensures var s := Laid(rows, last); Margin(Lines(s), |s|) == w
  {
    var s := Laid(rows, last);
    RowsIndented(rows, last, w);
    MarginLargest(Lines(s), |s|);
    hide Lines, Margin, Laid, HasSolid, Indent, AllFit, Fits, Anchored;
    if Reaches(Lines(s), w) {
      var l :| l in Lines(s) && HasSolid(l) && Indent(l) == w;
    }
  }

  // ------------------------------------------------------------ what is promised

  /** A text free of carriage returns whose rows have a margin of `w`, and no more than that, is normalised to the rows
    * without it and without an empty first one.
    */
  lemma {:induction false} LaidOut(rows: seq<Row>, last: Row, w: nat)
    requires rows != [] && AllFit(rows, w) && Fits(last, w)
    requires Anchored(rows, last) || w == |Laid(rows, last)|
    ensures var plain := Plain(rows, last, w);
            plain == if [NEWLINE] <= plain then [NEWLINE] + Dedent(Laid(rows, last)) else Dedent(Laid(rows, last))
  {
    var s := Laid(rows, last);
    LaidMargin(rows, last, w);
    RowsTrimmed(rows, last, w);
    OneNewlineGoes(s);
    PlainClean(rows, last, w);
    hide Dedent, Plain, Lines, Margin, AllFit, Fits, Anchored;
    var r := rows[0];
    assert s[|r.pad + r.text|] == NEWLINE;
  }

  lemma {:induction false} PlainClean(rows: seq<Row>, last: Row, w: nat)
    requires AllFit(rows, w) && Fits(last, w)
    ensures RETURN !in Plain(rows, last, w)
  {
    if rows != [] {
      assert rows[0] in rows;
      PlainClean(rows[1..], last, w);
    }
  }

  // --------------------------------------------------- every text is laid out so

  lemma {:induction false} EndIndent(c: seq<byte>)
    ensures Indent(c + [NEWLINE]) == Indent(c) && (HasSolid(c + [NEWLINE]) <==> HasSolid(c))
  {
    if c == [] {
      assert c + [NEWLINE] == [NEWLINE];
      assert [NEWLINE][1..] == c;
    } else {
      EndIndent(c[1..]);
      SolidCons(c);
      SolidCons(c + [NEWLINE]);
      assert (c + [NEWLINE])[1..] == c[1..] + [NEWLINE];
    }
  }

  lemma {:induction false} RowOfLine(c: seq<byte>, w: nat) returns (r: Row)
    requires RETURN !in c && NEWLINE !in c && (HasSolid(c) ==> Indent(c) >= w)
    ensures Fits(r, w) && r.pad + r.text == c
    ensures HasSolid(c) && Indent(c) == w ==> Starts(r)
  {
    if HasSolid(c) {
      assert NEWLINE !in c[..|c| - 1];
      OnlyBlanksTrimmed(c, w);
      r := Row(c[..w], c[w..]);
    } else {
      forall b | b in c
        ensures Blank(b)
      {
        var i :| 0 <= i < |c| && c[i] == b;
        assert !Solid(c[i]);
      }
      r := if |c| < w then Row(c, []) else Row(c[..w], c[w..]);
    }
  }

  lemma {:induction false} RowsOf(s: seq<byte>, w: nat) returns (rows: seq<Row>, last: Row)
    requires RETURN !in s && Indented(Lines(s), w)
    ensures Laid(rows, last) == s && AllFit(rows, w) && Fits(last, w)
    ensures Reaches(Lines(s), w) ==> Anchored(rows, last)
    ensures NEWLINE in s ==> rows != []
    decreases |s|
  {
    rows := [];
    if NEWLINE !in s {
      LinesLast(s);
      assert s in Lines(s) || s == [];
      last := RowOfLine(s, w);
    } else {
      var n := LineLength(s);
      var c, rest := s[..n - 1], s[n..];
      FirstLine(s);
      EndIndent(c);
      var ls := Lines(s);
      assert ls[0] == c + [NEWLINE] && ls[1..] == Lines(rest);
      assert ls[0] in ls;
      forall l | l in Lines(rest) && HasSolid(l)
        ensures Indent(l) >= w
      {
        assert l in ls;
      }
      var r := RowOfLine(c, w);
      var rs;
      hide Lines, LineLength, HasSolid, Indent, Fits;
      rs, last := RowsOf(rest, w);
      rows := [r] + rs;
      assert rows[1..] == rs;
      AnchoredCons(rows, last);
      if Reaches(ls, w) {
        var l :| l in ls && HasSolid(l) && Indent(l) == w;
        assert l == ls[0] || l in ls[1..];
      }
    }
  }

  lemma {:induction false} FirstLine(s: seq<byte>)
    requires NEWLINE in s
    ensures var n := LineLength(s);
            var c, rest := s[..n - 1], s[n..];
            && NEWLINE !in c && s == c + [NEWLINE] + rest && Lines(s) == [c + [NEWLINE]] + Lines(rest)
  {
    var n := LineLength(s);
    assert s == s[..n - 1] + [s[n - 1]] + s[n..];
    LinesFirst(s[..n - 1], s[n..]);
  }

  /** Every text of more than one line that is free of carriage returns has such rows, so that `LaidOut` says what any
    * of them is normalised to.
    */
  lemma {:induction false} EveryTextLaid(s: seq<byte>) returns (rows: seq<Row>, last: Row, w: nat)
    requires RETURN !in s && NEWLINE in s
    ensures Laid(rows, last) == s && rows != [] && AllFit(rows, w) && Fits(last, w)
    ensures Anchored(rows, last) || w == |s|
  {
    w := Margin(Lines(s), |s|);
    MarginLargest(Lines(s), |s|);
    hide Lines, Margin, HasSolid, Indent, Anchored, Fits;
    assert w == |s| || Reaches(Lines(s), w);
    rows, last := RowsOf(s, w);
  }

  /** Two lines that begin at once, below an empty line, lose just that. */
  lemma {:induction false} BelowEmptyLine(a: seq<byte>, b: seq<byte>)
    requires Fits(Row([], a), 0) && Fits(Row([], b), 0) && (Starts(Row([], a)) || Starts(Row([], b)))
    ensures Dedent([NEWLINE] + (a + [NEWLINE] + b)) == a + [NEWLINE] + b
  {
    hide Dedent, Fits, Starts;
    var rows, last := [Row([], []), Row([], a)], Row([], b);
    var rest := rows[1..];
    assert rest == [Row([], a)] && rest[1..] == [];
    assert Fits(Row([], []), 0) by { EmptyFits(); }
    assert [] + a == a && [] + b == b && [] + [] + [NEWLINE] == [NEWLINE];
    assert Laid(rest, last) == a + [NEWLINE] + b;
    assert Laid(rows, last) == [NEWLINE] + (a + [NEWLINE] + b);
    assert Plain(rest, last, 0) == a + [NEWLINE] + b;
    assert Plain(rows, last, 0) == [NEWLINE] + (a + [NEWLINE] + b);
    assert rows[1] in rows;
    hide Laid, Plain;
    LaidOut(rows, last, 0);
    Unfronted(a + [NEWLINE] + b, Dedent([NEWLINE] + (a + [NEWLINE] + b)));
  }

  lemma {:induction false} EmptyFits()
    ensures Fits(Row([], []), 0)
  {
  }

  /** `Foo` and `bar` below an empty line. */
  lemma {:induction false} FooBar()
    ensures var foo, bar: seq<byte> := [70, 111, 111], [98, 97, 114];
            Dedent([NEWLINE] + (foo + [NEWLINE] + bar)) == foo + [NEWLINE] + bar
  {
    hide Dedent;
    var foo, bar: seq<byte> := [70, 111, 111], [98, 97, 114];
    BelowEmptyLine(foo, bar);
  }

  // --------------------------------------------------- an empty line that ends in CR LF

  lemma {:induction false} ReturnMargin(rows: seq<Row>, last: Row, w: nat)
    requires AllFit(rows, w) && Fits(last, w) && Anchored(rows, last)
    ensures var u := [RETURN, NEWLINE] + Laid(rows, last); Margin(Lines(u), |u|) == w
  {
    var s := Laid(rows, last);
    var u := [RETURN, NEWLINE] + s;
    RowsIndented(rows, last, w);
    LinesFirst([RETURN], s);
    assert [RETURN] + [NEWLINE] == [RETURN, NEWLINE] && [RETURN] + [NEWLINE] + s == u;
    NotSolid();
    MarginLargest(Lines(u), |u|);
    hide Lines, Margin, Laid, HasSolid, Indent, AllFit, Fits, Anchored;
    IndentedCons([RETURN, NEWLINE], Lines(s), w);
    var l :| l in Lines(u) && HasSolid(l) && Indent(l) == w;
  }

  lemma {:induction false} NotSolid()
    ensures !HasSolid([RETURN, NEWLINE])
  {
  }

  /** Of rows below an empty line that ends in CR LF just that line goes, as it should, if and only if the margin is
    * less than two or the rows do not begin with another empty line; else that goes as well.
    */
  lemma {:induction false} EmptyLineGoes(rows: seq<Row>, last: Row, w: nat)
    requires AllFit(rows, w) && Fits(last, w) && Anchored(rows, last)
    ensures var plain, u := Plain(rows, last, w), [RETURN, NEWLINE] + Laid(rows, last);
            && (Dedent(u) == plain <==> w < 2 || !([NEWLINE] <= plain))
            && (w >= 2 && [NEWLINE] <= plain ==> plain == [NEWLINE] + Dedent(u))
  {
    ReturnMargin(rows, last, w);
    RowsTrimmed(rows, last, w);
    PlainClean(rows, last, w);
    EmptyFirstLineReturn(Laid(rows, last));
    hide Dedent, Plain, Lines, Margin, AllFit, Fits, Anchored, TrimLines, Laid;
  }
}
