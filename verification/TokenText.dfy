/** The lexer's token text: a buffer that grows by doubling, UTF-8 encoding into it, and the
  * removal of common indentation from a triple-quoted string, in place.
  */
module TokenText {
  import opened Wrappers

  type byte = b: int | 0 <= b < 0x100

  const TAB: byte := 9
  const NEWLINE: byte := 10
  const RETURN: byte := 13
  const SPACE: byte := 32

  type codepoint = v: int | 0 <= v <= 0x10FFFF

  // ------------------------------------------------------------------ UTF-8

  /** The encoding of section 3 of RFC 3629; surrogates are encoded like any other value. */
  function Encode(v: codepoint): (bytes: seq<byte>)
    ensures 1 <= |bytes| <= 4
  {
    if v <= 0x7F then [v]
    else if v <= 0x7FF then [0xC0 + v / 0x40, 0x80 + v % 0x40]
    else if v <= 0xFFFF then [0xE0 + v / 0x1000, 0x80 + v / 0x40 % 0x40, 0x80 + v % 0x40]
    else [0xF0 + v / 0x40000, 0x80 + v / 0x1000 % 0x40, 0x80 + v / 0x40 % 0x40, 0x80 + v % 0x40]
  }

  function EncodeAll(vs: seq<codepoint>): seq<byte> {
    if vs == [] then [] else Encode(vs[0]) + EncodeAll(vs[1..])
  }

  lemma {:induction false} EncodeSizes(v: codepoint)
    ensures v <= 0x7F ==> Encode(v) == [v]
    ensures 0x7F < v <= 0x7FF ==> Encode(v) == [0xC0 + v / 0x40, 0x80 + v % 0x40]
    ensures 0x7FF < v <= 0xFFFF ==> Encode(v) == [0xE0 + v / 0x1000, 0x80 + v / 0x40 % 0x40, 0x80 + v % 0x40]
    ensures 0xFFFF < v ==>
              Encode(v) == [0xF0 + v / 0x40000, 0x80 + v / 0x1000 % 0x40, 0x80 + v / 0x40 % 0x40, 0x80 + v % 0x40]
  {
  }

  /** The first byte tells the length, and together with the others, which all begin with the bits 10, makes up the code
    * point; a longer sequence is used only for one that needs it.
    */
  lemma {:induction false} EncodeOctets(v: codepoint)
    ensures var bs := Encode(v);
            && (v < 0x80 ==> bs == [v])
            && (0x80 <= v < 0x800 ==> |bs| == 2 && 0xC0 <= bs[0] < 0xE0 && v == (bs[0] - 0xC0) * 0x40 + Low6(bs[1]))
            && (0x800 <= v < 0x1_0000 ==>
                  |bs| == 3 && 0xE0 <= bs[0] < 0xF0 && v == (bs[0] - 0xE0) * 0x1000 + Low6(bs[1]) * 0x40 + Low6(bs[2]))
            && (v >= 0x1_0000 ==>
                  && |bs| == 4 && 0xF0 <= bs[0] < 0xF5
                  && v == (bs[0] - 0xF0) * 0x4_0000 + Low6(bs[1]) * 0x1000 + Low6(bs[2]) * 0x40 + Low6(bs[3]))
            && (forall i :: 0 < i < |bs| ==> 0x80 <= bs[i] < 0xC0)
  {
    Digits(v);
  }

  /** The six low bits of a byte that continues a sequence. */
  function Low6(b: byte): int {
    b - 0x80
  }

  /** How many bytes the sequence with this first byte has; nothing for a byte that cannot come first. */
  function SequenceLength(first: byte): nat {
    if first < 0x80 then 1
    else if first < 0xC0 then 0
    else if first < 0xE0 then 2
    else if first < 0xF0 then 3
    else if first < 0xF8 then 4
    else 0
  }

  predicate Continues(b: byte) {
    0x80 <= b < 0xC0
  }

  /** The number with the given six-bit digits. */
  function Value(a: nat, b: nat, c: nat, d: nat): nat {
    a * 0x40000 + b * 0x1000 + c * 0x40 + d
  }

  lemma {:induction false} Digits(v: nat)
    ensures Value(v / 0x40000, v / 0x1000 % 0x40, v / 0x40 % 0x40, v % 0x40) == v
    ensures v < 0x40000 ==> v / 0x40000 == 0 && v / 0x1000 % 0x40 == v / 0x1000
    ensures v < 0x1000 ==> v / 0x1000 == 0 && v / 0x40 % 0x40 == v / 0x40
  {
    var a, b := v / 0x40, v / 0x1000;
    assert v == a * 0x40 + v % 0x40;
    assert a == b * 0x40 + a % 0x40;
    assert b == v / 0x40000 * 0x40 + b % 0x40;
  }

  lemma {:induction false} DigitsUnique(a: nat, b: nat, c: nat, d: nat)
    requires b < 0x40 && c < 0x40 && d < 0x40
    ensures var v := Value(a, b, c, d);
            v / 0x40000 == a && v / 0x1000 % 0x40 == b && v / 0x40 % 0x40 == c && v % 0x40 == d
    ensures a == 0 ==> Value(a, b, c, d) / 0x1000 == b
    ensures a == 0 && b == 0 ==> Value(a, b, c, d) / 0x40 == c
  {
    var v := Value(a, b, c, d);
    assert v / 0x40 == a * 0x1000 + b * 0x40 + c;
    assert v / 0x1000 == a * 0x40 + b;
  }

  /** Reads one code point off the front of a byte string, in the shortest form only. */
  function DecodeOne(bytes: seq<byte>): Option<(codepoint, nat)> {
    if bytes == [] then None else
      var n := SequenceLength(bytes[0]);
      if n == 0 || |bytes| < n || !(forall i :: 1 <= i < n ==> Continues(bytes[i])) then None
      else if n == 1 then Some((bytes[0], 1))
      else if n == 2 then
        var v := Value(0, 0, bytes[0] - 0xC0, bytes[1] - 0x80);
        if v < 0x80 then None else Some((v, 2))
      else if n == 3 then
        var v := Value(0, bytes[0] - 0xE0, bytes[1] - 0x80, bytes[2] - 0x80);
        if v < 0x800 then None else Some((v, 3))
      else
        var v := Value(bytes[0] - 0xF0, bytes[1] - 0x80, bytes[2] - 0x80, bytes[3] - 0x80);
        if v < 0x10000 || v > 0x10FFFF then None else Some((v, 4))
  }

  function DecodeAll(bytes: seq<byte>): Option<seq<codepoint>>
    decreases |bytes|
  {
    if bytes == [] then Some([]) else
      match DecodeOne(bytes)
      case None => None
      case Some((v, n)) =>
        match DecodeAll(bytes[n..])
        case None => None
        case Some(vs) => Some([v] + vs)
  }

  lemma {:induction false} DecodeFirst(v: codepoint, rest: seq<byte>)
    ensures DecodeOne(Encode(v) + rest) == Some((v, |Encode(v)|))
  {
    Digits(v);
    var e := Encode(v);
    assert forall i :: 0 <= i < |e| ==> (e + rest)[i] == e[i];
    hide Value;
    assert SequenceLength(e[0]) == |e|;
  }

  /** Decoding gives back what was encoded. */
  lemma {:induction false} DecodeEncoded(vs: seq<codepoint>)
    ensures DecodeAll(EncodeAll(vs)) == Some(vs)
  {
    if vs != [] {
      var head, tail := Encode(vs[0]), EncodeAll(vs[1..]);
      DecodeFirst(vs[0], tail);
      assert (head + tail)[|head|..] == tail && head + tail != [];
      DecodeEncoded(vs[1..]);
      assert [vs[0]] + vs[1..] == vs;
    }
  }

  /** Whatever decodes is an encoding of what it decodes to: there is no second way to write a text. */
  lemma {:induction false} EncodeDecoded(bytes: seq<byte>)
    requires DecodeAll(bytes).Some?
    ensures EncodeAll(DecodeAll(bytes).value) == bytes
    decreases |bytes|
  {
    hide DecodeOne, Encode;
    if bytes != [] {
      var (v, n) := DecodeOne(bytes).value;
      EncodeFirst(bytes);
      EncodeDecoded(bytes[n..]);
      var vs := DecodeAll(bytes[n..]).value;
      assert ([v] + vs)[1..] == vs;
      assert bytes[..n] + bytes[n..] == bytes;
    }
  }

  lemma {:induction false} EncodeFirst(bytes: seq<byte>)
    requires DecodeOne(bytes).Some?
    ensures var (v, n) := DecodeOne(bytes).value; 0 < n <= |bytes| && Encode(v) == bytes[..n]
  {
    var n := SequenceLength(bytes[0]);
    if n == 2 {
      DigitsUnique(0, 0, bytes[0] - 0xC0, bytes[1] - 0x80);
    } else if n == 3 {
      DigitsUnique(0, bytes[0] - 0xE0, bytes[1] - 0x80, bytes[2] - 0x80);
    } else if n == 4 {
      DigitsUnique(bytes[0] - 0xF0, bytes[1] - 0x80, bytes[2] - 0x80, bytes[3] - 0x80);
    }
  }

  /** Adding bytes one at a time adds them all. */
  lemma {:induction false} OneByOne(s: seq<byte>, bytes: seq<byte>)
    ensures |bytes| == 2 ==> s + [bytes[0]] + [bytes[1]] == s + bytes
    ensures |bytes| == 3 ==> s + [bytes[0]] + [bytes[1]] + [bytes[2]] == s + bytes
    ensures |bytes| == 4 ==> s + [bytes[0]] + [bytes[1]] + [bytes[2]] + [bytes[3]] == s + bytes
  {
  }

  lemma {:induction false} NothingEncoded()
    ensures EncodeAll([]) == []
  {
  }

  lemma {:induction false} EncodeAllAppend(vs: seq<codepoint>, v: codepoint)
    ensures EncodeAll(vs + [v]) == EncodeAll(vs) + Encode(v)
  {
    if vs == [] {
      assert [v][1..] == [];
    } else {
      EncodeAllAppend(vs[1..], v);
      assert (vs + [v])[1..] == vs[1..] + [v];
    }
  }

  // -------------------------------------------------------------- indentation

  predicate Blank(b: byte) {
    b == SPACE || b == TAB
  }

  /** A byte that ends a line's indentation and makes the line count. */
  predicate Solid(b: byte) {
    !Blank(b) && b != RETURN && b != NEWLINE
  }

  /** The length of the first line, with its newline. */
  function LineLength(s: seq<byte>): (n: nat)
    requires s != []
    ensures 0 < n <= |s|
    ensures forall i :: 0 <= i < n - 1 ==> s[i] != NEWLINE
    ensures n < |s| ==> s[n - 1] == NEWLINE
  {
    if s[0] == NEWLINE || |s| == 1 then 1 else 1 + LineLength(s[1..])
  }

  function Lines(s: seq<byte>): seq<seq<byte>>
    decreases |s|
  {
    if s == [] then [] else [s[..LineLength(s)]] + Lines(s[LineLength(s)..])
  }

  predicate HasSolid(l: seq<byte>) {
    exists i :: 0 <= i < |l| && Solid(l[i])
  }

  /** The number of blanks before the first solid byte of a line. */
  function Indent(l: seq<byte>): nat {
    if l == [] || Solid(l[0]) then 0 else (if Blank(l[0]) then 1 else 0) + Indent(l[1..])
  }

  function Min(a: nat, b: nat): nat {
    if a < b then a else b
  }

  /** The smallest indentation among the lines that have a solid byte, at most `cap`. */
  function Margin(ls: seq<seq<byte>>, cap: nat): nat {
    if ls == [] then cap else Margin(ls[1..], if HasSolid(ls[0]) then Min(cap, Indent(ls[0])) else cap)
  }

  /** The margin is the largest number that no counting line is indented by less than. */
  lemma {:induction false} MarginLargest(ls: seq<seq<byte>>, cap: nat)
    ensures Margin(ls, cap) <= cap
    ensures forall l :: l in ls && HasSolid(l) ==> Margin(ls, cap) <= Indent(l)
    ensures Margin(ls, cap) == cap || exists l :: l in ls && HasSolid(l) && Indent(l) == Margin(ls, cap)
  {
    if ls != [] {
      MarginLargest(ls[1..], if HasSolid(ls[0]) then Min(cap, Indent(ls[0])) else cap);
      assert forall l :: l in ls <==> l == ls[0] || l in ls[1..];
    }
  }

  /** A line without its margin. A bare newline stays; a line no longer than the margin goes altogether. */
  function TrimLine(l: seq<byte>, ws: nat): seq<byte> {
    if l == [NEWLINE] then l else l[Min(|l|, ws)..]
  }

  function TrimLines(ls: seq<seq<byte>>, ws: nat): seq<byte> {
    if ls == [] then [] else TrimLine(ls[0], ws) + TrimLines(ls[1..], ws)
  }

  function DropNewline(s: seq<byte>): seq<byte> {
    if |s| >= 2 && s[0] == RETURN && s[1] == NEWLINE then s[2..]
    else if |s| >= 1 && s[0] == NEWLINE then s[1..]
    else s
  }

  /** What normalising makes of a string: unindented lines, and no empty first line. */
  function Dedent(s: seq<byte>): seq<byte> {
    if NEWLINE !in s then s else DropNewline(TrimLines(Lines(s), Margin(Lines(s), |s|)))
  }

  /** The string begins with CR LF, and everything in it is trimmed away: then the test for a leading
    * newline reads bytes that are no longer part of the text.
    */
  predicate LeftoverNewline(s: seq<byte>) {
    |s| >= 2 && s[0] == RETURN && s[1] == NEWLINE && TrimLines(Lines(s), Margin(Lines(s), |s|)) == []
  }

  // ------------------------------------------------------- the margin scan

  /** The one-pass scan for the margin: blanks counted so far on this line, and whether still in them. */
  ghost function Scan(s: seq<byte>, ws: nat, count: nat, leading: bool): nat {
    if s == [] then ws else
      var c := s[0];
      var ws' := if leading && Solid(c) && count < ws then count else ws;
      var count' := if leading && Blank(c) then count + 1 else count;
      if c == NEWLINE then Scan(s[1..], ws', 0, true) else Scan(s[1..], ws', count', leading && !Solid(c))
  }

  /** Scanning byte by byte finds the smallest indentation of the lines. */
  lemma {:induction false} ScanLine(s: seq<byte>, ws: nat, count: nat, leading: bool)
    requires s != []
    ensures var l, rest := s[..LineLength(s)], s[LineLength(s)..];
            Scan(s, ws, count, leading) ==
            Margin(Lines(rest), if leading && HasSolid(l) then Min(ws, count + Indent(l)) else ws)
    decreases |s|, 0
  {
    hide HasSolid, Indent, Lines, Margin, LineLength;
    var c := s[0];
    var ws' := if leading && Solid(c) && count < ws then count else ws;
    LineHead(s);
    if c == NEWLINE || |s| == 1 {
      ScanLines(s[1..], ws');
    } else {
      ScanLine(s[1..], ws', if leading && Blank(c) then count + 1 else count, leading && !Solid(c));
    }
  }

  /** The first byte of a line, and the line after it. */
  lemma {:induction false} LineHead(s: seq<byte>)
    requires s != []
    ensures var c, l, rest := s[0], s[..LineLength(s)], s[LineLength(s)..];
            if c == NEWLINE || |s| == 1 then
              rest == s[1..] && (HasSolid(l) <==> Solid(c)) && Indent(l) == (if Blank(c) then 1 else 0)
            else
              var l' := s[1..][..LineLength(s[1..])];
              rest == s[1..][LineLength(s[1..])..] && (HasSolid(l) <==> Solid(c) || HasSolid(l')) &&
              Indent(l) == (if Solid(c) then 0 else (if Blank(c) then 1 else 0) + Indent(l'))
  {
    var c, l := s[0], s[..LineLength(s)];
    assert l[0] == c;
    if c == NEWLINE || |s| == 1 {
      assert l == [c] && l[1..] == [];
      assert HasSolid(l) ==> Solid(l[0]);
    } else {
      var l' := s[1..][..LineLength(s[1..])];
      assert l[1..] == l';
      if HasSolid(l') {
        var i :| 0 <= i < |l'| && Solid(l'[i]);
        assert Solid(l[i + 1]);
      }
      if HasSolid(l) && !Solid(c) {
        var i :| 0 <= i < |l| && Solid(l[i]);
        assert Solid(l'[i - 1]);
      }
    }
  }

  lemma {:induction false} ScanLines(s: seq<byte>, ws: nat)
    ensures Scan(s, ws, 0, true) == Margin(Lines(s), ws)
    decreases |s|, 1
  {
    if s != [] {
      hide HasSolid, Indent, Lines, Margin, LineLength;
      ScanLine(s, ws, 0, true);
      LinesCons(s, ws);
    }
  }

  lemma {:induction false} LinesCons(s: seq<byte>, ws: nat)
    requires s != []
    ensures var l, ls := s[..LineLength(s)], Lines(s[LineLength(s)..]);
            Lines(s) == [l] + ls && Margin(Lines(s), ws) == Margin(ls, if HasSolid(l) then Min(ws, Indent(l)) else ws)
  {
    hide HasSolid, Indent;
    var l, ls := s[..LineLength(s)], Lines(s[LineLength(s)..]);
    assert ([l] + ls)[0] == l && ([l] + ls)[1..] == ls;
  }

  // ------------------------------------------- what is left after trimming

  lemma {:induction false} IndentBeforeSolid(l: seq<byte>)
    requires HasSolid(l)
    ensures exists i :: Indent(l) <= i < |l| && Solid(l[i])
  {
    if Solid(l[0]) {
      assert Indent(l) <= 0 < |l|;
    } else {
      var i :| 0 <= i < |l| && Solid(l[i]);
      assert Solid(l[1..][i - 1]);
      IndentBeforeSolid(l[1..]);
      var j :| Indent(l[1..]) <= j < |l[1..]| && Solid(l[1..][j]);
      assert Solid(l[j + 1]);
    }
  }

  /** Trimming a margin leaves the solid bytes. */
  lemma {:induction false} SolidStays(ls: seq<seq<byte>>, ws: nat, l: seq<byte>)
    requires l in ls && HasSolid(l) && ws <= Indent(l)
    ensures HasSolid(TrimLines(ls, ws))
  {
    var t, rest := TrimLine(ls[0], ws), TrimLines(ls[1..], ws);
    if ls[0] == l {
      IndentBeforeSolid(l);
      var i :| Indent(l) <= i < |l| && Solid(l[i]);
      assert l != [NEWLINE] && t == l[ws..];
      assert t[i - ws] == l[i] && (t + rest)[i - ws] == t[i - ws];
    } else {
      SolidStays(ls[1..], ws, l);
      var i :| 0 <= i < |rest| && Solid(rest[i]);
      assert (t + rest)[|t| + i] == rest[i];
    }
  }

  /** Trimming more than the lines are long leaves bare newlines only. */
  lemma {:induction false} NewlinesStay(ls: seq<seq<byte>>, ws: nat)
    requires forall l :: l in ls ==> |l| <= ws
    ensures forall b :: b in TrimLines(ls, ws) ==> b == NEWLINE
  {
    if ls != [] {
      NewlinesStay(ls[1..], ws);
    }
  }

  lemma {:induction false} LineSizes(s: seq<byte>)
    ensures forall l :: l in Lines(s) ==> |l| <= |s|
    decreases |s|
  {
    if s != [] {
      LineSizes(s[LineLength(s)..]);
    }
  }

  /** How what is left of a multi-line string begins. */
  lemma {:induction false} StartOf(s: seq<byte>, ws: nat)
    requires NEWLINE in s && ws == Margin(Lines(s), |s|)
    ensures var t := TrimLines(Lines(s), ws);
            && (s[0] == NEWLINE ==> t != [] && t[0] == NEWLINE)
            && (|t| == 1 ==> t[0] != RETURN)
  {
    var ls := Lines(s);
    MarginLargest(ls, |s|);
    if s[0] == NEWLINE {
      assert ls[0] == [NEWLINE];
    }
    if l :| l in ls && HasSolid(l) {
      SolidStays(ls, ws, l);
    } else {
      LineSizes(s);
      NewlinesStay(ls, ws);
      var t := TrimLines(ls, ws);
      assert |t| == 1 ==> t[0] in t;
    }
  }

  // ------------------------------------------- what normalising promises

  /** A line that counts, free of carriage returns, loses nothing but blanks, as many as the margin says. */
  lemma {:induction false} OnlyBlanksTrimmed(l: seq<byte>, ws: nat)
    requires HasSolid(l) && RETURN !in l && NEWLINE !in l[..|l| - 1] && ws <= Indent(l)
    ensures ws < |l| && TrimLine(l, ws) == l[ws..] && forall i :: 0 <= i < ws ==> Blank(l[i])
    ensures Indent(l) < |l| && Solid(l[Indent(l)])
  {
    var i :| 0 <= i < |l| && Solid(l[i]);
    if !Solid(l[0]) {
      assert l[0] in l && Blank(l[0]) by { assert l[0] in l[..|l| - 1]; }
      assert Solid(l[1..][i - 1]);
      assert l[1..][..|l| - 2] == l[..|l| - 1][1..];
      OnlyBlanksTrimmed(l[1..], if ws == 0 then 0 else ws - 1);
      assert forall j :: 1 <= j < ws ==> l[j] == l[1..][j - 1];
    }
  }

  /** A blank line no longer than the margin is removed together with its newline. */
  lemma {:induction false} ShortBlankLineVanishes(before: seq<seq<byte>>, l: seq<byte>, after: seq<seq<byte>>, ws: nat)
    requires l != [NEWLINE] && |l| <= ws
    ensures TrimLines(before + [l] + after, ws) == TrimLines(before + after, ws)
  {
    Associative(before, [l], after);
    if before == [] {
      assert TrimLine(l, ws) == [];
      TrimFirst([l], after, ws);
      NoneBefore([l] + after);
      NoneBefore(after);
    } else {
      hide TrimLines, TrimLine;
      ShortBlankLineVanishes(before[1..], l, after, ws);
      Associative(before[1..], [l], after);
      TrimFirst(before, [l] + after, ws);
      TrimFirst(before, after, ws);
    }
  }

  lemma {:induction false} Associative<T>(a: seq<T>, b: seq<T>, c: seq<T>)
    ensures (a + b) + c == a + (b + c)
  {
  }

  lemma {:induction false} NoneBefore<T>(s: seq<T>)
    ensures [] + s == s
  {
  }

  lemma {:induction false} TrimFirst(ls: seq<seq<byte>>, more: seq<seq<byte>>, ws: nat)
    requires ls != []
    ensures TrimLines(ls + more, ws) == TrimLine(ls[0], ws) + TrimLines(ls[1..] + more, ws)
  {
    hide TrimLine;
    assert (ls + more)[1..] == ls[1..] + more;
  }

  /** Normalising reads past the text exactly when the text begins with CR LF and has neither a solid byte nor
    * a bare newline; so never when it has no carriage return.
    */
  lemma {:induction false} LeftoverNewlineExactly(s: seq<byte>)
    ensures LeftoverNewline(s) <==>
              && |s| >= 2 && s[0] == RETURN && s[1] == NEWLINE
              && (forall l :: l in Lines(s) ==> !HasSolid(l))
              && [NEWLINE] !in Lines(s)
    ensures RETURN !in s ==> !LeftoverNewline(s)
  {
    var ls := Lines(s);
    var ws := Margin(ls, |s|);
    MarginLargest(ls, |s|);
    LineSizes(s);
    if l :| l in ls && HasSolid(l) {
      SolidStays(ls, ws, l);
    } else {
      NewlinesStay(ls, ws);
      BareNewlines(ls, ws);
    }
  }

  lemma {:induction false} NotMultiline(s: seq<byte>)
    requires NEWLINE !in s
    ensures !LeftoverNewline(s)
  {
  }

  /** A text of just CR LF is trimmed to nothing, and the two bytes are then taken for a leading newline. */
  lemma {:induction false} LoneNewlineIsLeftOver()
    ensures LeftoverNewline([RETURN, NEWLINE])
    ensures TrimLines(Lines([RETURN, NEWLINE]), Margin(Lines([RETURN, NEWLINE]), 2)) == []
  {
    var s := [RETURN, NEWLINE];
    assert LineLength(s) == 2 && s[..2] == s && s[2..] == [];
    assert Lines(s) == [s];
    LeftoverNewlineExactly(s);
  }

  lemma {:induction false} BareNewlines(ls: seq<seq<byte>>, ws: nat)
    requires forall l :: l in ls ==> |l| <= ws
    ensures TrimLines(ls, ws) == [] <==> forall l :: l in ls ==> l != [NEWLINE]
  {
    if ls != [] {
      InHeadOrTail(ls);
      BareNewlines(ls[1..], ws);
      assert TrimLines(ls, ws) == TrimLine(ls[0], ws) + TrimLines(ls[1..], ws);
      assert TrimLine(ls[0], ws) == [] <==> ls[0] != [NEWLINE];
      hide TrimLine, TrimLines;
    }
  }

  lemma {:induction false} InHeadOrTail(ls: seq<seq<byte>>)
    requires ls != []
    ensures forall l :: l in ls <==> l == ls[0] || l in ls[1..]
  {
    assert ls == [ls[0]] + ls[1..];
  }

  // ------------------------------------------------------------ the buffer

  class Text {
    var buffer: array<byte>
    var buflen: nat

    /** A buffer is allocated with room for 64 bytes or more, or not at all. */
    ghost predicate Valid()
      reads this
    {
      buflen <= buffer.Length && (buffer.Length == 0 || buffer.Length >= 64)
    }

    ghost function Contents(): (s: seq<byte>)
      reads this, buffer
      requires Valid()
    {
      buffer[..buflen]
    }

    constructor ()
      ensures Valid() && fresh(buffer) && Contents() == []
    {
      buffer := new byte[0];
      buflen := 0;
    }

    /** Appends a byte, moving the text to a buffer of twice the size when this one is full. */
    method Append(c: byte)
      requires Valid()
      modifies this, buffer
      ensures Valid() && Contents() == old(Contents()) + [c]
      ensures buffer == old(buffer) || fresh(buffer)
    {
      if buflen >= buffer.Length {
        var newLen := if buffer.Length > 0 then 2 * buffer.Length else 64;
        var newBuf := new byte[newLen];
        CopyInto(newBuf, buffer, buffer.Length);
        buffer := newBuf;
      }
      buffer[buflen] := c;
      buflen := buflen + 1;
    }

    /** Appends a code point, encoded. */
    method AppendUtf8(v: codepoint)
      requires Valid()
      modifies this, buffer
      ensures Valid() && Contents() == old(Contents()) + Encode(v)
      ensures buffer == old(buffer) || fresh(buffer)
    {
      hide Encode, Contents, Valid;
      EncodeSizes(v);
      ghost var before := Contents();
      if v <= 0x7F {
        Append(v);
      } else if v <= 0x7FF {
        var b0: byte, b1: byte := 0xC0 + v / 0x40, 0x80 + v % 0x40;
        Append(b0);
        Append(b1);
        OneByOne(before, [b0, b1]);
      } else if v <= 0xFFFF {
        var b0: byte, b1: byte, b2: byte := 0xE0 + v / 0x1000, 0x80 + v / 0x40 % 0x40, 0x80 + v % 0x40;
        Append(b0);
        Append(b1);
        Append(b2);
        OneByOne(before, [b0, b1, b2]);
      } else {
        var b0: byte, b1: byte, b2: byte, b3: byte :=
          0xF0 + v / 0x40000, 0x80 + v / 0x1000 % 0x40, 0x80 + v / 0x40 % 0x40, 0x80 + v % 0x40;
        Append(b0);
        Append(b1);
        Append(b2);
        Append(b3);
        OneByOne(before, [b0, b1, b2, b3]);
      }
    }

    /** Adds code points one after the other. */
    method AppendAll(vs: seq<codepoint>)
      requires Valid()
      modifies this, buffer
      ensures Valid() && Contents() == old(Contents()) + EncodeAll(vs)
      ensures old(Contents()) == [] ==> DecodeAll(Contents()) == Some(vs)
      ensures buffer == old(buffer) || fresh(buffer)
    {
      hide Encode, EncodeAll, DecodeAll;
      NothingEncoded();
      for i := 0 to |vs|
        invariant Valid() && Contents() == old(Contents()) + EncodeAll(vs[..i])
        invariant buffer == old(buffer) || fresh(buffer)
      {
        assert vs[..i + 1] == vs[..i] + [vs[i]];
        EncodeAllAppend(vs[..i], vs[i]);
        AppendUtf8(vs[i]);
      }
      assert vs[..|vs|] == vs;
      DecodeEncoded(vs);
      assert [] + EncodeAll(vs) == EncodeAll(vs);
    }

    /** Removes the common indentation of the lines, in place. In the case in which the source goes on to read bytes
      * it has trimmed away, and lets the length wrap around, this stops before that and says so.
      */
    method Normalise() returns (defined: bool)
      requires Valid()
      modifies this`buflen, buffer
      ensures Valid() && (defined <==> !LeftoverNewline(old(Contents())))
      ensures Contents() == if defined then Dedent(old(Contents())) else []
    {
      if buflen == 0 {
        return true;
      }
      ghost var s := Contents();
      var multiline := Contains(buffer, buflen, NEWLINE);
      if !multiline {
        NotMultiline(s);
        return true;
      }
      var ws := FindMargin();
      if ws > 0 {
        Compact(ws);
      } else {
        LinesJoin(s);
      }
      defined := DropFirstLine(s, ws);
    }

    /** Drops an empty first line of what has become of a text, unless it is read from beyond the end. */
    method DropFirstLine(ghost s: seq<byte>, ghost ws: nat) returns (defined: bool)
      requires Valid() && NEWLINE in s && ws == Margin(Lines(s), |s|) && Contents() == TrimLines(Lines(s), ws)
      requires buflen <= |s| <= buffer.Length && forall i :: buflen <= i < |s| ==> buffer[i] == s[i]
      modifies this`buflen, buffer
      ensures Valid() && (defined <==> !LeftoverNewline(s)) && Contents() == if defined then Dedent(s) else []
    {
      StartOf(s, ws);
      hide Lines, Margin, TrimLines;
      ghost var t := Contents();
      assert forall i :: 0 <= i < |t| ==> buffer[i] == t[i];
      assert forall i :: |t| <= i < |s| ==> buffer[i] == s[i];
      if buflen < 2 && buffer[0] == RETURN && buffer[1] == NEWLINE {
        return false;
      }
      DropLeadingNewline();
      defined := true;
    }

    /** Drops a newline the text begins with. Both bytes are read whether the text still has them or not. */
    method DropLeadingNewline()
      requires Valid() && buffer.Length >= 2
      requires buffer[0] == RETURN && buffer[1] == NEWLINE ==> buflen >= 2
      requires buffer[0] == NEWLINE ==> buflen >= 1
      modifies this`buflen, buffer
      ensures Valid() && Contents() == DropNewline(old(Contents()))
    {
      ghost var t := Contents();
      assert forall i :: 0 <= i < |t| ==> t[i] == buffer[i];
      if buffer[0] == RETURN && buffer[1] == NEWLINE {
        assert DropNewline(t) == t[2..] == buffer[2..buflen];
        hide DropNewline;
        buflen := buflen - 2;
        MoveDown(buffer, 0, 2, buflen);
      } else if buffer[0] == NEWLINE {
        assert DropNewline(t) == t[1..] == buffer[1..buflen];
        hide DropNewline;
        buflen := buflen - 1;
        MoveDown(buffer, 0, 1, buflen);
      }
    }

    method FindMargin() returns (ws: nat)
      requires Valid()
      ensures ws == Margin(Lines(Contents()), buflen)
    {
      ws := buflen;
      var count := 0;
      var leading := true;
      var i := 0;
      while i < buflen
        invariant i <= buflen
        invariant Scan(Contents()[i..], ws, count, leading) == Scan(Contents(), buflen, 0, true)
      {
        var c := buffer[i];
        assert Contents()[i..][0] == c && Contents()[i..][1..] == Contents()[i + 1..];
        if leading {
          if c == SPACE || c == TAB {
            count := count + 1;
          } else if c != RETURN && c != NEWLINE {
            if count < ws {
              ws := count;
            }
            leading := false;
          }
        }
        if c == NEWLINE {
          count := 0;
          leading := true;
        }
        i := i + 1;
      }
      ScanLines(Contents(), buflen);
    }

    /** Moves every line down over what has been trimmed before it. What is written never
      * overtakes what is still to be read, and the bytes after the new end are left as they were.
      */
    method Compact(ws: nat)
      requires Valid()
      modifies this`buflen, buffer
      ensures Valid() && Contents() == TrimLines(Lines(old(Contents())), ws)
      ensures buflen <= old(buflen) && forall i :: buflen <= i < buffer.Length ==> buffer[i] == old(buffer[i])
    {
      hide Lines, TrimLines, TrimLine, Margin, LineLength;
      NoLines(ws);
      ghost var s, all := Contents(), buffer[..];
      assert s == all[..buflen] && s[0..] == s && [] + TrimLines(Lines(s), ws) == TrimLines(Lines(s), ws);
      var start, compacted, rem := 0, 0, buflen;
      while rem > 0
        invariant buflen == old(buflen) && 0 <= rem && start + rem == buflen && 0 <= compacted <= start
        invariant forall i :: compacted <= i < buffer.Length ==> buffer[i] == all[i]
        invariant buffer[..compacted] + TrimLines(Lines(s[start..]), ws) == TrimLines(Lines(s), ws)
        decreases rem
      {
        var lineLen;
        lineLen, compacted := CompactLine(ws, start, rem, compacted, s, all);
        start := start + lineLen;
        rem := rem - lineLen;
      }
      assert s[start..] == [];
      assert buffer[..compacted] + [] == buffer[..compacted];
      buflen := compacted;
    }

    /** Finds the next line and moves what it keeps to the end of what is done. */
    method CompactLine(ws: nat, start: nat, rem: nat, compacted: nat, ghost s: seq<byte>, ghost all: seq<byte>)
      returns (lineLen: nat, end: nat)
      requires Valid() && start + rem == buflen && rem > 0 && compacted <= start
      requires |all| == buffer.Length && s == all[..buflen]
      requires forall i :: compacted <= i < buffer.Length ==> buffer[i] == all[i]
      modifies buffer
      ensures 0 < lineLen <= rem && compacted <= end <= start + lineLen
      ensures forall i :: end <= i < buffer.Length ==> buffer[i] == all[i]
      ensures buffer[..end] + TrimLines(Lines(s[start + lineLen..]), ws) ==
              old(buffer[..compacted]) + TrimLines(Lines(s[start..]), ws)
    {
      hide Lines, TrimLines, TrimLine, Margin, LineLength;
      ghost var rest, done := s[start..], buffer[..compacted];
      Untouched(buffer[..], all, buflen, start, 0);
      lineLen := FindLine(start, rem);
      Untouched(buffer[..], all, buflen, start, lineLen);
      NextLine(rest, ws, done);
      end := MoveLine(ws, start, lineLen, compacted);
    }

    /** Moves what a line keeps to the end of what is done. */
    method MoveLine(ws: nat, start: nat, lineLen: nat, compacted: nat) returns (end: nat)
      requires compacted <= start && 0 < lineLen && start + lineLen <= buffer.Length
      modifies buffer
      ensures compacted <= end <= start + lineLen
      ensures buffer[..end] == old(buffer[..compacted]) + TrimLine(old(buffer[start..start + lineLen]), ws)
      ensures forall i :: end <= i < buffer.Length ==> buffer[i] == old(buffer[i])
    {
      var bare := lineLen == 1 && buffer[start] == NEWLINE;
      var trim := if bare then 0 else if lineLen < ws then lineLen else ws;
      KeptOf(buffer[..], start, lineLen, ws);
      ghost var l := buffer[start..start + lineLen];
      assert l == buffer[..][start..start + lineLen];
      hide TrimLine;
      end := compacted + (lineLen - trim);
      assert buffer[..][start + trim..start + lineLen] == buffer[start + trim..start + lineLen];
      MoveDown(buffer, compacted, start + trim, lineLen - trim);
    }

    method FindLine(start: nat, rem: nat) returns (lineLen: nat)
      requires Valid() && start + rem == buflen && rem > 0
      ensures lineLen == LineLength(Contents()[start..]) && lineLen <= rem
    {
      lineLen := 1;
      ghost var s := Contents()[start..];
      while lineLen < rem && buffer[start + lineLen - 1] != NEWLINE
        invariant 1 <= lineLen <= rem
        invariant LineLength(s) == lineLen - 1 + LineLength(s[lineLen - 1..])
      {
        assert s[lineLen - 1..][1..] == s[lineLen..];
        lineLen := lineLen + 1;
      }
      assert s[lineLen - 1..][0] == buffer[start + lineLen - 1];
    }
  }

  /** What is still to be read of a buffer is as it was. */
  lemma {:induction false} Untouched(now: seq<byte>, was: seq<byte>, size: nat, start: nat, n: nat)
    requires start + n <= size <= |now| == |was| && forall i :: start <= i < |was| ==> now[i] == was[i]
    ensures now[..size][start..] == was[..size][start..] && (start < size ==> was[..size][start..] != [])
    ensures now[start..start + n] == was[..size][start..][..n] && was[..size][start..][n..] == was[..size][start + n..]
  {
  }

  lemma {:induction false} KeptOf(all: seq<byte>, start: nat, lineLen: nat, ws: nat)
    requires 0 < lineLen && start + lineLen <= |all|
    ensures var l := all[start..start + lineLen];
            var trim := if lineLen == 1 && all[start] == NEWLINE then 0 else if lineLen < ws then lineLen else ws;
            l[0] == all[start] && TrimLine(l, ws) == all[start + trim..start + lineLen]
  {
    var l := all[start..start + lineLen];
    assert l == [NEWLINE] <==> lineLen == 1 && l[0] == NEWLINE;
  }

  method Contains(a: array<byte>, n: nat, c: byte) returns (found: bool)
    requires n <= a.Length
    ensures found <==> c in a[..n]
  {
    for i := 0 to n
      invariant c !in a[..i]
    {
      if a[i] == c {
        return true;
      }
    }
    return false;
  }

  method CopyInto(dst: array<byte>, src: array<byte>, n: nat)
    requires n <= dst.Length && n <= src.Length && dst != src
    modifies dst
    ensures dst[..n] == src[..n]
  {
    for i := 0 to n
      invariant dst[..i] == src[..i]
    {
      dst[i] := src[i];
    }
  }

  /** Moves `n` bytes down from `src` to `dst`; the two stretches may overlap. */
  method MoveDown(a: array<byte>, dst: nat, src: nat, n: nat)
    requires dst <= src && src + n <= a.Length
    modifies a
    ensures a[..dst + n] == old(a[..dst]) + old(a[src..src + n])
    ensures forall i :: dst + n <= i < a.Length ==> a[i] == old(a[i])
  {
    for k := 0 to n
      invariant a[..dst + k] == old(a[..dst]) + old(a[src..src + k])
      invariant forall i :: dst + k <= i < a.Length ==> a[i] == old(a[i])
    {
      ghost var done := a[..dst + k];
      a[dst + k] := a[src + k];
      assert a[..dst + k + 1] == done + [old(a[src + k])];
      assert old(a[src..src + k + 1]) == old(a[src..src + k]) + [old(a[src + k])];
    }
  }

  lemma {:induction false} NoLines(ws: nat)
    ensures TrimLines(Lines([]), ws) == []
  {
  }

  lemma {:induction false} NextLine(rest: seq<byte>, ws: nat, done: seq<byte>)
    requires rest != []
    ensures var n := LineLength(rest);
            TrimLines(Lines(rest), ws) == TrimLine(rest[..n], ws) + TrimLines(Lines(rest[n..]), ws) &&
            done + TrimLines(Lines(rest), ws) == (done + TrimLine(rest[..n], ws)) + TrimLines(Lines(rest[n..]), ws)
  {
    var l, ls := rest[..LineLength(rest)], Lines(rest[LineLength(rest)..]);
    assert Lines(rest) == [l] + ls;
    hide Lines, LineLength;
    TrimFirst([l], ls, ws);
    assert [l][1..] + ls == ls;
    Associative(done, TrimLine(l, ws), TrimLines(ls, ws));
  }

  lemma {:induction false} LinesJoin(s: seq<byte>)
    ensures TrimLines(Lines(s), 0) == s
    decreases |s|
  {
    if s != [] {
      var n := LineLength(s);
      LinesJoin(s[n..]);
      NextLine(s, 0, []);
      assert TrimLine(s[..n], 0) == s[..n];
      hide Lines, TrimLines, TrimLine, LineLength;
      SplitJoin(s, n);
    }
  }

  lemma {:induction false} SplitJoin(s: seq<byte>, n: nat)
    requires n <= |s|
    ensures s[..n] + s[n..] == s
  {
  }
}
