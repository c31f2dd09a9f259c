/** The lexer's cursor over its source. */
module LexCursor {
  import opened TokenText
  import opened Wrappers

  /** The number of newlines in a text. */
  function Newlines(s: string): nat {
    if s == [] then 0 else Newlines(s[..|s| - 1]) + if s[|s| - 1] == '\n' then 1 else 0
  }

  /** The number of characters after the last newline of a text. */
  function Column(s: string): nat {
    if s == [] || s[|s| - 1] == '\n' then 0 else 1 + Column(s[..|s| - 1])
  }

  lemma {:induction false} NewlinesAdd(s: string, t: string)
    ensures Newlines(s + t) == Newlines(s) + Newlines(t)
  {
    if t == [] {
      assert s + t == s;
    } else {
      var n := |t| - 1;
      assert (s + t)[..|s| + n] == s + t[..n];
      NewlinesAdd(s, t[..n]);
    }
  }

  lemma {:induction false} OneCharacter(c: char)
    ensures Newlines([c]) == if c == '\n' then 1 else 0
  {
    assert [c][..0] == "";
  }

  lemma {:induction false} NoneToCount(s: string)
    requires '\n' !in s
    ensures Newlines(s) == 0
  {
    if s != [] {
      assert s[|s| - 1] in s;
      NoneToCount(s[..|s| - 1]);
    }
  }

  lemma {:induction false} ColumnAdd(s: string, t: string)
    requires Newlines(t) == 0
    ensures Column(s + t) == Column(s) + |t|
  {
    if t == [] {
      assert s + t == s;
    } else {
      var n := |t| - 1;
      assert (s + t)[..|s| + n] == s + t[..n];
      ColumnAdd(s, t[..n]);
    }
  }

  /** A newline adds one to the count of them, and the column is what follows the last one. */
  lemma {:induction false} LastLine(a: string, b: string)
    requires '\n' !in b
    ensures Column(a + "\n" + b) == |b| && Newlines(a + "\n" + b) == Newlines(a) + 1
    ensures Column(b) == |b| && Newlines(b) == 0
  {
    var s := a + "\n";
    assert s[..|s| - 1] == a;
    NoneToCount(b);
    NewlinesAdd(s, b);
    ColumnAdd(s, b);
    ColumnAdd("", b);
    assert "" + b == b;
  }

  /** The byte of a character. A source is made of bytes, so that its characters are those below 256. */
  function ByteOf(c: char): byte {
    c as int % 0x100
  }

  function BytesOf(s: string): seq<byte> {
    seq(|s|, i requires 0 <= i < |s| => ByteOf(s[i]))
  }

  function First(s: string): char {
    if s == [] then '\0' else s[0]
  }

  function After(s: string, n: nat): string {
    if n <= |s| then s[n..] else []
  }

  /** What a token is. The value of a real literal is left as its parts: its digits read as an integer, how many of them
    * come after the dot, and the exponent.
    */
  datatype Kind =
    | Eof
    | LexError
    | IntLiteral(value: nat)
    | RealLiteral(significand: nat, fraction: nat, exponent: nat, negative: bool)
    | StringLiteral(bytes: seq<byte>)
    | Identifier(text: seq<byte>)
    | Keyword(name: string)
    | Symbol(name: string, onNewline: bool)

  /** What comes of the next characters: a token, or a stretch without one, after which a symbol may be the first of its
    * line. Some of the newlines among the characters of a token may be missed.
    */
  datatype Outcome =
    | Reads(kind: Kind, length: nat, missed: nat)
    | Skips(length: nat, newline: bool)
    | Unended   // a comment that does not end: an error token, and the source is used up
    | Overruns  // more is consumed than there is, which an assertion forbids
    | Strays    // bytes are read that are no longer part of the token text

  /** A token and where it begins. */
  datatype Token = Token(kind: Kind, line: nat, pos: nat)

  class Lexer {
    const source: string
    const text: Text
    var ptr: nat
    var len: nat
    var line: nat
    var pos: nat
    var newline: bool
    /** How many newlines have been passed without being counted. */
    ghost var lost: nat
    /** Whether characters have been passed without being looked at. */
    ghost var skipped: bool

    /** The cursor stands within the source. Its line is short of just the newlines that have been lost, and if there
      * are none of those its column is right too. Only at the end of the source may it be elsewhere.
      */
    ghost predicate Valid()
      reads this
    {
      ptr + len == |source| && (skipped ==> len == 0) && (!skipped ==> Placed(source[..ptr]))
    }

    ghost predicate Placed(before: string)
      reads this
    {
      line + lost == 1 + Newlines(before) && (lost == 0 ==> pos == 1 + Column(before))
    }

    /** Line and column, counted from one, are those of the cursor. */
    ghost predicate Exact()
      reads this
      requires ptr <= |source|
    {
      line == 1 + Newlines(source[..ptr]) && pos == 1 + Column(source[..ptr])
    }

    /** While there are characters left, the position is exact if and only if no newline has been lost. */
    lemma {:induction false} ExactIffNoneLost()
      requires Valid() && len > 0
      ensures Exact() <==> lost == 0
    {
    }

    ghost function Rest(): string
      reads this
      requires ptr <= |source|
    {
      source[ptr..]
    }

    twostate predicate Moved(length: nat, missed: nat)
      reads this
    {
      ptr == old(ptr) + length && lost == old(lost) + missed && skipped == old(skipped)
    }

    /** The outcome has come about, with the token if there is one. */
    twostate predicate Did(new o: Outcome, new kind: Option<Kind>)
      reads this
    {
      match o
      case Reads(k, length, missed) => kind == Some(k) && Moved(length, missed) && newline == old(newline)
      case Skips(length, onNewline) => kind == None && Moved(length, 0) && newline == onNewline
      case Unended => kind == Some(LexError) && len == 0 && lost == old(lost)
      case _ => kind == None
    }

    constructor (source: string)
      ensures Valid() && text.Valid() && fresh(text) && fresh(text.buffer)
      ensures this.source == source && ptr == 0 && lost == 0 && newline && !skipped
    {
      this.source := source;
      text := new Text();
      ptr, len, line, pos, newline, lost, skipped := 0, |source|, 1, 1, true, 0, false;
    }

    predicate IsEof()
      reads this
    {
      len == 0
    }

    method Look() returns (c: char)
      requires Valid()
      ensures c == First(Rest())
    {
      c := if IsEof() then '\0' else source[ptr];
    }

    /** The character `chars` places on, counted from one. */
    method LookN(chars: nat) returns (c: char)
      requires Valid() && chars > 0
      ensures c == First(After(Rest(), chars - 1))
      ensures c == if |Rest()| < chars then '\0' else Rest()[chars - 1]
    {
      c := if len < chars then '\0' else source[ptr + chars - 1];
    }

    /** Consumes characters. Newlines after the first of them are not counted. */
    method ConsumeChars(count: nat)
      requires Valid() && count <= len
      modifies this`ptr, this`len, this`line, this`pos, this`lost
      ensures Valid() && Rest() == old(Rest())[count..]
      ensures Moved(count, if count == 0 then 0 else Newlines(old(Rest())[1..count]))
    {
      if count == 0 {
        return;
      }
      Advance(source, ptr, count);
      assert Rest()[1..count] == source[ptr + 1..ptr + count];
      lost := lost + Newlines(source[ptr + 1..ptr + count]);
      if source[ptr] == '\n' {
        line := line + 1;
        pos := 0;
      }
      ptr := ptr + count;
      len := len - count;
      pos := pos + count;
    }

    /** Consumes one character, which loses nothing. */
    method ConsumeOne()
      requires Valid() && len > 0
      modifies this`ptr, this`len, this`line, this`pos, this`lost
      ensures Valid() && Moved(1, 0) && Rest() == old(Rest())[1..]
    {
      assert Newlines(Rest()[1..1]) == 0;
      ConsumeChars(1);
    }

    /** Consumes two characters, which lose nothing if the second is no newline. */
    method ConsumeTwo()
      requires Valid() && len >= 2 && Rest()[1] != '\n'
      modifies this`ptr, this`len, this`line, this`pos, this`lost
      ensures Valid() && Moved(2, 0) && Rest() == old(Rest())[2..]
    {
      OneCharacter(Rest()[1]);
      assert Rest()[1..2] == [Rest()[1]];
      ConsumeChars(2);
    }

    /** Gives up on what does not end: everything that is left is passed over. */
    method SkipAll()
      requires Valid()
      modifies this`ptr, this`len, this`skipped
      ensures Valid() && len == 0 && ptr == |source| && skipped == (old(skipped) || old(len) > 0)
    {
      skipped := skipped || len > 0;
      ptr := ptr + len;
      len := 0;
    }
  }

  lemma {:induction false} Advance(s: string, i: nat, count: nat)
    requires 0 < count && i + count <= |s|
    ensures Newlines(s[..i + count]) ==
            Newlines(s[..i]) + (if s[i] == '\n' then 1 else 0) + Newlines(s[i + 1..i + count])
    ensures Newlines(s[i + 1..i + count]) == 0 ==>
              Column(s[..i + count]) == (if s[i] == '\n' then 0 else Column(s[..i]) + 1) + (count - 1)
  {
    var t, u := s[..i + 1], s[i + 1..i + count];
    assert s[..i + count] == t + u && t[..i] == s[..i];
    NewlinesAdd(t, u);
    if Newlines(u) == 0 {
      ColumnAdd(t, u);
    }
  }
}
