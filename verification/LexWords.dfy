/** The reading of comments, keywords, identifiers and symbols. */
module LexWords {
  import opened Wrappers
  import opened LexCursor
  import opened LexLiteral
  import opened LexNumber
  import opened TokenText

  // ------------------------------------------------------------ comments

  /** A block comment from somewhere within it, with so many openings not yet closed. */
  function CommentAt(s: string, depth: nat, length: nat): Outcome {
    if depth == 0 then Skips(length, false)
    else if |s| <= 1 then Unended
    else if s[0] == '*' && s[1] == '/' then CommentAt(s[2..], depth - 1, length + 2)
    else if s[0] == '/' && s[1] == '*' then CommentAt(s[2..], depth + 1, length + 2)
    else CommentAt(s[1..], depth, length + 1)
  }

  lemma {:induction false} CommentStep(s: string, depth: nat, length: nat)
    ensures CommentAt(s, depth, length) ==
            if depth == 0 then Skips(length, false)
            else if |s| <= 1 then Unended
            else if s[0] == '*' && s[1] == '/' then CommentAt(s[2..], depth - 1, length + 2)
            else if s[0] == '/' && s[1] == '*' then CommentAt(s[2..], depth + 1, length + 2)
            else CommentAt(s[1..], depth, length + 1)
  {
  }

  /** What stands in a comment: characters and comments. */
  datatype Body = End | Char(c: char, next: Body) | Comment(inner: Body, next: Body)

  function Written(b: Body): string {
    match b
    case End => ""
    case Char(c, next) => [c] + Written(next)
    case Comment(inner, next) => "/*" + Written(inner) + "*/" + Written(next)
  }

  /** The first character of a body and of what ends the comment. */
  function Leading(b: Body): char {
    match b
    case End => '*'
    case Char(c, _) => c
    case Comment(_, _) => '/'
  }

  /** Two characters that begin or end a comment. */
  predicate Marks(c: char, d: char) {
    (c == '/' && d == '*') || (c == '*' && d == '/')
  }

  /** No character that stands for itself begins or ends a comment together with the next. */
  predicate Proper(b: Body) {
    match b
    case End => true
    case Char(c, next) => !Marks(c, Leading(next)) && Proper(next)
    case Comment(inner, next) => Proper(inner) && Proper(next)
  }

  ghost predicate Holds(s: string, b: Body) {
    Proper(b) && Written(b) + "*/" <= s
  }

  /** A comment is passed over if and only if what follows its beginning is a body and the end, and then just those. */
  lemma {:induction false} CommentsNest(s: string)
    ensures CommentAt(s, 1, 2) == Unended || CommentAt(s, 1, 2).Skips?
    ensures CommentAt(s, 1, 2).Skips? <==> exists b :: Holds(s, b)
    ensures forall b :: Holds(s, b) ==> CommentAt(s, 1, 2) == Skips(|Written(b)| + 4, false)
  {
    hide CommentAt;
    CommentEnds(s, 1, 2);
    if CommentAt(s, 1, 2).Skips? {
      var b := BodyOf(s, 1, 2);
      assert Holds(s, b);
    }
    forall b | Holds(s, b)
      ensures CommentAt(s, 1, 2) == Skips(|Written(b)| + 4, false)
    {
      var rest := s[|Written(b)| + 2..];
      assert s == Written(b) + ("*/" + rest);
      Within(b, "*/" + rest, 1, 2);
      CommentStep("*/" + rest, 1, 2 + |Written(b)|);
      assert ("*/" + rest)[2..] == rest;
      CommentStep(rest, 0, 4 + |Written(b)|);
    }
  }

  lemma {:induction false} CommentEnds(s: string, depth: nat, length: nat)
    ensures var o := CommentAt(s, depth, length);
            o == Unended || (o.Skips? && !o.newline && length <= o.length <= length + |s|)
    decreases |s|
  {
    hide CommentAt;
    CommentStep(s, depth, length);
    if depth > 0 && |s| > 1 {
      if s[0] == '*' && s[1] == '/' {
        CommentEnds(s[2..], depth - 1, length + 2);
      } else if s[0] == '/' && s[1] == '*' {
        CommentEnds(s[2..], depth + 1, length + 2);
      } else {
        CommentEnds(s[1..], depth, length + 1);
      }
    }
  }

  lemma {:induction false} Within(b: Body, rest: string, depth: nat, length: nat)
    requires Proper(b) && |rest| >= 2 && First(rest) == '*' && depth > 0
    ensures CommentAt(Written(b) + rest, depth, length) == CommentAt(rest, depth, length + |Written(b)|)
    ensures First(Written(b) + rest) == Leading(b)
    decreases b
  {
    hide CommentAt;
    var s := Written(b) + rest;
    match b
    case End =>
      assert s == rest;
    case Char(c, next) =>
      assert s[1..] == Written(next) + rest && s[0] == c;
      Within(next, rest, depth, length + 1);
      assert s[1] == s[1..][0];
      CommentStep(s, depth, length);
    case Comment(inner, next) =>
      var t := Written(next) + rest;
      Within(inner, "*/" + t, depth + 1, length + 2);
      Within(next, rest, depth, length + 4 + |Written(inner)|);
      Nested(Written(inner), Written(next), rest, depth, length);
  }

  lemma {:induction false} Nested(a: string, c: string, rest: string, depth: nat, length: nat)
    requires depth > 0
    requires CommentAt(a + ("*/" + (c + rest)), depth + 1, length + 2) ==
             CommentAt("*/" + (c + rest), depth + 1, length + 2 + |a|)
    ensures CommentAt("/*" + a + "*/" + c + rest, depth, length) == CommentAt(c + rest, depth, length + 4 + |a|)
    ensures First("/*" + a + "*/" + c + rest) == '/'
  {
    hide CommentAt;
    var s, u := "/*" + a + "*/" + c + rest, "*/" + (c + rest);
    assert s[2..] == a + u && s[0] == '/' && s[1] == '*';
    assert u[2..] == c + rest && u[0] == '*' && u[1] == '/';
    CommentStep(s, depth, length);
    CommentStep(u, depth + 1, length + 2 + |a|);
  }

  /** What has been passed over up to where the depth first falls is a body and the end of a comment. */
  lemma {:induction false} BodyOf(s: string, depth: nat, length: nat) returns (b: Body)
    requires depth > 0 && CommentAt(s, depth, length).Skips?
    ensures Holds(s, b)
    ensures CommentAt(s, depth, length) == CommentAt(s[|Written(b)| + 2..], depth - 1, length + |Written(b)| + 2)
    decreases |s|
  {
    hide CommentAt;
    CommentStep(s, depth, length);
    if s[0] == '*' && s[1] == '/' {
      b := End;
      assert Written(b) + "*/" == "*/" == s[..2];
    } else if s[0] == '/' && s[1] == '*' {
      var inner := BodyOf(s[2..], depth + 1, length + 2);
      var n := |Written(inner)| + 2;
      var rest := s[2..][n..];
      var next := BodyOf(rest, depth, length + 2 + n);
      b := Comment(inner, next);
      CommentHolds(s, inner, next);
    } else {
      var next := BodyOf(s[1..], depth, length + 1);
      b := Char(s[0], next);
      CharHolds(s, next);
    }
  }

  lemma {:induction false} Front(p: string, rest: string)
    ensures p <= p + rest && (p + rest)[|p|..] == rest
  {
  }

  lemma {:induction false} Parts(a: string, c: string, rest: string)
    ensures "/*" + ((a + "*/") + ((c + "*/") + rest)) == ("/*" + a + "*/" + c + "*/") + rest
  {
  }

  lemma {:induction false} CommentHolds(s: string, inner: Body, next: Body)
    requires |s| >= 2 && s[0] == '/' && s[1] == '*' && Holds(s[2..], inner)
    requires Holds(s[2..][|Written(inner)| + 2..], next)
    ensures var b, n := Comment(inner, next), |Written(inner)| + 2;
            && Holds(s, b) && |Written(b)| == 2 + n + |Written(next)|
            && s[|Written(b)| + 2..] == s[2..][n..][|Written(next)| + 2..]
  {
    assert Written(Comment(inner, next)) == "/*" + Written(inner) + "*/" + Written(next);
    assert Proper(Comment(inner, next));
    hide Written, Proper;
    var a, c := Written(inner), Written(next);
    var rest := s[2..][|a| + 2..];
    var tail := rest[|c| + 2..];
    Split(s[2..], a + "*/");
    Split(rest, c + "*/");
    assert s == "/*" + s[2..];
    Parts(a, c, tail);
    Front("/*" + a + "*/" + c + "*/", tail);
  }

  lemma {:induction false} Split(s: string, p: string)
    requires p <= s
    ensures s == p + s[|p|..]
  {
  }

  lemma {:induction false} CharHolds(s: string, next: Body)
    requires |s| >= 2 && !Marks(s[0], s[1]) && Holds(s[1..], next)
    ensures var b := Char(s[0], next);
            && Holds(s, b) && |Written(b)| == 1 + |Written(next)|
            && s[|Written(b)| + 2..] == s[1..][|Written(next)| + 2..]
  {
    var w := Written(next) + "*/";
    assert s == [s[0]] + s[1..] && s[1] == s[1..][0] == w[0];
    assert Leading(next) == w[0];
  }

  /** A line comment up to its newline. */
  function LineAt(s: string): string {
    if s == [] || s[0] == '\n' then [] else [s[0]] + LineAt(s[1..])
  }

  lemma {:induction false} LineLongest(s: string)
    ensures LineAt(s) <= s && '\n' !in LineAt(s) && (|LineAt(s)| < |s| ==> s[|LineAt(s)|] == '\n')
  {
    if s != [] && s[0] != '\n' {
      LineLongest(s[1..]);
    }
  }

  function SlashAt(s: string, newline: bool): Outcome {
    if First(After(s, 1)) == '*' then CommentAt(After(s, 2), 1, 2)
    else if First(After(s, 1)) == '/' then Skips(2 + |LineAt(After(s, 2))|, newline)
    else Reads(Symbol("/", false), 1, 0)
  }

  /** Passes over a block comment, whose first two characters have been seen but not consumed. */
  method NestedComment(lexer: Lexer) returns (kind: Option<Kind>)
    requires lexer.Valid() && lexer.len >= 2 && lexer.Rest()[1] == '*'
    modifies lexer
    ensures lexer.Valid() && lexer.Did(CommentAt(old(lexer.Rest())[2..], 1, 2), kind)
  {
    hide CommentAt, Newlines, Column;
    lexer.ConsumeTwo();
    var ends := CommentBody(lexer, old(lexer.ptr));
    if !ends {
      return Some(LexError);
    }
    lexer.newline := false;
    kind := None;
  }

  /** The loop over a block comment that began at `start`. */
  method CommentBody(lexer: Lexer, ghost start: nat) returns (ends: bool)
    requires lexer.Valid() && start <= lexer.ptr
    modifies lexer`ptr, lexer`len, lexer`line, lexer`pos, lexer`lost, lexer`skipped
    ensures lexer.Valid() && lexer.lost == old(lexer.lost)
    ensures var o := CommentAt(old(lexer.Rest()), 1, old(lexer.ptr) - start);
            if ends then o.Skips? && lexer.ptr == start + o.length && !o.newline && lexer.skipped == old(lexer.skipped)
            else o.Unended? && lexer.len == 0
  {
    hide CommentAt, Newlines, Column, Lexer.Placed, After;
    ghost var o := CommentAt(lexer.Rest(), 1, lexer.ptr - start);
    var depth := 1;
    while depth > 0
      invariant lexer.Valid() && start <= lexer.ptr
      invariant lexer.lost == old(lexer.lost) && lexer.skipped == old(lexer.skipped)
      invariant CommentAt(lexer.Rest(), depth, lexer.ptr - start) == o
      decreases lexer.len
    {
      CommentStep(lexer.Rest(), depth, lexer.ptr - start);
      if lexer.len <= 1 {
        lexer.SkipAll();
        return false;
      }
      var c := lexer.Look();
      var c2 := lexer.LookN(2);
      if c == '*' && c2 == '/' {
        lexer.ConsumeTwo();
        depth := depth - 1;
      } else if c == '/' && c2 == '*' {
        lexer.ConsumeTwo();
        depth := depth + 1;
      } else {
        lexer.ConsumeOne();
      }
    }
    CommentStep(lexer.Rest(), 0, lexer.ptr - start);
    ends := true;
  }

  method LineComment(lexer: Lexer)
    requires lexer.Valid() && lexer.len >= 2 && lexer.Rest()[1] == '/'
    modifies lexer`ptr, lexer`len, lexer`line, lexer`pos, lexer`lost
    ensures lexer.Valid() && lexer.Moved(2 + |LineAt(old(lexer.Rest())[2..])|, 0)
  {
    hide Newlines, Column;
    lexer.ConsumeTwo();
    var atEnd := AtLineEnd(lexer);
    while !atEnd
      invariant lexer.Valid() && lexer.ptr >= old(lexer.ptr) && lexer.Moved(lexer.ptr - old(lexer.ptr), 0)
      invariant lexer.ptr + |LineAt(lexer.Rest())| == old(lexer.ptr) + 2 + |LineAt(old(lexer.Rest())[2..])|
      invariant atEnd <==> lexer.Rest() == [] || lexer.Rest()[0] == '\n'
      decreases lexer.len
    {
      lexer.ConsumeOne();
      atEnd := AtLineEnd(lexer);
    }
  }

  method AtLineEnd(lexer: Lexer) returns (r: bool)
    requires lexer.Valid()
    ensures r <==> lexer.Rest() == [] || lexer.Rest()[0] == '\n'
  {
    if lexer.IsEof() {
      return true;
    }
    var c := lexer.Look();
    r := c == '\n';
  }

  method Slash(lexer: Lexer) returns (kind: Option<Kind>)
    requires lexer.Valid() && lexer.len > 0
    modifies lexer
    ensures lexer.Valid() && lexer.Did(SlashAt(old(lexer.Rest()), old(lexer.newline)), kind)
  {
    hide CommentAt, LineAt, Newlines, Column;
    var c := lexer.LookN(2);
    if c == '*' {
      kind := NestedComment(lexer);
      return;
    }
    if c == '/' {
      LineComment(lexer);
      return None;
    }
    lexer.ConsumeOne();
    kind := Some(Symbol("/", false));
  }

  // ------------------------------------------------------------ words

  predicate Letter(c: char) {
    'a' <= c <= 'z' || 'A' <= c <= 'Z'
  }

  predicate InWord(c: char) {
    c == '_' || c == '\'' || Letter(c) || Decimal(c)
  }

  /** The longest word a text begins with. */
  function Word(s: string): string {
    if s == [] || !InWord(s[0]) then [] else [s[0]] + Word(s[1..])
  }

  lemma {:induction false} WordLongest(s: string)
    ensures var w := Word(s); w <= s && (forall c :: c in w ==> InWord(c)) && (|w| < |s| ==> !InWord(s[|w|]))
  {
    if s != [] && InWord(s[0]) {
      WordLongest(s[1..]);
    }
  }

  const KEYWORDS: seq<string> :=
    [
      "_", "compile_intrinsic",
      "use", "type", "interface", "trait", "primitive", "struct", "class", "actor", "object", "lambda",
      "delegate", "as", "is", "isnt",
      "var", "let", "embed", "new", "fun", "be",
      "iso", "trn", "ref", "val", "box", "tag",
      "this", "return", "break", "continue", "consume", "recover",
      "if", "ifdef", "then", "else", "elseif", "end", "for", "in", "while", "do", "repeat", "until", "match", "where",
      "try", "with", "error", "compile_error",
      "not", "and", "or", "xor",
      "digestof", "addressof", "__loc",
      "true", "false",
      "#read", "#send", "#share", "#alias", "#any",
      "$noseq", "$scope", "$try_no_check", "$borrowed", "$updatearg", "$extra", "$ifdefand", "$ifdefor", "$ifdefnot",
      "$flag", "$let"
    ]

  /** A word after a prefix that has been read: a keyword, or an identifier where those are allowed. */
  function WordAt(prefix: string, s: string, identifiers: bool): Option<Kind> {
    var name := prefix + Word(s);
    if name in KEYWORDS then Some(Keyword(name))
    else if identifiers && Word(s) != [] then Some(Identifier(BytesOf(name)))
    else None
  }

  /** A hash with a word that is no keyword is just the hash. */
  function HashAt(s: string): Outcome {
    var k := WordAt("#", After(s, 1), false);
    if k.Some? then Reads(k.value, 1 + |Word(After(s, 1))|, 0) else Reads(Symbol("#", false), 1, 0)
  }

  function DollarAt(s: string, testSymbols: bool): Outcome {
    var k := if testSymbols then WordAt("$", After(s, 1), true) else None;
    if k.Some? then Reads(k.value, 1 + |Word(After(s, 1))|, 0) else Reads(LexError, 1, 0)
  }

  /** Whether the next character belongs to the word tells whether it is longer. */
  lemma {:induction false} WordGoesOn(s: string, i: nat)
    requires i <= |Word(s)|
    ensures var w, c := Word(s), First(After(s, i));
            && (InWord(c) <==> i < |w|)
            && (i < |w| ==> BytesOf(w[..i + 1]) == BytesOf(w[..i]) + [ByteOf(c)])
  {
    WordLongest(s);
    var w := Word(s);
    if i < |w| {
      assert w[i] in w && s[i] == w[i];
    }
  }

  lemma {:induction false} NoBytes(w: string)
    ensures BytesOf(w[..0]) == []
  {
  }

  /** Reads a word into the token text without consuming it, and returns its length. */
  method ReadId(lexer: Lexer) returns (length: nat)
    requires Ready(lexer)
    modifies lexer.text, lexer.text.buffer
    ensures Ready(lexer) && (lexer.text.buffer == old(lexer.text.buffer) || fresh(lexer.text.buffer))
    ensures length == |Word(lexer.Rest())|
    ensures lexer.text.Contents() == old(lexer.text.Contents()) + BytesOf(Word(lexer.Rest()))
  {
    hide Word, Newlines, Column, Lexer.Placed, BytesOf, After, InWord, First, ByteOf;
    ghost var s, w := lexer.Rest(), Word(lexer.Rest());
    hide Lexer.Valid;
    length := 0;
    var c := lexer.LookN(1);
    NoBytes(w);
    while InWord(c)
      invariant Ready(lexer) && (lexer.text.buffer == old(lexer.text.buffer) || fresh(lexer.text.buffer))
      invariant length <= |w| && c == First(After(s, length))
      invariant lexer.text.Contents() == old(lexer.text.Contents()) + BytesOf(w[..length])
      decreases |w| - length
    {
      WordGoesOn(s, length);
      ghost var done := BytesOf(w[..length]);
      lexer.text.Append(ByteOf(c));
      Joined(old(lexer.text.Contents()), done, [ByteOf(c)]);
      length := length + 1;
      c := lexer.LookN(length + 1);
    }
    WordGoesOn(s, length);
    assert w[..length] == w;
    Terminate(lexer);
  }

  lemma {:induction false} Joined(a: seq<byte>, b: seq<byte>, c: seq<byte>)
    ensures (a + b) + c == a + (b + c)
  {
  }

  /** Adds a terminator for string comparison, which is not counted. */
  method Terminate(lexer: Lexer)
    requires Ready(lexer)
    modifies lexer.text, lexer.text.buffer
    ensures Ready(lexer) && (lexer.text.buffer == old(lexer.text.buffer) || fresh(lexer.text.buffer))
    ensures lexer.text.Contents() == old(lexer.text.Contents())
  {
    lexer.text.Append(0);
    lexer.text.buflen := lexer.text.buflen - 1;
  }

  function Spelling(bytes: seq<byte>): string {
    seq(|bytes|, i requires 0 <= i < |bytes| => bytes[i] as char)
  }

  lemma {:induction false} BytesSpell(prefix: string, w: string)
    requires prefix in ["", "#", "$"] && forall c :: c in w ==> InWord(c)
    ensures BytesOf(prefix) + BytesOf(w) == BytesOf(prefix + w) && Spelling(BytesOf(prefix + w)) == prefix + w
    ensures w != [] ==> Newlines(w[1..]) == 0
  {
    var name := prefix + w;
    forall i | 0 <= i < |name| ensures Spelling(BytesOf(name))[i] == name[i] {
      assert i >= |prefix| ==> name[i] == w[i - |prefix|] && w[i - |prefix|] in w;
    }
    if w != [] {
      forall c | c in w[1..] ensures c != '\n' { assert c in w; }
      NoneToCount(w[1..]);
    }
  }

  /** Looks for a keyword, or else an identifier where those are allowed, after a prefix that is in the token text. */
  method KeywordOrId(lexer: Lexer, identifiers: bool, ghost prefix: string) returns (kind: Option<Kind>)
    requires Ready(lexer) && prefix in ["", "#", "$"] && lexer.text.Contents() == BytesOf(prefix)
    modifies lexer`ptr, lexer`len, lexer`line, lexer`pos, lexer`lost, lexer.text, lexer.text.buffer
    ensures Ready(lexer) && (lexer.text.buffer == old(lexer.text.buffer) || fresh(lexer.text.buffer))
    ensures kind == WordAt(prefix, old(lexer.Rest()), identifiers)
    ensures lexer.Moved(if kind.Some? then |Word(old(lexer.Rest()))| else 0, 0)
  {
    hide Word, BytesOf, Spelling, Newlines, Column;
    ghost var w := Word(lexer.Rest());
    WordLongest(lexer.Rest());
    BytesSpell(prefix, w);
    var length := ReadId(lexer);
    var bytes := lexer.text.buffer[..lexer.text.buflen];
    var name := Spelling(bytes);
    assert w == lexer.Rest()[..length];
    assert length > 0 ==> w[1..] == lexer.Rest()[1..length];
    for i := 0 to |KEYWORDS|
      invariant name !in KEYWORDS[..i]
    {
      if KEYWORDS[i] == name {
        lexer.ConsumeChars(length);
        return Some(Keyword(KEYWORDS[i]));
      }
    }
    assert KEYWORDS[..|KEYWORDS|] == KEYWORDS;
    if identifiers && length > 0 {
      lexer.ConsumeChars(length);
      return Some(Identifier(bytes));
    }
    kind := None;
  }

  method Hash(lexer: Lexer) returns (kind: Option<Kind>)
    requires Ready(lexer) && lexer.text.Contents() == [] && First(lexer.Rest()) == '#'
    modifies lexer, lexer.text, lexer.text.buffer
    ensures Ready(lexer) && (lexer.text.buffer == old(lexer.text.buffer) || fresh(lexer.text.buffer))
    ensures lexer.Did(HashAt(old(lexer.Rest())), kind)
  {
    hide WordAt, Word, Newlines, Column;
    var c := lexer.Look();
    lexer.text.Append(ByteOf(c));
    lexer.ConsumeOne();
    kind := KeywordOrId(lexer, false, "#");
    if kind == None {
      kind := Some(Symbol("#", false));
    }
  }

  method Dollar(lexer: Lexer, testSymbols: bool) returns (kind: Option<Kind>)
    requires Ready(lexer) && lexer.text.Contents() == [] && First(lexer.Rest()) == '$'
    modifies lexer, lexer.text, lexer.text.buffer
    ensures Ready(lexer) && (lexer.text.buffer == old(lexer.text.buffer) || fresh(lexer.text.buffer))
    ensures lexer.Did(DollarAt(old(lexer.Rest()), testSymbols), kind)
  {
    hide WordAt, Word, Newlines, Column;
    var c := lexer.Look();
    lexer.text.Append(ByteOf(c));
    lexer.ConsumeOne();
    if testSymbols {
      kind := KeywordOrId(lexer, true, "$");
      if kind.Some? {
        return;
      }
    }
    kind := Some(LexError);
  }

  // ------------------------------------------------------------ symbols

  /** The symbols in the order in which they are tried. */
  function Symbols(): seq<string> {
    [
      "...",
      "->", "=>", "<<", ">>", "==", "!=", "<=", ">=",
      "{", "}", "(", ")", "[", "]", "}", ",",
      ".", "~", ":", ";", "=",
      "+", "-", "*", "/", "%", "@",
      "<", ">",
      "|", "&", "^", "!",
      "?", "-", "#",
      "(", "[", "{", "-"
    ]
  }

  lemma {:induction false} SymbolSizes(i: nat)
    requires i < |Symbols()|
    ensures var u := Symbols()[i];
            |u| == (if i == 0 then 3 else if i < 9 then 2 else 1) && '\0' !in u && '\n' !in u
  {
  }

  function FirstSymbol(s: string, i: nat): Option<string>
    requires i <= |Symbols()|
    decreases |Symbols()| - i
  {
    if i == |Symbols()| then None
    else if Symbols()[i] <= s then Some(Symbols()[i])
    else FirstSymbol(s, i + 1)
  }

  /** The first symbol in the list that fits is the longest that does. */
  lemma {:induction false} LongestSymbol(s: string, i: nat)
    requires i <= |Symbols()|
    ensures match FirstSymbol(s, i)
            case None => forall u :: u in Symbols()[i..] ==> !(u <= s)
            case Some(t) => t in Symbols() && t <= s && forall u :: u in Symbols()[i..] && u <= s ==> |u| <= |t|
    decreases |Symbols()| - i
  {
    hide Symbols;
    if i < |Symbols()| {
      if Symbols()[i] <= s {
        SymbolSizes(i);
        forall j | i <= j < |Symbols()| ensures |Symbols()[j]| <= |Symbols()[i]| {
          SymbolSizes(j);
        }
      } else {
        LongestSymbol(s, i + 1);
        assert Symbols()[i..] == [Symbols()[i]] + Symbols()[i + 1..];
      }
    }
  }

  /** A symbol. Some are another symbol when they are the first of their line. */
  function SymbolAt(s: string, newline: bool): Outcome {
    match FirstSymbol(s, 0)
    case Some(t) => Reads(Symbol(t, newline && t in ["(", "[", "{", "-"]), |t|, 0)
    case None => Reads(LexError, 1, 0)
  }

  /** Compared place by place, with nothing past the end of the source, a symbol is found just if it is next. */
  lemma {:induction false} SymbolFits(u: string, seen: string, s: string, i: nat)
    requires 1 <= |u| <= 3 && '\0' !in u && i <= |u|
    requires |seen| == 3 && forall k :: 0 <= k < 3 ==> seen[k] == First(After(s, k))
    requires u[..i] == seen[..i]
    ensures i == |u| ==> u <= s
    ensures i < |u| && u[i] != seen[i] ==> !(u <= s)
  {
    hide First, After;
    forall k | 0 <= k < i
      ensures k < |s| && u[k] == s[k]
    {
      assert u[k] in u && u[..i][k] == seen[..i][k];
      NextIs(s, k);
    }
    if i < |u| && u[i] != seen[i] {
      NextIs(s, i);
    } else if i == |u| {
      NextIs(s, i - 1);
      assert u[i - 1] in u && u[..i][i - 1] == seen[..i][i - 1];
      assert s[..i] == u;
    }
  }

  lemma {:induction false} NextIs(s: string, k: nat)
    ensures First(After(s, k)) == if k < |s| then s[k] else '\0'
  {
  }

  lemma {:induction false} NextSymbol(s: string, p: nat)
    requires p < |Symbols()|
    ensures FirstSymbol(s, p) == if Symbols()[p] <= s then Some(Symbols()[p]) else FirstSymbol(s, p + 1)
  {
    hide Symbols;
  }

  lemma {:induction false} NoMoreSymbols(s: string)
    ensures FirstSymbol(s, |Symbols()|) == None
  {
    hide Symbols;
  }

  /** How far a symbol agrees with the next characters. */
  method Agrees(u: string, seen: string) returns (i: nat)
    requires |u| <= |seen|
    ensures i <= |u| && u[..i] == seen[..i] && (i < |u| ==> u[i] != seen[i])
  {
    i := 0;
    while i < |u| && u[i] == seen[i]
      invariant i <= |u| && u[..i] == seen[..i]
    {
      assert u[..i + 1] == u[..i] + [u[i]] && seen[..i + 1] == seen[..i] + [seen[i]];
      i := i + 1;
    }
  }

  /** Looks for the first symbol in the table that agrees with the next characters. */
  method FindSymbol(seen: string, ghost s: string) returns (u: Option<string>)
    requires |seen| == 3 && forall k :: 0 <= k < 3 ==> seen[k] == First(After(s, k))
    ensures u == FirstSymbol(s, 0)
    ensures u.Some? ==> u.value != [] && u.value <= s && '\n' !in u.value
  {
    hide Symbols, FirstSymbol, First, After;
    for p := 0 to |Symbols()|
      invariant FirstSymbol(s, p) == FirstSymbol(s, 0)
    {
      SymbolSizes(p);
      var i := Agrees(Symbols()[p], seen);
      SymbolFits(Symbols()[p], seen, s, i);
      NextSymbol(s, p);
      if i == |Symbols()[p]| {
        return Some(Symbols()[p]);
      }
    }
    NoMoreSymbols(s);
    u := None;
  }

  method SymbolToken(lexer: Lexer) returns (kind: Kind)
    requires lexer.Valid() && lexer.len > 0
    modifies lexer`ptr, lexer`len, lexer`line, lexer`pos, lexer`lost
    ensures lexer.Valid() && lexer.Did(SymbolAt(old(lexer.Rest()), old(lexer.newline)), Some(kind))
  {
    hide FirstSymbol, Newlines, Column, First, After;
    ghost var s := lexer.Rest();
    var c := lexer.LookN(1);
    var c2 := lexer.LookN(2);
    var c3 := lexer.LookN(3);
    var u := FindSymbol([c, c2, c3], s);
    if u.Some? {
      SymbolIsOneLine(u.value, s);
      lexer.ConsumeChars(|u.value|);
      return Symbol(u.value, lexer.newline && u.value in ["(", "[", "{", "-"]);
    }
    lexer.ConsumeOne();
    kind := LexError;
  }

  lemma {:induction false} SymbolIsOneLine(u: string, s: string)
    requires u != [] && u <= s && '\n' !in u
    ensures Newlines(s[1..|u|]) == 0
  {
    assert s[1..|u|] == u[1..];
    forall c | c in u[1..] ensures c != '\n' { assert c in u; }
    NoneToCount(u[1..]);
  }
}
