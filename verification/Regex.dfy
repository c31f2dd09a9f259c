/** Google Test's own simple regular expressions: which ones it accepts, and what the backtracking matcher
  * finds, against the set of strings an expression stands for.
  */
module Regex {
  import opened Wrappers

  /** A C string: the characters before the terminating NUL. */
  type CString = s: string | '\0' !in s

  /** The character a pointer into a C string reads; past the last one it reads the terminator. */
  function At(s: CString, i: nat): char
  {
    if i < |s| then s[i] else '\0'
  }

  // ------------------------------------------------------- characters

  predicate IsInSet(ch: char, set_: string) {
    ch != '\0' && ch in set_
  }

  predicate IsAsciiDigit(ch: char) {
    '0' <= ch <= '9'
  }

  predicate IsAsciiPunct(ch: char) {
    IsInSet(ch, "^-!\"#$%&'()*+,./:;<=>?@[\\]_`{|}~")
  }

  predicate IsRepeat(ch: char) {
    IsInSet(ch, "?*+")
  }

  predicate IsAsciiWhiteSpace(ch: char) {
    IsInSet(ch, " \U{0C}\n\r\t\U{0B}")
  }

  predicate IsAsciiWordChar(ch: char) {
    'a' <= ch <= 'z' || 'A' <= ch <= 'Z' || '0' <= ch <= '9' || ch == '_'
  }

  predicate IsValidEscape(c: char) {
    IsAsciiPunct(c) || IsInSet(c, "dDfnrsStvwW")
  }

  predicate AtomMatchesChar(escaped: bool, pattern: char, ch: char) {
    if escaped then
      match pattern
      case 'd' => IsAsciiDigit(ch)
      case 'D' => !IsAsciiDigit(ch)
      case 'f' => ch == '\U{0C}'
      case 'n' => ch == '\n'
      case 'r' => ch == '\r'
      case 's' => IsAsciiWhiteSpace(ch)
      case 'S' => !IsAsciiWhiteSpace(ch)
      case 't' => ch == '\t'
      case 'v' => ch == '\U{0B}'
      case 'w' => IsAsciiWordChar(ch)
      case 'W' => !IsAsciiWordChar(ch)
      case _ => IsAsciiPunct(pattern) && pattern == ch
    else
      (pattern == '.' && ch != '\n') || pattern == ch
  }

  // The classes by their ASCII codes.

  predicate Between(ch: char, from: nat, to_: nat) {
    from <= ch as int <= to_
  }

  lemma {:induction false} PunctuationIs(ch: char)
    ensures IsAsciiPunct(ch) <==>
            Between(ch, 0x21, 0x2F) || Between(ch, 0x3A, 0x40) || Between(ch, 0x5B, 0x60) || Between(ch, 0x7B, 0x7E)
  {
  }

  /** What an atom matches: a digit, white space or a word character, or just none; a control character; punctuation
    * that is escaped, itself; and otherwise itself, or anything but a newline for a dot.
    */
  lemma {:induction false} AtomIs(c: char, ch: char)
    ensures AtomMatchesChar(true, 'd', ch) <==> Between(ch, 48, 57)
    ensures AtomMatchesChar(true, 'w', ch) <==>
            Between(ch, 48, 57) || Between(ch, 65, 90) || ch as int == 95 || Between(ch, 97, 122)
    ensures AtomMatchesChar(true, 's', ch) <==> ch as int == 32 || Between(ch, 9, 13)
    ensures AtomMatchesChar(true, 'D', ch) != AtomMatchesChar(true, 'd', ch)
    ensures AtomMatchesChar(true, 'W', ch) != AtomMatchesChar(true, 'w', ch)
    ensures AtomMatchesChar(true, 'S', ch) != AtomMatchesChar(true, 's', ch)
    ensures AtomMatchesChar(true, 't', ch) <==> ch as int == 9
    ensures AtomMatchesChar(true, 'n', ch) <==> ch as int == 10
    ensures AtomMatchesChar(true, 'v', ch) <==> ch as int == 11
    ensures AtomMatchesChar(true, 'f', ch) <==> ch as int == 12
    ensures AtomMatchesChar(true, 'r', ch) <==> ch as int == 13
    ensures IsAsciiPunct(c) ==> (AtomMatchesChar(true, c, ch) <==> ch == c)
    ensures AtomMatchesChar(false, c, ch) <==> ch == c || (c as int == 46 && ch as int != 10)
  {
    hide IsAsciiPunct;
    PunctuationIs(c);
  }

  // ------------------------------------------------ the meaning of an expression

  datatype Repeat = Once | Optional | Star | Plus

  datatype Item = Item(escaped: bool, c: char, repeat: Repeat)

  /** A sequence of repeated atoms, possibly anchored at the end. */
  datatype Pattern = Pattern(items: seq<Item>, atEnd: bool)

  predicate Admits(repeat: Repeat, n: nat) {
    match repeat
    case Once => n == 1
    case Optional => n <= 1
    case Star => true
    case Plus => n >= 1
  }

  ghost predicate InItem(it: Item, w: string) {
    Admits(it.repeat, |w|) && forall i :: 0 <= i < |w| ==> AtomMatchesChar(it.escaped, it.c, w[i])
  }

  /** `w` is a string of the language of the items, one after the other. */
  ghost predicate InItems(items: seq<Item>, w: string) {
    if items == [] then w == [] else
      exists i: nat :: i <= |w| && InItem(items[0], w[..i]) && InItems(items[1..], w[i..])
  }

  /** Some prefix of `s`, or all of it when the pattern is anchored, is in the language. */
  ghost predicate MatchesPrefix(p: Pattern, s: string) {
    exists j: nat :: j <= |s| && InItems(p.items, s[..j]) && (p.atEnd ==> j == |s|)
  }

  // --------------------------------------------------------- syntax

  function AtomSize(r: CString): nat
    requires r != []
  {
    if r[0] == '\\' then 2 else 1
  }

  predicate ValidAtom(r: CString)
    requires r != []
  {
    if r[0] == '\\' then |r| >= 2 && IsValidEscape(r[1]) else r[0] !in "^$?*+()[]{}|"
  }

  /** An expression without the leading `^`: repeated atoms, and `$` at the end at most. */
  predicate ValidTail(r: CString)
    decreases |r|
  {
    if r == [] then true
    else if r[0] == '$' then |r| == 1
    else ValidAtom(r) &&
         var n := AtomSize(r);
         if n < |r| && IsRepeat(r[n]) then ValidTail(r[n + 1..]) else ValidTail(r[n..])
  }

  predicate Valid(r: CString) {
    ValidTail(if At(r, 0) == '^' then r[1..] else r)
  }

  function RepeatOf(ch: char): Repeat {
    if ch == '?' then Optional else if ch == '*' then Star else if ch == '+' then Plus else Once
  }

  function Parse(r: CString): Pattern
    requires ValidTail(r)
    decreases |r|
  {
    if r == [] then Pattern([], false)
    else if r[0] == '$' then Pattern([], true)
    else
      var n := AtomSize(r);
      var repeated := n < |r| && IsRepeat(r[n]);
      var p := Parse(if repeated then r[n + 1..] else r[n..]);
      Pattern([Item(r[0] == '\\', r[n - 1], if repeated then RepeatOf(r[n]) else Once)] + p.items, p.atEnd)
  }

  // ------------------------------------------------ writing an expression

  function RepeatText(repeat: Repeat): string {
    match repeat
    case Once => ""
    case Optional => "?"
    case Star => "*"
    case Plus => "+"
  }

  /** An atom that can be written: an escape there is, or a character that means itself or anything. */
  predicate Writable(it: Item) {
    if it.escaped then IsValidEscape(it.c) else it.c !in "^$?*+()[]{}|\\" && it.c != '\0'
  }

  function AtomText(it: Item): string {
    if it.escaped then ['\\', it.c] else [it.c]
  }

  predicate AllWritable(items: seq<Item>) {
    forall it :: it in items ==> Writable(it)
  }

  function PatternText(items: seq<Item>, atEnd: bool): (r: CString)
    requires AllWritable(items)
  {
    if items == [] then (if atEnd then "$" else "") else
      assert Writable(items[0]);
      AtomText(items[0]) + (RepeatText(items[0].repeat) + PatternText(items[1..], atEnd))
  }

  /** Every pattern of such atoms is accepted as it is written, and read back. */
  lemma {:induction false} ParseWritten(items: seq<Item>, atEnd: bool)
    requires AllWritable(items)
    ensures ValidTail(PatternText(items, atEnd)) && Parse(PatternText(items, atEnd)) == Pattern(items, atEnd)
  {
    if items != [] {
      var it, more := items[0], PatternText(items[1..], atEnd);
      assert Writable(it);
      ParseWritten(items[1..], atEnd);
      NoRepeatFirst(items[1..], atEnd);
      hide Writable, AtomText, RepeatText, ValidTail, Parse;
      var r := PatternText(items, atEnd);
      hide PatternText;
      FirstParsed(it, more, r);
      assert items == [it] + items[1..];
    }
  }

  lemma {:induction false} FirstParsed(it: Item, more: CString, r: CString)
    requires Writable(it) && ValidTail(more) && (more != [] ==> !IsRepeat(more[0]))
    requires r == AtomText(it) + (RepeatText(it.repeat) + more)
    ensures ValidTail(r) && Parse(r) == Pattern([it] + Parse(more).items, Parse(more).atEnd)
  {
    FirstAtom(it, more, r);
    hide Writable, AtomText, RepeatText, RepeatOf, IsRepeat, ValidAtom, AtomSize;
  }

  /** There is no other way to write one. */
  lemma {:induction false} WrittenParsed(r: CString)
    requires ValidTail(r)
    ensures var p := Parse(r); AllWritable(p.items) && PatternText(p.items, p.atEnd) == r
    decreases |r|
  {
    if r != [] && r[0] != '$' {
      hide IsRepeat, ValidAtom, RepeatText, RepeatOf, AtomText, AllWritable, Writable, PatternText;
      var n := AtomSize(r);
      var repeated := n < |r| && IsRepeat(r[n]);
      var more: CString := if repeated then r[n + 1..] else r[n..];
      var it := Item(r[0] == '\\', r[n - 1], if repeated then RepeatOf(r[n]) else Once);
      assert ValidTail(more) && Parse(r) == Pattern([it] + Parse(more).items, Parse(more).atEnd);
      WrittenParsed(more);
      AtomParsed(it, more, r);
      TextCons(it, Parse(more).items, Parse(more).atEnd);
    }
  }

  lemma {:induction false} TextCons(it: Item, items: seq<Item>, atEnd: bool)
    requires Writable(it) && AllWritable(items)
    ensures AllWritable([it] + items)
    ensures PatternText([it] + items, atEnd) == AtomText(it) + (RepeatText(it.repeat) + PatternText(items, atEnd))
  {
    hide Writable;
    assert ([it] + items)[1..] == items;
  }

  lemma {:induction false} AtomParsed(it: Item, more: CString, r: CString)
    requires r != [] && r[0] != '$' && ValidAtom(r)
    requires var n := AtomSize(r);
             var repeated := n < |r| && IsRepeat(r[n]);
             && more == (if repeated then r[n + 1..] else r[n..])
             && it == Item(r[0] == '\\', r[n - 1], if repeated then RepeatOf(r[n]) else Once)
    ensures Writable(it) && r == AtomText(it) + (RepeatText(it.repeat) + more)
  {
    var n := AtomSize(r);
    assert r[..n] == AtomText(it);
    assert r == r[..n] + r[n..];
    assert it.c in r;
    if it.repeat != Once {
      assert r[n..] == [r[n]] + more;
    } else {
      assert "" + more == more;
    }
  }

  lemma {:induction false} NoRepeatFirst(items: seq<Item>, atEnd: bool)
    requires AllWritable(items)
    ensures var r := PatternText(items, atEnd); r != [] ==> !IsRepeat(r[0])
  {
    if items != [] {
      assert Writable(items[0]);
    }
  }

  /** The first atom of an expression, how often it is to be repeated, and the rest. */
  lemma {:induction false} FirstAtom(it: Item, more: CString, r: CString)
    requires Writable(it) && (more != [] ==> !IsRepeat(more[0]))
    requires r == AtomText(it) + (RepeatText(it.repeat) + more)
    ensures r != [] && r[0] != '$' && ValidAtom(r) && (r[0] == '\\' <==> it.escaped)
    ensures var n := AtomSize(r);
            && |r| >= n && r[n - 1] == it.c
            && (if it.repeat == Once then r[n..] == more && (n < |r| ==> !IsRepeat(r[n]))
                else n < |r| && IsRepeat(r[n]) && RepeatOf(r[n]) == it.repeat && r[n + 1..] == more)
  {
    var n := AtomSize(r);
    assert r[n..] == RepeatText(it.repeat) + more;
    if it.repeat == Once {
      assert r[n..] == more;
    } else {
      assert r[n + 1..] == more;
    }
  }

  /** Some substring of `s` is in the language: a prefix after `^`, a suffix before `$`. */
  ghost predicate MatchesSubstring(r: CString, s: CString)
    requires Valid(r)
  {
    var anchored := At(r, 0) == '^';
    var p := Parse(if anchored then r[1..] else r);
    exists i: nat, j: nat :: i <= j <= |s| && InItems(p.items, s[i..j]) &&
                             (anchored ==> i == 0) && (p.atEnd ==> j == |s|)
  }

  // ----------------------------------------------------------- validation

  /** What is left to check at position `i`, given whether the last thing read can be repeated. */
  ghost predicate RestValid(r: CString, i: nat, repeatable: bool)
    requires i <= |r|
  {
    if i == 0 then Valid(r)
    else if repeatable && i < |r| && IsRepeat(r[i]) then ValidTail(r[i + 1..])
    else ValidTail(r[i..])
  }

  method ValidateRegex(regex: Option<CString>) returns (valid: bool)
    ensures valid <==> regex.Some? && Valid(regex.value)
  {
    if regex.None? {
      return false;
    }
    var r := regex.value;
    valid := true;
    var prevRepeatable := false;
    var i := 0;
    while At(r, i) != '\0'
      invariant i <= |r|
      invariant i == 0 ==> !prevRepeatable
      invariant Valid(r) <==> valid && RestValid(r, i, prevRepeatable)
      decreases |r| - i
    {
      ReadOn(r, i, prevRepeatable);
      if At(r, i) == '\\' {
        i := i + 1;
        if At(r, i) == '\0' {
          return false;
        }
        if !IsValidEscape(At(r, i)) {
          valid := false;
        }
        prevRepeatable := true;
      } else {
        var ch := At(r, i);
        if ch == '^' && i > 0 {
          valid := false;
        } else if ch == '$' && At(r, i + 1) != '\0' {
          valid := false;
        } else if IsInSet(ch, "()[]{}|") {
          valid := false;
        } else if IsRepeat(ch) && !prevRepeatable {
          valid := false;
        }
        prevRepeatable := !IsInSet(ch, "^$?*+");
      }
      i := i + 1;
    }
  }

  /** How reading one atom, anchor or repetition changes what is left to check. */
  lemma {:induction false} ReadOn(r: CString, i: nat, repeatable: bool)
    requires i < |r| && (i == 0 ==> !repeatable)
    ensures r[i] == '\\' ==>
              (RestValid(r, i, repeatable) <==> i + 1 < |r| && IsValidEscape(r[i + 1]) && RestValid(r, i + 2, true))
    ensures r[i] == '^' ==> (RestValid(r, i, repeatable) <==> i == 0 && RestValid(r, 1, false))
    ensures r[i] == '$' ==> (RestValid(r, i, repeatable) <==> i + 1 == |r|)
    ensures i + 1 == |r| ==> RestValid(r, i + 1, false) && RestValid(r, i + 1, true)
    ensures IsRepeat(r[i]) ==> (RestValid(r, i, repeatable) <==> repeatable && RestValid(r, i + 1, false))
    ensures r[i] in "()[]{}|" ==> !RestValid(r, i, repeatable)
    ensures r[i] != '\\' && r[i] !in "^$?*+()[]{}|" ==> (RestValid(r, i, repeatable) <==> RestValid(r, i + 1, true))
  {
    if i == 0 {
      assert r[0..] == r;
    }
    var t := r[i..];
    assert t[0] == r[i] && t[1..] == r[i + 1..];
    if i + 1 < |r| {
      assert t[1] == r[i + 1] && t[2..] == r[i + 2..];
      if i + 2 < |r| {
        assert t[2] == r[i + 2] && t[3..] == r[i + 3..];
      }
    }
  }

  // ------------------------------------------------------------- matching

  /** More characters than any string the matcher is asked about: `(size_t)-1 - 1`. */
  const MAX_COUNT: nat := 0xFFFF_FFFF_FFFF_FFFE

  /** A repeated atom takes some number of characters, and the rest of the pattern matches what follows. */
  lemma {:induction false} RepetitionMeaning(it: Item, p: Pattern, s: string)
    ensures MatchesPrefix(Pattern([it] + p.items, p.atEnd), s) <==>
            exists k: nat :: k <= |s| && InItem(it, s[..k]) && MatchesPrefix(p, s[k..])
  {
    var q := Pattern([it] + p.items, p.atEnd);
    assert q.items[1..] == p.items;
    if MatchesPrefix(q, s) {
      var j: nat :| j <= |s| && InItems(q.items, s[..j]) && (q.atEnd ==> j == |s|);
      var k: nat :| k <= j && InItem(it, s[..j][..k]) && InItems(p.items, s[..j][k..]);
      assert s[..j][..k] == s[..k] && s[..j][k..] == s[k..][..j - k];
      assert MatchesPrefix(p, s[k..]);
    }
    if k: nat :| k <= |s| && InItem(it, s[..k]) && MatchesPrefix(p, s[k..]) {
      var m: nat :| m <= |s[k..]| && InItems(p.items, s[k..][..m]) && (p.atEnd ==> m == |s[k..]|);
      var j := k + m;
      assert s[..j][..k] == s[..k] && s[..j][k..] == s[k..][..m];
      assert InItems(q.items, s[..j]);
    }
  }

  method MatchRepetitionAndRegexAtHead(escaped: bool, c: char, repeat: char, regex: CString,
          str: CString) returns (b: bool)
    requires IsRepeat(repeat) && ValidTail(regex) && |str| < MAX_COUNT
    ensures b <==> MatchesPrefix(Pattern([Item(escaped, c, RepeatOf(repeat))] + Parse(regex).items,
                                         Parse(regex).atEnd), str)
    decreases |regex|, 1
  {
    ghost var it := Item(escaped, c, RepeatOf(repeat));
    RepetitionMeaning(it, Parse(regex), str);
    var minCount := if repeat == '+' then 1 else 0;
    var maxCount := if repeat == '?' then 1 else MAX_COUNT;
    var i := 0;
    while i <= maxCount
      invariant i <= |str| && i <= maxCount + 1
      invariant forall k :: 0 <= k < i ==> AtomMatchesChar(escaped, c, str[k])
      invariant forall k: nat :: k < i && InItem(it, str[..k]) ==> !MatchesPrefix(Parse(regex), str[k..])
      decreases |str| - i
    {
      if i >= minCount {
        var m := MatchRegexAtHead(regex, str[i..]);
        if m {
          assert InItem(it, str[..i]);
          return true;
        }
      }
      if At(str, i) == '\0' || !AtomMatchesChar(escaped, c, At(str, i)) {
        TooLong(it, str, i);
        return false;
      }
      i := i + 1;
    }
    TooLong(it, str, i);
    return false;
  }

  /** No more than `i` characters can be taken once the atom does not match the next, or the count is used up. */
  lemma {:induction false} TooLong(it: Item, str: string, i: nat)
    requires i <= |str|
    requires i == |str| || !AtomMatchesChar(it.escaped, it.c, str[i]) || (it.repeat == Optional && i == 2)
    ensures forall k: nat :: i < k <= |str| ==> !InItem(it, str[..k])
    ensures it.repeat == Optional && i == 2 ==> !InItem(it, str[..i])
  {
    forall k: nat | i < k <= |str|
      ensures !InItem(it, str[..k])
    {
      assert str[..k][i] == str[i];
    }
  }

  method MatchRegexAtHead(regex: CString, str: CString) returns (b: bool)
    requires ValidTail(regex) && |str| < MAX_COUNT
    ensures b <==> MatchesPrefix(Parse(regex), str)
    decreases |regex|, 0
  {
    if At(regex, 0) == '\0' {
      assert InItems([], str[..0]);
      return true;
    }
    if At(regex, 0) == '$' {
      EndOnly(str);
      return At(str, 0) == '\0';
    }
    var escaped := At(regex, 0) == '\\';
    var r := regex;
    if escaped {
      r := r[1..];
    }
    if IsRepeat(At(r, 1)) {
      b := MatchRepetitionAndRegexAtHead(escaped, At(r, 0), At(r, 1), r[2..], str);
    } else {
      OneCharacter(Item(escaped, At(r, 0), Once), Parse(r[1..]), str);
      b := false;
      if At(str, 0) != '\0' && AtomMatchesChar(escaped, At(r, 0), At(str, 0)) {
        b := MatchRegexAtHead(r[1..], str[1..]);
      }
    }
  }

  lemma {:induction false} EndOnly(s: string)
    ensures MatchesPrefix(Pattern([], true), s) <==> s == []
  {
    if s == [] {
      assert InItems([], s[..0]);
    }
  }

  lemma {:induction false} OneCharacter(it: Item, p: Pattern, s: string)
    requires it.repeat == Once
    ensures MatchesPrefix(Pattern([it] + p.items, p.atEnd), s) <==>
            s != [] && AtomMatchesChar(it.escaped, it.c, s[0]) && MatchesPrefix(p, s[1..])
  {
    RepetitionMeaning(it, p, s);
    if s != [] && AtomMatchesChar(it.escaped, it.c, s[0]) {
      assert InItem(it, s[..1]);
    }
  }

  method MatchRegexAnywhere(regex: Option<CString>, str: Option<CString>) returns (b: bool)
    requires regex.Some? && str.Some? ==> Valid(regex.value) && |str.value| < MAX_COUNT
    ensures b <==> regex.Some? && str.Some? && MatchesSubstring(regex.value, str.value)
  {
    if regex.None? || str.None? {
      return false;
    }
    var r, s := regex.value, str.value;
    if At(r, 0) == '^' {
      FromStart(r, s);
      b := MatchRegexAtHead(r[1..], s);
      return;
    }
    FromAnywhere(r, s);
    var i := 0;
    while true
      invariant i <= |s|
      invariant forall k: nat :: k < i ==> !MatchesPrefix(Parse(r), s[k..])
      decreases |s| - i
    {
      b := MatchRegexAtHead(r, s[i..]);
      if b {
        return true;
      }
      if At(s, i) == '\0' {
        return false;
      }
      i := i + 1;
    }
  }

  lemma {:induction false} FromStart(r: CString, s: CString)
    requires Valid(r) && At(r, 0) == '^'
    ensures MatchesSubstring(r, s) <==> MatchesPrefix(Parse(r[1..]), s)
  {
    var p := Parse(r[1..]);
    forall j: nat | j <= |s|
      ensures s[0..j] == s[..j]
    {
    }
  }

  lemma {:induction false} FromAnywhere(r: CString, s: CString)
    requires Valid(r) && At(r, 0) != '^'
    ensures MatchesSubstring(r, s) <==> exists i: nat :: i <= |s| && MatchesPrefix(Parse(r), s[i..])
  {
    var p := Parse(r);
    if i: nat, j: nat :| i <= j <= |s| && InItems(p.items, s[i..j]) && (p.atEnd ==> j == |s|) {
      assert s[i..][..j - i] == s[i..j];
      assert MatchesPrefix(p, s[i..]);
    }
    if i: nat :| i <= |s| && MatchesPrefix(p, s[i..]) {
      var m: nat :| m <= |s[i..]| && InItems(p.items, s[i..][..m]) && (p.atEnd ==> m == |s[i..]|);
      assert s[i..][..m] == s[i..i + m];
    }
  }
}
