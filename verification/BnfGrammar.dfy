/** Grammars as the BNF printer builds them, and the languages they define. */
module BnfGrammar {

  import opened Wrappers

  datatype Id = Seq | Or | Repeat | Token | QuotedToken | Rule | Never | Nop

  /** A node of a rule's body. References to generated rules have no name but a number, `hackCount`. */
  datatype Node = Node(id: Id, name: Option<string>, hackCount: nat, optional: bool, children: seq<Node>)

  /** The name of a rule, or the number of a generated one. */
  datatype RuleName = Text(text: string) | Hack(number: nat)

  datatype Def = Def(name: RuleName, inlineRule: bool, body: Node)

  type Grammar = seq<Def>

  function Names(g: Grammar): (names: seq<RuleName>)
    ensures |names| == |g|
  {
    seq(|g|, k requires 0 <= k < |g| => g[k].name)
  }

  /** The first rule with the given name; the number of rules when there is none. */
  function Find(names: seq<RuleName>, name: RuleName): (k: nat)
    ensures k <= |names|
    ensures k < |names| ==> names[k] == name
    ensures forall j :: 0 <= j < k ==> names[j] != name
  {
    if names == [] then 0
    else if names[0] == name then 0
    else
      var k := Find(names[1..], name);
      assert forall j :: 1 <= j < k + 1 ==> names[j] == names[1..][j - 1];
      k + 1
  }

  function NameOf(e: Node): RuleName {
    if e.name.Some? then Text(e.name.value) else Hack(e.hackCount)
  }

  /** The rule a reference refers to. */
  function Target(names: seq<RuleName>, e: Node): (k: nat)
    ensures k <= |names|
  {
    Find(names, NameOf(e))
  }

  /** Nodes whose children take part in what they match. A node that became NEVER may still hold children. */
  predicate Inner(id: Id) {
    id.Seq? || id.Or? || id.Repeat?
  }

  /** References are to existing rules by name, and a repetition repeats one thing. */
  predicate Shaped(names: seq<RuleName>, e: Node) {
    && (e.id.Rule? ==> e.name.Some? && Target(names, e) < |names|)
    && (e.id.Repeat? ==> |e.children| <= 1)
    && (Inner(e.id) ==> forall c :: c in e.children ==> Shaped(names, c))
  }

  predicate WellFormed(g: Grammar) {
    forall k :: 0 <= k < |g| ==> Shaped(Names(g), g[k].body)
  }

  // ------------------------------------------------------------- languages

  datatype Terminal = Terminal(quoted: bool, name: Option<string>)

  type Word = seq<Terminal>

  type Lang = iset<Word>

  ghost const EMPTY: Lang := iset{}
  ghost const EPSILON: Lang := iset{[]}

  ghost function Cat(a: Lang, b: Lang): Lang {
    iset w: Word, i: nat | i <= |w| && w[..i] in a && w[i..] in b :: w
  }

  ghost function Power(a: Lang, n: nat): Lang {
    if n == 0 then EPSILON else Cat(a, Power(a, n - 1))
  }

  ghost function Star(a: Lang): Lang {
    iset w: Word, n: nat | w in Power(a, n) :: w
  }

  /** What a node matches, given what each rule matches. */
  ghost function Den(names: seq<RuleName>, e: Node, env: seq<Lang>): Lang
    decreases e, 1
  {
    match e.id
    case Seq => DenSeq(names, e.children, env)
    case Or => DenOr(names, e.children, env) + if e.optional then EPSILON else EMPTY
    case Repeat => Star(DenSeq(names, e.children, env))
    case Token => iset{[Terminal(false, e.name)]}
    case QuotedToken => iset{[Terminal(true, e.name)]}
    case Rule => if Target(names, e) < |env| then env[Target(names, e)] else EMPTY
    case Never => EMPTY
    case Nop => EPSILON
  }

  ghost function DenSeq(names: seq<RuleName>, es: seq<Node>, env: seq<Lang>): Lang
    decreases es, 0
  {
    if es == [] then EPSILON else Cat(Den(names, es[0], env), DenSeq(names, es[1..], env))
  }

  ghost function DenOr(names: seq<RuleName>, es: seq<Node>, env: seq<Lang>): Lang
    decreases es, 0
  {
    if es == [] then EMPTY else Den(names, es[0], env) + DenOr(names, es[1..], env)
  }

  /** What the rules derive in at most `n` nested expansions. */
  ghost function Level(g: Grammar, n: nat): (env: seq<Lang>)
    ensures |env| == |g|
  {
    if n == 0 then seq(|g|, k => EMPTY) else
      seq(|g|, k requires 0 <= k < |g| => Den(Names(g), g[k].body, Level(g, n - 1)))
  }

  /** The language of rule `k`: the token strings it derives. */
  ghost function Language(g: Grammar, k: nat): Lang
    requires k < |g|
  {
    iset w: Word, n: nat | w in Level(g, n)[k] :: w
  }

  ghost function Languages(g: Grammar): (env: seq<Lang>)
    ensures |env| == |g|
  {
    seq(|g|, k requires 0 <= k < |g| => Language(g, k))
  }

  // ---------------------------------------------------- algebra of languages

  lemma {:induction false} CatLeftUnit(a: Lang)
    ensures Cat(EPSILON, a) == a
  {
    forall w: Word
      ensures w in Cat(EPSILON, a) <==> w in a
    {
      assert w[..0] == [] && w[0..] == w;
    }
  }

  lemma {:induction false} CatRightUnit(a: Lang)
    ensures Cat(a, EPSILON) == a
  {
    forall w: Word
      ensures w in Cat(a, EPSILON) <==> w in a
    {
      assert w[..|w|] == w && w[|w|..] == [];
    }
  }

  lemma {:induction false} CatNothing(a: Lang)
    ensures Cat(EMPTY, a) == EMPTY && Cat(a, EMPTY) == EMPTY
  {
  }

  lemma {:induction false} PowerTrivial(n: nat)
    ensures Power(EPSILON, n) == EPSILON
    ensures n > 0 ==> Power(EMPTY, n) == EMPTY
  {
    hide Cat;
    if n > 0 {
      PowerTrivial(n - 1);
      CatLeftUnit(EPSILON);
      CatNothing(Power(EMPTY, n - 1));
    }
  }

  lemma {:induction false} StarTrivial()
    ensures Star(EMPTY) == EPSILON && Star(EPSILON) == EPSILON
  {
    hide Power;
    forall w: Word
      ensures w in Star(EMPTY) <==> w == []
      ensures w in Star(EPSILON) <==> w == []
    {
      StarTrivialAt(w);
    }
  }

  lemma {:induction false} StarTrivialAt(w: Word)
    ensures w in Star(EMPTY) <==> w == []
    ensures w in Star(EPSILON) <==> w == []
  {
    assert Power(EMPTY, 0) == EPSILON && Power(EPSILON, 0) == EPSILON;
    hide Power, Cat;
    if w in Star(EMPTY) {
      var n: nat :| w in Power(EMPTY, n);
      PowerTrivial(n);
    }
    if w in Star(EPSILON) {
      var n: nat :| w in Power(EPSILON, n);
      PowerTrivial(n);
    }
  }

  ghost predicate Below(a: seq<Lang>, b: seq<Lang>) {
    |a| == |b| && forall k :: 0 <= k < |a| ==> a[k] <= b[k]
  }

  lemma {:induction false} CatMono(a: Lang, b: Lang, a': Lang, b': Lang)
    requires a <= a' && b <= b'
    ensures Cat(a, b) <= Cat(a', b')
  {
  }

  lemma {:induction false} PowerMono(a: Lang, a': Lang, n: nat)
    requires a <= a'
    ensures Power(a, n) <= Power(a', n)
  {
    if n > 0 {
      PowerMono(a, a', n - 1);
      CatMono(a, Power(a, n - 1), a', Power(a', n - 1));
    }
  }

  lemma {:induction false} StarMono(a: Lang, a': Lang)
    requires a <= a'
    ensures Star(a) <= Star(a')
  {
    forall w: Word, n: nat | w in Power(a, n)
      ensures w in Power(a', n)
    {
      PowerMono(a, a', n);
    }
  }

  lemma {:induction false} DenMono(names: seq<RuleName>, e: Node, a: seq<Lang>, b: seq<Lang>)
    requires Below(a, b)
    ensures Den(names, e, a) <= Den(names, e, b)
    decreases e, 1
  {
    match e.id {
      case Seq => DenSeqMono(names, e.children, a, b);
      case Or => DenOrMono(names, e.children, a, b);
      case Repeat =>
        DenSeqMono(names, e.children, a, b);
        StarMono(DenSeq(names, e.children, a), DenSeq(names, e.children, b));
      case _ =>
    }
  }

  lemma {:induction false} DenSeqMono(names: seq<RuleName>, es: seq<Node>, a: seq<Lang>, b: seq<Lang>)
    requires Below(a, b)
    ensures DenSeq(names, es, a) <= DenSeq(names, es, b)
    decreases es, 0
  {
    if es != [] {
      DenMono(names, es[0], a, b);
      DenSeqMono(names, es[1..], a, b);
      CatMono(Den(names, es[0], a), DenSeq(names, es[1..], a), Den(names, es[0], b), DenSeq(names, es[1..], b));
    }
  }

  lemma {:induction false} DenOrMono(names: seq<RuleName>, es: seq<Node>, a: seq<Lang>, b: seq<Lang>)
    requires Below(a, b)
    ensures DenOr(names, es, a) <= DenOr(names, es, b)
    decreases es, 0
  {
    if es != [] {
      DenMono(names, es[0], a, b);
      DenOrMono(names, es[1..], a, b);
    }
  }

  // -------------------------------------------------- languages as least fixpoint

  /** The environment agrees with every rule of the grammar. */
  ghost predicate Fixpoint(g: Grammar, env: seq<Lang>) {
    |env| == |g| && forall k :: 0 <= k < |g| ==> env[k] == Den(Names(g), g[k].body, env)
  }

  lemma {:induction false} LevelUp(g: Grammar, n: nat)
    ensures Below(Level(g, n), Level(g, n + 1))
  {
    if n > 0 {
      LevelUp(g, n - 1);
      forall k | 0 <= k < |g|
        ensures Level(g, n)[k] <= Level(g, n + 1)[k]
      {
        DenMono(Names(g), g[k].body, Level(g, n - 1), Level(g, n));
      }
    }
  }

  lemma {:induction false} LevelMono(g: Grammar, n: nat, m: nat)
    requires n <= m
    ensures Below(Level(g, n), Level(g, m))
    decreases m - n
  {
    if n < m {
      LevelUp(g, n);
      LevelMono(g, n + 1, m);
    }
  }

  lemma {:induction false} LevelBelow(g: Grammar, n: nat)
    ensures Below(Level(g, n), Languages(g))
  {
  }

  /** A string matched with the help of the languages is matched at some level already. */
  lemma {:induction false} DenAtLevel(g: Grammar, e: Node, w: Word) returns (n: nat)
    requires w in Den(Names(g), e, Languages(g))
    ensures w in Den(Names(g), e, Level(g, n))
    decreases e, 1, 0
  {
    var names, env := Names(g), Languages(g);
    n := 0;
    match e.id {
      case Seq => n := SeqAtLevel(g, e.children, w);
      case Or =>
        if w in DenOr(names, e.children, env) { n := OrAtLevel(g, e.children, w); }
      case Repeat =>
        var m: nat :| w in Power(DenSeq(names, e.children, env), m);
        n := PowerAtLevel(g, e.children, m, w);
        assert w in Power(DenSeq(names, e.children, Level(g, n)), m);
      case Rule =>
        n :| w in Level(g, n)[Target(names, e)];
      case _ =>
    }
  }

  lemma {:induction false} SeqAtLevel(g: Grammar, es: seq<Node>, w: Word) returns (n: nat)
    requires w in DenSeq(Names(g), es, Languages(g))
    ensures w in DenSeq(Names(g), es, Level(g, n))
    decreases es, 0, 0
  {
    n := 0;
    if es != [] {
      var names, env := Names(g), Languages(g);
      var i: nat :| i <= |w| && w[..i] in Den(names, es[0], env) && w[i..] in DenSeq(names, es[1..], env);
      var n1 := DenAtLevel(g, es[0], w[..i]);
      var n2 := SeqAtLevel(g, es[1..], w[i..]);
      n := if n1 < n2 then n2 else n1;
      LevelMono(g, n1, n);
      LevelMono(g, n2, n);
      DenMono(names, es[0], Level(g, n1), Level(g, n));
      DenSeqMono(names, es[1..], Level(g, n2), Level(g, n));
    }
  }

  lemma {:induction false} OrAtLevel(g: Grammar, es: seq<Node>, w: Word) returns (n: nat)
    requires w in DenOr(Names(g), es, Languages(g))
    ensures w in DenOr(Names(g), es, Level(g, n))
    decreases es, 0, 0
  {
    if w in Den(Names(g), es[0], Languages(g)) {
      n := DenAtLevel(g, es[0], w);
    } else {
      n := OrAtLevel(g, es[1..], w);
    }
  }

  lemma {:induction false} PowerAtLevel(g: Grammar, es: seq<Node>, m: nat, w: Word) returns (n: nat)
    requires w in Power(DenSeq(Names(g), es, Languages(g)), m)
    ensures w in Power(DenSeq(Names(g), es, Level(g, n)), m)
    decreases es, 1, m
  {
    hide Level, Languages, DenSeq, Names;
    n := 0;
    if m > 0 {
      var names := Names(g);
      var a := DenSeq(names, es, Languages(g));
      var i: nat :| i <= |w| && w[..i] in a && w[i..] in Power(a, m - 1);
      var n1 := SeqAtLevel(g, es, w[..i]);
      var n2 := PowerAtLevel(g, es, m - 1, w[i..]);
      n := if n1 < n2 then n2 else n1;
      LevelMono(g, n1, n);
      LevelMono(g, n2, n);
      DenSeqMono(names, es, Level(g, n1), Level(g, n));
      DenSeqMono(names, es, Level(g, n2), Level(g, n));
      var b := DenSeq(names, es, Level(g, n));
      PowerMono(DenSeq(names, es, Level(g, n2)), b, m - 1);
      assert w[..i] in b && w[i..] in Power(b, m - 1);
    }
  }

  /** The languages solve the grammar's own equations. */
  lemma {:induction false} LanguagesFixpoint(g: Grammar)
    ensures Fixpoint(g, Languages(g))
  {
    var names, env := Names(g), Languages(g);
    forall k | 0 <= k < |g|
      ensures env[k] == Den(names, g[k].body, env)
    {
      forall w | w in env[k]
        ensures w in Den(names, g[k].body, env)
      {
        var n: nat :| w in Level(g, n)[k];
        LevelBelow(g, n - 1);
        DenMono(names, g[k].body, Level(g, n - 1), env);
      }
      forall w | w in Den(names, g[k].body, env)
        ensures w in env[k]
      {
        var n := DenAtLevel(g, g[k].body, w);
        assert w in Level(g, n + 1)[k];
      }
    }
  }

  /** They are the least solution. */
  lemma {:induction false} LanguagesLeast(g: Grammar, env: seq<Lang>)
    requires Fixpoint(g, env)
    ensures Below(Languages(g), env)
  {
    forall n: nat
      ensures Below(Level(g, n), env)
    {
      LevelBelowFixpoint(g, env, n);
    }
  }

  lemma {:induction false} LevelBelowFixpoint(g: Grammar, env: seq<Lang>, n: nat)
    requires Fixpoint(g, env)
    ensures Below(Level(g, n), env)
  {
    if n > 0 {
      LevelBelowFixpoint(g, env, n - 1);
      forall k | 0 <= k < |g|
        ensures Level(g, n)[k] <= env[k]
      {
        DenMono(Names(g), g[k].body, Level(g, n - 1), env);
      }
    }
  }

  /** Two grammars whose languages solve each other's equations define the same languages. */
  lemma {:induction false} MutualSolutions(g: Grammar, g': Grammar)
    requires |g| == |g'|
    requires Fixpoint(g', Languages(g)) && Fixpoint(g, Languages(g'))
    ensures Languages(g) == Languages(g')
  {
    LanguagesLeast(g, Languages(g'));
    LanguagesLeast(g', Languages(g));
    assert forall k :: 0 <= k < |g| ==> Languages(g)[k] == Languages(g')[k];
  }
}
