/** Simplification preserves the language of every rule, unless a rule marked to be inlined is inlined
  * into itself.
  */
module BnfPreserve {
  import opened Wrappers
  import opened BnfGrammar
  import opened BnfSimplify

  /** The rules referred to from the live part of a node. */
  ghost function Refs(names: seq<RuleName>, e: Node): set<nat> {
    if e.id.Rule? then {Target(names, e)}
    else if Inner(e.id) then RefsOf(names, e.children)
    else {}
  }

  ghost function RefsOf(names: seq<RuleName>, es: seq<Node>): set<nat> {
    if es == [] then {} else Refs(names, es[0]) + RefsOf(names, es[1..])
  }

  /** The references of rules that may replace one of `refs`. */
  ghost function Expanded(g: Grammar, refs: set<nat>): set<nat> {
    refs + set k, j | k in refs && k < |g| && Inlinable(g, k) && j in Refs(Names(g), g[k].body) :: j
  }

  ghost predicate AllShaped(names: seq<RuleName>, es: seq<Node>) {
    forall c :: c in es ==> Shaped(names, c)
  }

  /** A rule marked to be inlined is about to be copied into its own body: below the root of the body there
    * is a reference to the rule itself.
    */
  ghost predicate SelfInlines(g: Grammar, d: nat)
    requires d < |g|
  {
    g[d].inlineRule && !g[d].body.id.Rule? && d in Refs(Names(g), g[d].body)
  }

  /** The same for the part of a body at a hole. */
  ghost predicate Safe(g: Grammar, d: nat, at: Context, refs: set<nat>)
    requires d < |g|
  {
    g[d].inlineRule && d in refs ==> at.Top? && g[d].body.id.Rule?
  }

  /** All rules but the one being edited mean what their bodies say. */
  ghost predicate Settled(g: Grammar, d: nat, env: seq<Lang>) {
    |env| == |g| && forall k :: 0 <= k < |g| && k != d ==> env[k] == Den(Names(g), g[k].body, env)
  }

  // ------------------------------------------------------- what a reference becomes

  /** A reference is either left alone or replaced by a copy of another rule's body. */
  lemma {:induction false} InlineCases(g: Grammar, d: nat, at: Context, e: Node)
    requires Places(g, d, at, e) && e.id.Rule? && Shaped(Names(g), e)
    requires at.Top? ==> e == g[d].body
    requires Safe(g, d, at, Refs(Names(g), e))
    ensures var e' := InlineRule(g, d, at, e).node;
            var k := Target(Names(g), e);
            e' == e ||
            (k != d && e'.id == g[k].body.id && e'.name == g[k].body.name &&
             e'.optional == g[k].body.optional && e'.children == g[k].body.children && Inlinable(g, k))
    ensures InlineRule(g, d, at, e).changed ==> Inlinable(g, Target(Names(g), e))
    ensures InlineRule(g, d, at, e).changed && Target(Names(g), e) == d ==> g[d].body == e
  {
    PlugRoot(at, e);
  }

  /** Nodes that differ in the number of a generated rule only. */
  lemma {:induction false} SameMeaning(names: seq<RuleName>, e: Node, e': Node, env: seq<Lang>)
    requires e'.id == e.id && e'.name == e.name && e'.optional == e.optional && e'.children == e.children
    requires Shaped(names, e)
    ensures Den(names, e', env) == Den(names, e, env)
    ensures Shaped(names, e') && Refs(names, e') == Refs(names, e)
  {
  }

  // -------------------------------------------------------------- one node

  /** The children `s` that remain of `rest` mean the same, whichever way their parent combines them. */
  ghost predicate Reduces(names: seq<RuleName>, rest: seq<Node>, s: Steps, env: seq<Lang>) {
    && AllShaped(names, s.nodes) && |s.nodes| <= |rest|
    && (s.never ==> DenSeq(names, rest, env) == EMPTY)
    && (!s.never ==> DenSeq(names, s.nodes, env) == DenSeq(names, rest, env))
    && DenOr(names, rest, env) == DenOr(names, s.nodes, env) + (if s.nop then EPSILON else EMPTY)
    && (|rest| <= 1 ==> Star(DenSeq(names, rest, env)) == Star(DenSeq(names, s.nodes, env)))
  }

  lemma {:induction false} NodePreserved(g: Grammar, d: nat, at: Context, e: Node, env: seq<Lang>)
    requires WellFormed(g) && Places(g, d, at, e) && Shaped(Names(g), e)
    requires at.Top? ==> e == g[d].body
    requires Safe(g, d, at, Refs(Names(g), e)) && Settled(g, d, env)
    ensures var e' := SimplifyNode(g, d, at, e).node;
            Den(Names(g), e', env) == Den(Names(g), e, env) && Shaped(Names(g), e')
    decreases e, 1
  {
    hide Reduces, FinishSeq, FinishOr, FinishRepeat, Star, DenSeq, DenOr;
    var names := Names(g);
    match e.id {
      case Seq =>
        ChildrenPreserved(g, d, at, e, [], e.children, env);
        SeqPreserved(names, e, SimplifyChildren(g, d, at, e, [], e.children), env);
      case Or =>
        ChildrenPreserved(g, d, at, e, [], e.children, env);
        OrPreserved(names, e, SimplifyChildren(g, d, at, e, [], e.children), env);
      case Repeat =>
        ChildrenPreserved(g, d, at, e, [], e.children, env);
        RepeatPreserved(names, e, SimplifyChildren(g, d, at, e, [], e.children), env);
      case Rule =>
        InlineCases(g, d, at, e);
        var k := Target(names, e);
        var e' := InlineRule(g, d, at, e).node;
        if e' != e {
          SameMeaning(names, g[k].body, e', env);
        }
      case _ =>
    }
  }

  lemma {:induction false} SeqPreserved(names: seq<RuleName>, e: Node, s: Steps, env: seq<Lang>)
    requires e.id.Seq? && Reduces(names, e.children, s, env)
    ensures Den(names, FinishSeq(e, s).node, env) == Den(names, e, env) && Shaped(names, FinishSeq(e, s).node)
  {
    hide Cat, Star;
    Lone(names, e, s.nodes, env);
  }

  lemma {:induction false} OrPreserved(names: seq<RuleName>, e: Node, s: Steps, env: seq<Lang>)
    requires e.id.Or? && Reduces(names, e.children, s, env)
    ensures Den(names, FinishOr(e, s).node, env) == Den(names, e, env) && Shaped(names, FinishOr(e, s).node)
  {
    hide Cat, Star;
    Lone(names, e.(children := s.nodes, optional := e.optional || s.nop), s.nodes, env);
    OptionalOnce(DenOr(names, s.nodes, env), s.nop, e.optional);
  }

  /** Being optional twice over is being optional. */
  lemma {:induction false} OptionalOnce(a: Lang, x: bool, y: bool)
    ensures (a + if x then EPSILON else EMPTY) + (if y then EPSILON else EMPTY) == a + if x || y then EPSILON else EMPTY
    ensures a + EMPTY == a && EMPTY + a == a
  {
  }

  lemma {:induction false} RepeatPreserved(names: seq<RuleName>, e: Node, s: Steps, env: seq<Lang>)
    requires e.id.Repeat? && |e.children| <= 1 && Reduces(names, e.children, s, env)
    ensures Den(names, FinishRepeat(e, s).node, env) == Den(names, e, env) && Shaped(names, FinishRepeat(e, s).node)
  {
    StarTrivial();
    hide Cat, Star;
  }

  /** A lone child says what it says whether it is combined in sequence or in alternation. */
  lemma {:induction false} Lone(names: seq<RuleName>, e: Node, nodes: seq<Node>, env: seq<Lang>)
    ensures nodes == [] ==> DenSeq(names, nodes, env) == EPSILON && DenOr(names, nodes, env) == EMPTY
    ensures |nodes| == 1 && Shaped(names, nodes[0]) ==>
              var e' := UseChild(e, nodes[0]);
              Den(names, e', env) == DenSeq(names, nodes, env) == DenOr(names, nodes, env) && Shaped(names, e')
  {
    if |nodes| == 1 && Shaped(names, nodes[0]) {
      SameMeaning(names, nodes[0], UseChild(e, nodes[0]), env);
      CatRightUnit(Den(names, nodes[0], env));
      OptionalOnce(Den(names, nodes[0], env), false, false);
      assert nodes[1..] == [];
    }
  }

  lemma {:induction false} ChildrenPreserved(g: Grammar, d: nat, at: Context, parent: Node,
                                             left: seq<Node>, rest: seq<Node>, env: seq<Lang>)
    requires WellFormed(g) && Places(g, d, at, parent) && Inner(parent.id) && AllShaped(Names(g), rest)
    requires Safe(g, d, Within(at, parent, left, rest), RefsOf(Names(g), rest)) && Settled(g, d, env)
    ensures Reduces(Names(g), rest, SimplifyChildren(g, d, at, parent, left, rest), env)
    decreases rest, 0
  {
    hide Reduces, Den;
    var names := Names(g);
    if rest == [] {
      NothingReduces(names, env);
    } else {
      var at' := Within(at, parent, left, rest[1..]);
      var s := SimplifyNode(g, d, at', rest[0]);
      NodePreserved(g, d, at', rest[0], env);
      var kept := if Drops(s.node.id) then [] else [s.node];
      ChildrenPreserved(g, d, at, parent, left + kept, rest[1..], env);
      var r := SimplifyChildren(g, d, at, parent, left + kept, rest[1..]);
      ConsReduces(names, s, rest, r, env);
    }
  }

  lemma {:induction false} NothingReduces(names: seq<RuleName>, env: seq<Lang>)
    ensures Reduces(names, [], Steps([], false, false, false), env)
  {
    OptionalOnce(EMPTY, false, false);
  }

  /** One child after the other: the first has become `s`, the others `r`. */
  lemma {:induction false} ConsReduces(names: seq<RuleName>, s: Step, rest: seq<Node>, r: Steps, env: seq<Lang>)
    requires rest != [] && Den(names, s.node, env) == Den(names, rest[0], env) && Shaped(names, s.node)
    requires Reduces(names, rest[1..], r, env)
    ensures Reduces(names, rest, Prepend(s, r), env)
  {
    if Drops(s.node.id) {
      DropReduces(names, s, rest, r, env);
    } else {
      KeepReduces(names, s, rest, r, env);
    }
  }

  lemma {:induction false} DropReduces(names: seq<RuleName>, s: Step, rest: seq<Node>, r: Steps, env: seq<Lang>)
    requires rest != [] && Den(names, s.node, env) == Den(names, rest[0], env) && Drops(s.node.id)
    requires Reduces(names, rest[1..], r, env)
    ensures Reduces(names, rest, Prepend(s, r), env)
  {
    var b := DenSeq(names, rest[1..], env);
    CatNothing(b);
    CatLeftUnit(b);
    StarTrivial();
    DropAlternative(DenOr(names, r.nodes, env), s.node.id.Nop?, r.nop);
    assert Den(names, s.node, env) == if s.node.id.Nop? then EPSILON else EMPTY;
    hide Cat, Star, Den;
    assert [] + r.nodes == r.nodes;
    assert |rest| <= 1 ==> r.nodes == [];
  }

  lemma {:induction false} KeepReduces(names: seq<RuleName>, s: Step, rest: seq<Node>, r: Steps, env: seq<Lang>)
    requires rest != [] && Den(names, s.node, env) == Den(names, rest[0], env)
    requires Shaped(names, s.node) && !Drops(s.node.id)
    requires Reduces(names, rest[1..], r, env)
    ensures Reduces(names, rest, Prepend(s, r), env)
  {
    hide Cat, Star, Den;
    var a := Den(names, s.node, env);
    CatNothing(a);
    Interchange(a, DenOr(names, r.nodes, env), r.nop);
    assert ([s.node] + r.nodes)[1..] == r.nodes;
    assert |rest| <= 1 ==> rest[1..] == [] && r.nodes == [] && !r.never;
  }

  lemma {:induction false} Interchange(a: Lang, b: Lang, nop: bool)
    ensures a + (b + if nop then EPSILON else EMPTY) == (a + b) + if nop then EPSILON else EMPTY
  {
  }

  /** An alternative that matches nothing contributes nothing; one that matches the empty string only, that. */
  lemma {:induction false} DropAlternative(a: Lang, first: bool, others: bool)
    ensures (if first then EPSILON else EMPTY) + (a + if others then EPSILON else EMPTY) ==
            a + if first || others then EPSILON else EMPTY
  {
  }

  // -------------------------------------------------------- rules and passes

  /** Simplifying a rule that is not inlined into itself preserves the languages of all rules. */
  lemma {:induction false} RulePreserved(g: Grammar, d: nat)
    requires WellFormed(g) && d < |g| && !SelfInlines(g, d)
    ensures var g' := WithBody(g, d, SimplifyRule(g, d).node);
            WellFormed(g') && Languages(g') == Languages(g)
  {
    var s := SimplifyRule(g, d);
    var g' := WithBody(g, d, s.node);
    var env, env' := Languages(g), Languages(g');
    LanguagesFixpoint(g);
    LanguagesFixpoint(g');
    NodePreserved(g, d, Top, g[d].body, env);
    NodePreserved(g, d, Top, g[d].body, env');
    hide Languages, Den;
    MutualSolutions(g, g');
  }

  /** Some rule is inlined into itself when the rules from `d` on are simplified. */
  ghost predicate PassSelfInlines(g: Grammar, d: nat)
    decreases |g| - d
  {
    d < |g| && (SelfInlines(g, d) || PassSelfInlines(WithBody(g, d, SimplifyRule(g, d).node), d + 1))
  }

  lemma {:induction false} PassPreserved(g: Grammar, d: nat)
    requires WellFormed(g) && d <= |g| && !PassSelfInlines(g, d)
    ensures var g' := SimplifyFrom(g, d).grammar;
            WellFormed(g') && Languages(g') == Languages(g) && Names(g') == Names(g)
    decreases |g| - d
  {
    hide Languages, SimplifyRule;
    if d < |g| {
      RulePreserved(g, d);
      PassPreserved(WithBody(g, d, SimplifyRule(g, d).node), d + 1);
    }
  }

  /** A run of the simplifier: every grammar is a whole pass over the one before. */
  ghost predicate Run(gs: seq<Grammar>) {
    gs != [] && forall i :: 0 < i < |gs| ==> gs[i] == SimplifyFrom(gs[i - 1], 0).grammar
  }

  // --------------------------------------------- a condition on the grammar a run starts from

  /** Each rule of the path is referred to by the one before it. */
  ghost predicate Path(g: Grammar, p: seq<nat>) {
    |p| >= 2 && forall i :: 0 <= i < |p| - 1 ==> p[i] < |g| && p[i + 1] in Refs(Names(g), g[p[i]].body)
  }

  ghost predicate Leads(g: Grammar, p: seq<nat>, a: nat, b: nat) {
    Path(g, p) && p[0] == a && p[|p| - 1] == b
  }

  /** No rule marked to be inlined leads back to itself, through whatever other rules. */
  ghost predicate NoInlineLoop(g: Grammar) {
    forall d, p :: 0 <= d < |g| && g[d].inlineRule ==> !Leads(g, p, d, d)
  }

  lemma {:induction false} NeverSelfInlines(g: Grammar, d: nat)
    requires NoInlineLoop(g) && d < |g|
    ensures g[d].inlineRule ==> d !in Refs(Names(g), g[d].body)
    ensures !SelfInlines(g, d)
  {
    assert d in Refs(Names(g), g[d].body) ==> Leads(g, [d, d], d, d);
  }

  /** The references an edited node has are those it had, or of rules that it had references to. */
  lemma {:induction false} NodeRefers(g: Grammar, d: nat, at: Context, e: Node)
    requires WellFormed(g) && Places(g, d, at, e) && Shaped(Names(g), e)
    requires at.Top? ==> e == g[d].body
    requires Safe(g, d, at, Refs(Names(g), e))
    ensures var e' := SimplifyNode(g, d, at, e).node;
            Refs(Names(g), e') <= Expanded(g, Refs(Names(g), e)) && Shaped(Names(g), e')
    decreases e, 1
  {
    hide FinishSeq, FinishOr, FinishRepeat;
    var names := Names(g);
    match e.id {
      case Seq | Or | Repeat =>
        var s := SimplifyChildren(g, d, at, e, [], e.children);
        ChildrenRefer(g, d, at, e, [], e.children);
        FinishedRefers(names, e, s);
      case Rule =>
        InlineCases(g, d, at, e);
        var k := Target(names, e);
        var e' := InlineRule(g, d, at, e).node;
        if e' != e {
          SameMeaning(names, g[k].body, e', Languages(g));
        }
      case _ =>
    }
  }

  lemma {:induction false} ChildrenRefer(g: Grammar, d: nat, at: Context, parent: Node, left: seq<Node>,
          rest: seq<Node>)
    requires WellFormed(g) && Places(g, d, at, parent) && Inner(parent.id) && AllShaped(Names(g), rest)
    requires Safe(g, d, Within(at, parent, left, rest), RefsOf(Names(g), rest))
    ensures var s := SimplifyChildren(g, d, at, parent, left, rest);
            && RefsOf(Names(g), s.nodes) <= Expanded(g, RefsOf(Names(g), rest))
            && AllShaped(Names(g), s.nodes) && |s.nodes| <= |rest|
    decreases rest, 0
  {
    if rest != [] {
      var at' := Within(at, parent, left, rest[1..]);
      var s := SimplifyNode(g, d, at', rest[0]);
      NodeRefers(g, d, at', rest[0]);
      var kept := if Drops(s.node.id) then [] else [s.node];
      ChildrenRefer(g, d, at, parent, left + kept, rest[1..]);
      var r := SimplifyChildren(g, d, at, parent, left + kept, rest[1..]);
      RefsCons(Names(g), kept, r.nodes);
      hide SimplifyNode, Shaped;
    }
  }

  lemma {:induction false} RefsCons(names: seq<RuleName>, kept: seq<Node>, rest: seq<Node>)
    requires |kept| <= 1
    ensures RefsOf(names, kept + rest) == (if kept == [] then {} else Refs(names, kept[0])) + RefsOf(names, rest)
  {
    if kept == [] {
      assert kept + rest == rest;
    } else {
      assert (kept + rest)[1..] == rest;
    }
  }

  lemma {:induction false} FinishedRefers(names: seq<RuleName>, e: Node, s: Steps)
    requires AllShaped(names, s.nodes) && (e.id.Repeat? ==> |s.nodes| <= 1)
    ensures e.id.Seq? ==>
              Refs(names, FinishSeq(e, s).node) <= RefsOf(names, s.nodes) && Shaped(names, FinishSeq(e, s).node)
    ensures e.id.Or? ==>
              Refs(names, FinishOr(e, s).node) <= RefsOf(names, s.nodes) && Shaped(names, FinishOr(e, s).node)
    ensures e.id.Repeat? ==>
              Refs(names, FinishRepeat(e, s).node) <= RefsOf(names, s.nodes) && Shaped(names, FinishRepeat(e, s).node)
  {
    if |s.nodes| == 1 {
      SameMeaning(names, s.nodes[0], UseChild(e, s.nodes[0]), []);
      assert s.nodes[1..] == [];
      assert UseChild(e.(children := s.nodes, optional := e.optional || s.nop), s.nodes[0]) == UseChild(e, s.nodes[0]);
    }
  }

  /** A path through the new body of a rule was there, perhaps by a longer way, through the old one. */
  lemma {:induction false} OldPath(g: Grammar, d: nat, body: Node, p: seq<nat>) returns (q: seq<nat>)
    requires d < |g| && Refs(Names(g), body) <= Expanded(g, Refs(Names(g), g[d].body))
    requires Path(WithBody(g, d, body), p)
    ensures Leads(g, q, p[0], p[|p| - 1])
    decreases |p|
  {
    var first := OldEdge(g, d, body, p[0], p[1]);
    if |p| == 2 {
      q := first;
    } else {
      var rest := OldPath(g, d, body, p[1..]);
      q := first + rest[1..];
      assert forall i :: 0 <= i < |q| ==> q[i] == if i < |first| then first[i] else rest[i - |first| + 1];
      assert rest[0] == first[|first| - 1];
    }
  }

  lemma {:induction false} OldEdge(g: Grammar, d: nat, body: Node, a: nat, b: nat) returns (q: seq<nat>)
    requires d < |g| && Refs(Names(g), body) <= Expanded(g, Refs(Names(g), g[d].body))
    requires a < |g| && b in Refs(Names(g), WithBody(g, d, body)[a].body)
    ensures Leads(g, q, a, b)
  {
    if a != d || b in Refs(Names(g), g[d].body) {
      q := [a, b];
    } else {
      var k :| k in Refs(Names(g), g[d].body) && k < |g| && Inlinable(g, k) && b in Refs(Names(g), g[k].body);
      q := [a, k, b];
    }
  }

  lemma {:induction false} LoopsKeptOut(g: Grammar, d: nat)
    requires WellFormed(g) && NoInlineLoop(g) && d < |g|
    ensures NoInlineLoop(WithBody(g, d, SimplifyRule(g, d).node))
  {
    var body := SimplifyRule(g, d).node;
    var g' := WithBody(g, d, body);
    NeverSelfInlines(g, d);
    NodeRefers(g, d, Top, g[d].body);
    hide SimplifyRule, Refs;
    forall k, p | 0 <= k < |g'| && g'[k].inlineRule
      ensures !Leads(g', p, k, k)
    {
      if Leads(g', p, k, k) {
        var q := OldPath(g, d, body, p);
      }
    }
  }

  lemma {:induction false} PassKeepsLoopsOut(g: Grammar, d: nat)
    requires WellFormed(g) && NoInlineLoop(g) && d <= |g|
    ensures !PassSelfInlines(g, d) && NoInlineLoop(SimplifyFrom(g, d).grammar)
    decreases |g| - d
  {
    hide NoInlineLoop, SimplifyRule, Languages, SelfInlines;
    if d < |g| {
      NeverSelfInlines(g, d);
      LoopsKeptOut(g, d);
      RulePreserved(g, d);
      PassKeepsLoopsOut(WithBody(g, d, SimplifyRule(g, d).node), d + 1);
    }
  }

  /** Over any run, however long, every rule keeps its language, if no rule to be inlined leads back to itself at the
    * start.
    */
  lemma {:induction false} RunPreserved(gs: seq<Grammar>)
    requires Run(gs) && WellFormed(gs[0]) && NoInlineLoop(gs[0])
    ensures var last := gs[|gs| - 1]; WellFormed(last) && NoInlineLoop(last) && Languages(last) == Languages(gs[0])
  {
    hide Languages, PassSelfInlines, NoInlineLoop;
    var n := |gs| - 1;
    if n > 0 {
      RunPreserved(gs[..n]);
      PassKeepsLoopsOut(gs[n - 1], 0);
      PassPreserved(gs[n - 1], 0);
    }
  }

  // ------------------------------------------------------ where it goes wrong

  const TOKEN_T := Node(Token, Some("t"), 0, false, [])
  const REF_A := Node(Rule, Some("a"), 0, false, [])

  /** `a : t a`, marked to be inlined. */
  const SELF_INLINED: Grammar := [Def(Text("a"), true, Node(Seq, None, 0, false, [TOKEN_T, REF_A]))]

  /** The rule `a` derives nothing, but simplified once, with the inner `a` replaced by a half-edited copy of
    * its own body, it derives the string `t t`.
    */
  lemma {:induction false} SelfInliningChangesLanguage()
    ensures WellFormed(SELF_INLINED) && SelfInlines(SELF_INLINED, 0)
    ensures Language(SELF_INLINED, 0) == EMPTY
    ensures var g' := SimplifyFrom(SELF_INLINED, 0).grammar;
            |g'| == 1 && var t := Terminal(false, Some("t")); [t, t] in Language(g', 0)
  {
    var g := SELF_INLINED;
    var names := Names(g);
    var body := g[0].body;
    assert names == [Text("a")];
    assert Target(names, REF_A) == 0;
    assert body.children == [TOKEN_T, REF_A];
    assert RefsOf(names, [TOKEN_T, REF_A][1..]) == {0} by { assert [TOKEN_T, REF_A][1..] == [REF_A]; }
    NothingDerived();
    Simplified();
    var g' := SimplifyFrom(g, 0).grammar;
    DerivesTwo(g');
  }

  lemma {:induction false} NothingDerived()
    ensures Language(SELF_INLINED, 0) == EMPTY
  {
    var g := SELF_INLINED;
    var names := Names(g);
    assert names == [Text("a")] && Target(names, REF_A) == 0;
    var env := [EMPTY];
    var es := [TOKEN_T, REF_A];
    assert es[1..] == [REF_A];
    CatNothing(EPSILON);
    CatNothing(Den(names, TOKEN_T, env));
    assert DenSeq(names, es[1..], env) == EMPTY by { assert [REF_A][1..] == []; }
    assert DenSeq(names, es, env) == EMPTY;
    assert Fixpoint(g, env);
    LanguagesLeast(g, env);
  }

  /** `a : t (t ())`, where the inner brackets are an empty sequence. */
  const UNFOLDED := Node(Seq, None, 0, false,
                         [TOKEN_T, Node(Seq, None, 0, false, [TOKEN_T, Node(Seq, None, 0, false, [])])])

  lemma {:induction false} Simplified()
    ensures SimplifyFrom(SELF_INLINED, 0).grammar == WithBody(SELF_INLINED, 0, UNFOLDED)
  {
    var g := SELF_INLINED;
    var body := g[0].body;
    var rest := body.children;
    var at := Within(Top, body, [TOKEN_T], []);
    assert Names(g) == [Text("a")] && Target(Names(g), REF_A) == 0;
    var hole := Node(Seq, None, 0, false, []);
    var inner := Node(Seq, None, 0, false, [TOKEN_T, hole]);
    assert Plug(at, REF_A).id == Seq && Plug(at, REF_A).name == None && !Plug(at, REF_A).optional;
    assert Plug(at, hole).children == [TOKEN_T] + [hole] + [];
    assert InlineRule(g, 0, at, REF_A) == Step(inner, true);
    var refs := [REF_A];
    assert refs[0] == REF_A && refs[1..] == [];
    assert SimplifyNode(g, 0, Within(Top, body, [TOKEN_T], refs[1..]), refs[0]) == Step(inner, true);
    var last := SimplifyChildren(g, 0, Top, body, [TOKEN_T], refs);
    assert SimplifyChildren(g, 0, Top, body, [TOKEN_T] + [inner], refs[1..]) == Steps([], false, false, false);
    assert last == Prepend(Step(inner, true), Steps([], false, false, false));
    assert rest[0] == TOKEN_T && rest[1..] == refs && [] + [TOKEN_T] == [TOKEN_T];
    assert SimplifyNode(g, 0, Within(Top, body, [], rest[1..]), TOKEN_T) == Step(TOKEN_T, false);
    var all := SimplifyChildren(g, 0, Top, body, [], rest);
    assert all.nodes == [TOKEN_T] + ([inner] + []);
    assert all.nodes == [TOKEN_T, inner] && !all.never;
    assert SimplifyRule(g, 0).node == UNFOLDED;
  }

  lemma {:induction false} DerivesTwo(g: Grammar)
    requires g == WithBody(SELF_INLINED, 0, UNFOLDED)
    ensures var t := Terminal(false, Some("t")); [t, t] in Language(g, 0)
  {
    var names, env := Names(g), Level(g, 0);
    var t := Terminal(false, Some("t"));
    var hole := Node(Seq, None, 0, false, []);
    var inner := Node(Seq, None, 0, false, [TOKEN_T, hole]);
    DenPair(names, TOKEN_T, hole, env, [t], []);
    DenPair(names, TOKEN_T, inner, env, [t], [t] + []);
    assert [t] + ([t] + []) == [t, t];
    assert [t, t] in Level(g, 1)[0];
  }

  lemma {:induction false} DenPair(names: seq<RuleName>, a: Node, b: Node, env: seq<Lang>, v: Word, w: Word)
    requires v in Den(names, a, env) && w in Den(names, b, env)
    ensures v + w in DenSeq(names, [a, b], env)
  {
    hide Cat, Den;
    assert [a, b][1..] == [b] && [b][1..] == [];
    DenSeqOne(names, b, env);
    CatMember(Den(names, a, env), Den(names, b, env), v, w);
  }

  lemma {:induction false} DenSeqOne(names: seq<RuleName>, b: Node, env: seq<Lang>)
    ensures DenSeq(names, [b], env) == Den(names, b, env)
  {
    CatRightUnit(Den(names, b, env));
    hide Cat;
    assert [b][1..] == [];
    assert DenSeq(names, [b], env) == Cat(Den(names, b, env), DenSeq(names, [b][1..], env));
  }

  lemma {:induction false} CatMember(a: Lang, b: Lang, v: Word, w: Word)
    requires v in a && w in b
    ensures v + w in Cat(a, b)
  {
    assert (v + w)[..|v|] == v && (v + w)[|v|..] == w;
  }
}
