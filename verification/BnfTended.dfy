/** What simplification leaves of the shape of bodies: enough, but under a body that never matches, for alternatives to
  * be moved out of repetitions next.
  */
module BnfTended {
  import opened Wrappers
  import opened BnfGrammar
  import opened BnfSimplify
  import opened BnfPreserve
  import opened BnfAntlr

  /** Only nodes whose children count have any. */
  predicate Bare(e: Node) {
    (!Inner(e.id) ==> e.children == []) && forall c :: c in e.children ==> Bare(c)
  }

  /** The same, but for what is left under nodes that never match. */
  predicate Tended(e: Node) {
    && (!Inner(e.id) && !e.id.Never? ==> e.children == [])
    && (Inner(e.id) ==> forall c :: c in e.children ==> Tended(c))
  }

  /** No repetition has more than one child, not even under nodes that never match. */
  predicate Slim(e: Node) {
    (e.id.Repeat? ==> |e.children| <= 1) && forall c :: c in e.children ==> Slim(c)
  }

  /** An assertion of the step that comes next fails at the node or below it: a repetition has no child, or alternatives
    * in one are none.
    */
  predicate Stumbles(e: Node) {
    || (e.id.Repeat? && (e.children == [] || (e.children[0].id.Or? && e.children[0].children == [])))
    || exists c :: c in e.children && Stumbles(c)
  }

  /** As long as no repetition has several children, that is all that can be wrong. */
  lemma {:induction false} FilledIffNoStumble(e: Node)
    requires Slim(e)
    ensures Filled(e) <==> !Stumbles(e)
  {
    forall c | c in e.children
      ensures Filled(c) <==> !Stumbles(c)
    {
      FilledIffNoStumble(c);
    }
  }

  /** All bodies are tended and slim, and every reference, also what is left under a NEVER, is to a rule. */
  ghost predicate Kempt(g: Grammar) {
    Closed(g) && forall k :: 0 <= k < |g| ==> Tended(g[k].body) && Slim(g[k].body)
  }

  ghost predicate Neat(names: seq<RuleName>, e: Node) {
    Tended(e) && Slim(e) && RefersBelow(names, e, |names|)
  }

  ghost predicate AllNeat(names: seq<RuleName>, es: seq<Node>) {
    forall c :: c in es ==> Neat(names, c) && Shaped(names, c)
  }

  lemma {:induction false} NodeStaysNeat(g: Grammar, d: nat, at: Context, e: Node)
    requires WellFormed(g) && Kempt(g) && Places(g, d, at, e) && Shaped(Names(g), e) && Neat(Names(g), e)
    requires at.Top? ==> e == g[d].body
    requires Safe(g, d, at, Refs(Names(g), e))
    ensures var e' := SimplifyNode(g, d, at, e).node; Neat(Names(g), e') && Shaped(Names(g), e')
    decreases e, 1
  {
    NodeRefers(g, d, at, e);
    hide FinishSeq, FinishOr, FinishRepeat;
    var names := Names(g);
    match e.id {
      case Seq | Or | Repeat =>
        ChildrenStayNeat(g, d, at, e, [], e.children);
        FinishedNeat(names, e, SimplifyChildren(g, d, at, e, [], e.children));
      case Rule =>
        InlineCases(g, d, at, e);
        var k := Target(names, e);
        var e' := InlineRule(g, d, at, e).node;
        if e' != e {
          SameNeat(names, g[k].body, e');
        }
      case _ =>
    }
  }

  lemma {:induction false} SameNeat(names: seq<RuleName>, e: Node, e': Node)
    requires e'.id == e.id && e'.name == e.name && e'.children == e.children
    requires Shaped(names, e) && Neat(names, e)
    ensures Neat(names, e')
  {
  }

  lemma {:induction false} ChildrenStayNeat(g: Grammar, d: nat, at: Context, parent: Node, left: seq<Node>,
          rest: seq<Node>)
    requires WellFormed(g) && Kempt(g) && Places(g, d, at, parent) && Inner(parent.id) && AllNeat(Names(g), rest)
    requires Safe(g, d, Within(at, parent, left, rest), RefsOf(Names(g), rest))
    ensures AllNeat(Names(g), SimplifyChildren(g, d, at, parent, left, rest).nodes)
    ensures |SimplifyChildren(g, d, at, parent, left, rest).nodes| <= |rest|
    decreases rest, 0
  {
    if rest != [] {
      var at' := Within(at, parent, left, rest[1..]);
      var s := SimplifyNode(g, d, at', rest[0]);
      NodeStaysNeat(g, d, at', rest[0]);
      var kept := if Drops(s.node.id) then [] else [s.node];
      ChildrenStayNeat(g, d, at, parent, left + kept, rest[1..]);
      hide SimplifyNode, Shaped, Neat;
    }
  }

  lemma {:induction false} FinishedNeat(names: seq<RuleName>, e: Node, s: Steps)
    requires AllNeat(names, s.nodes) && (e.id.Repeat? ==> |s.nodes| <= 1)
    ensures e.id.Seq? ==> Neat(names, FinishSeq(e, s).node)
    ensures e.id.Or? ==> Neat(names, FinishOr(e, s).node)
    ensures e.id.Repeat? ==> Neat(names, FinishRepeat(e, s).node)
  {
    if |s.nodes| == 1 {
      SameNeat(names, s.nodes[0], UseChild(e, s.nodes[0]));
      assert UseChild(e.(children := s.nodes, optional := e.optional || s.nop), s.nodes[0]) == UseChild(e, s.nodes[0]);
    }
  }

  lemma {:induction false} RuleStaysKempt(g: Grammar, d: nat)
    requires WellFormed(g) && Kempt(g) && d < |g| && !SelfInlines(g, d)
    ensures Kempt(WithBody(g, d, SimplifyRule(g, d).node))
  {
    assert RefersBelow(Names(g), g[d].body, |g|);
    NodeStaysNeat(g, d, Top, g[d].body);
    hide SimplifyRule, RefersBelow, Tended, Slim, Refs;
  }

  lemma {:induction false} PassStaysKempt(g: Grammar, d: nat)
    requires WellFormed(g) && Kempt(g) && d <= |g| && !PassSelfInlines(g, d)
    ensures Kempt(SimplifyFrom(g, d).grammar)
    decreases |g| - d
  {
    hide Kempt, SimplifyRule, Languages, SelfInlines;
    if d < |g| {
      RuleStaysKempt(g, d);
      RulePreserved(g, d);
      PassStaysKempt(WithBody(g, d, SimplifyRule(g, d).node), d + 1);
    }
  }

  /** Bodies as they are written meet the condition. */
  lemma {:induction false} BareIsKempt(g: Grammar)
    requires WellFormed(g) && forall k :: 0 <= k < |g| ==> Bare(g[k].body)
    ensures Kempt(g)
  {
    forall k | 0 <= k < |g|
      ensures Tended(g[k].body) && Slim(g[k].body) && RefersBelow(Names(g), g[k].body, |g|)
    {
      BareIsNeat(Names(g), g[k].body);
    }
  }

  lemma {:induction false} BareIsNeat(names: seq<RuleName>, e: Node)
    requires Bare(e) && Shaped(names, e)
    ensures Tended(e) && Slim(e) && RefersBelow(names, e, |names|)
  {
    forall c | c in e.children
      ensures Tended(c) && Slim(c) && RefersBelow(names, c, |names|)
    {
      BareIsNeat(names, c);
    }
  }

  /** In normal form, whatever can match is as the next step needs it. */
  lemma {:induction false} NormalIsFilled(g: Grammar, e: Node)
    requires Shaped(Names(g), e) && Normal(g, e) && Tended(e) && !e.id.Never?
    ensures Filled(e) && Bare(e)
  {
    forall c | c in e.children
      ensures Filled(c) && Bare(c) && (c.id.Or? ==> c.children != [])
    {
      NormalIsFilled(g, c);
    }
  }

  lemma {:induction false} NormalFormFilled(g: Grammar)
    requires WellFormed(g) && NormalForm(g) && Kempt(g)
    ensures forall k :: 0 <= k < |g| && !g[k].body.id.Never? ==> Filled(g[k].body)
  {
    forall k | 0 <= k < |g| && !g[k].body.id.Never?
      ensures Filled(g[k].body)
    {
      NormalIsFilled(g, g[k].body);
    }
  }

  // ------------------------------------------------------------- the exception

  const TO_X := Node(Rule, Some("x"), 0, false, [])
  const NO_WAY := Node(Or, None, 0, false, [])
  const AGAIN_X := Node(Repeat, None, 0, false, [TO_X])
  const AGAIN_NO_WAY := Node(Repeat, None, 0, false, [NO_WAY])
  const NEVERMORE := Node(Never, None, 0, false, [])
  const STUCK := Node(Seq, None, 0, false, [NEVERMORE, AGAIN_X])
  const LEFT := Node(Never, None, 0, false, [AGAIN_NO_WAY])

  /** `r : NEVER (x)*` and `x`, marked to be inlined and without alternatives. */
  const LEFTOVER: Grammar := [Def(Text("r"), false, STUCK), Def(Text("x"), true, NO_WAY)]

  /** One pass brings it to normal form, with a repetition of no alternatives left under a NEVER. */
  lemma {:induction false} LeftoverUnfilled()
    ensures WellFormed(LEFTOVER) && (forall k :: 0 <= k < |LEFTOVER| ==> Bare(LEFTOVER[k].body))
    ensures var g := SimplifyFrom(LEFTOVER, 0).grammar;
            NormalForm(g) && |g| == 2 && g[0].body.id.Never? && !Filled(g[0].body) && Stumbles(g[0].body)
  {
    var g := LEFTOVER;
    var names := Names(g);
    assert names == [Text("r"), Text("x")];
    assert names[0] == Text("r") && names[1] == Text("x");
    assert Target(names, TO_X) == 1;
    assert Bare(STUCK) by { assert STUCK.children == [NEVERMORE, AGAIN_X] && AGAIN_X.children == [TO_X]; }
    assert Shaped(names, TO_X) && Shaped(names, AGAIN_X) && Shaped(names, STUCK) && Shaped(names, NO_WAY);
    LeftoverFirst();
    var g' := WithBody(g, 0, LEFT);
    assert SimplifyChildren(g', 1, Top, NO_WAY, [], []) == Steps([], false, false, false);
    assert SimplifyRule(g', 1) == Step(NO_WAY.(id := Never, children := []), true);
    var g'' := WithBody(g', 1, NEVERMORE);
    assert SimplifyFrom(g'', 2) == Pass(g'', false);
    assert SimplifyFrom(g', 1).grammar == g'' && SimplifyFrom(g, 0).grammar == g'';
    assert LEFT.children[0] == AGAIN_NO_WAY && AGAIN_NO_WAY.children[0] == NO_WAY;
    assert AGAIN_NO_WAY in LEFT.children && !Filled(AGAIN_NO_WAY) && Stumbles(AGAIN_NO_WAY);
  }

  lemma {:induction false} LeftoverFirst()
    ensures SimplifyRule(LEFTOVER, 0) == Step(LEFT, true)
  {
    var g := LEFTOVER;
    var names := Names(g);
    assert names[0] == Text("r") && names[1] == Text("x");
    assert Target(names, TO_X) == 1;
    var none := Steps([], false, false, false);
    var rest := [NEVERMORE, AGAIN_X];
    var at := Within(Top, STUCK, [], []);
    assert InlineRule(g, 0, Within(at, AGAIN_X, [], []), TO_X) == Step(NO_WAY, true);
    var xs := [TO_X];
    assert xs[0] == TO_X && xs[1..] == [];
    assert SimplifyNode(g, 0, Within(at, AGAIN_X, [], xs[1..]), xs[0]) == Step(NO_WAY, true);
    assert SimplifyChildren(g, 0, at, AGAIN_X, [] + [NO_WAY], xs[1..]) == none;
    assert SimplifyChildren(g, 0, at, AGAIN_X, [], xs) == Steps([NO_WAY] + [], false, false, true);
    assert SimplifyNode(g, 0, at, AGAIN_X) == Step(AGAIN_NO_WAY, true);
    var tail := [AGAIN_X];
    assert rest[0] == NEVERMORE && rest[1..] == tail && tail[0] == AGAIN_X && tail[1..] == [];
    assert SimplifyChildren(g, 0, Top, STUCK, [] + [AGAIN_NO_WAY], tail[1..]) == none;
    assert SimplifyChildren(g, 0, Top, STUCK, [], tail) == Steps([AGAIN_NO_WAY] + [], false, false, true);
    var nothing: seq<Node> := [];
    assert nothing + nothing == nothing;
    assert SimplifyNode(g, 0, Within(Top, STUCK, [], rest[1..]), NEVERMORE) == Step(NEVERMORE, false);
    assert SimplifyChildren(g, 0, Top, STUCK, nothing, rest) ==
           Prepend(Step(NEVERMORE, false), Steps([AGAIN_NO_WAY] + [], false, false, true));
    assert SimplifyChildren(g, 0, Top, STUCK, [], rest) == Steps([] + [AGAIN_NO_WAY], true, false, true);
  }
}
