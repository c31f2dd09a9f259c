/** Why simplification ends when no rule to be inlined leads back to itself and no lone references form a circle: every
  * change takes weight away, or else shortens a chain of lone references.
  */
module BnfHeavy {
  import opened BnfGrammar
  import opened BnfSimplify
  import opened BnfPreserve
  import opened BnfSettle
  import opened BnfLimits

  // ------------------------------------------------------------------ weights

  /** A rule weighs no less than those it refers to, and a rule to be inlined no less than its body. */
  ghost predicate Heavy(g: Grammar, weight: seq<nat>) {
    |weight| == |g| && forall d :: 0 <= d < |g| ==> HeavyAt(g, weight, d)
  }

  ghost predicate HeavyAt(g: Grammar, weight: seq<nat>, d: nat)
    requires d < |g| == |weight|
  {
    && weight[d] > 0
    && (forall j :: j in Refs(Names(g), g[d].body) && j < |g| ==> weight[j] <= weight[d])
    && (g[d].inlineRule ==> Weight(Names(g), g[d].body, weight) <= weight[d])
  }

  ghost predicate Reaches(g: Grammar, a: nat, b: nat) {
    a == b || exists p :: Leads(g, p, a, b)
  }

  ghost function Reach(g: Grammar, a: nat): set<nat> {
    set b | b in FirstRules(|g|) && Reaches(g, a, b)
  }

  ghost function Depth(g: Grammar, k: nat): nat {
    |Reach(g, k)|
  }

  lemma {:induction false} ReachesOn(g: Grammar, d: nat, j: nat, b: nat)
    requires d < |g| && j in Refs(Names(g), g[d].body) && Reaches(g, j, b)
    ensures exists p :: Leads(g, p, d, b)
  {
    if j == b {
      assert Leads(g, [d, j], d, b);
    } else {
      var p :| Leads(g, p, j, b);
      var q := [d] + p;
      assert forall i :: 0 < i < |q| ==> q[i] == p[i - 1];
      assert Path(g, q);
      assert Leads(g, q, d, b);
    }
  }

  /** From what a rule refers to no more can be reached than from it, and less if it is to be inlined. */
  lemma {:induction false} DepthsFall(g: Grammar, d: nat, j: nat)
    requires d < |g| && j in Refs(Names(g), g[d].body) && NoInlineLoop(g)
    ensures Depth(g, j) <= Depth(g, d) && (g[d].inlineRule ==> Depth(g, j) < Depth(g, d))
  {
    hide Leads;
    forall b | b in Reach(g, j)
      ensures b in Reach(g, d)
    {
      ReachesOn(g, d, j, b);
    }
    if g[d].inlineRule && d in Reach(g, j) {
      ReachesOn(g, d, j, d);
    }
    assert d in Reach(g, d);
    Smaller(Reach(g, j), Reach(g, d));
  }

  /** Enough for the rules of a depth, when bodies have no more than `size` nodes. */
  function Enough(size: nat, depth: nat): (n: nat)
    ensures n > 0
  {
    if depth == 0 then 1 else Enough(size, depth - 1) + size * (1 + Enough(size, depth - 1))
  }

  lemma {:induction false} EnoughGrows(size: nat, a: nat, b: nat)
    requires a <= b
    ensures Enough(size, a) <= Enough(size, b)
    ensures a < b ==> size * (1 + Enough(size, a)) <= Enough(size, b)
    decreases b
  {
    if a < b {
      EnoughGrows(size, a, b - 1);
    }
  }

  /** A node weighs no more than that many times the nodes there are. */
  lemma {:induction false} WeightBounded(names: seq<RuleName>, e: Node, weight: seq<nat>, most: nat)
    requires forall j :: j in Refs(names, e) && j < |weight| ==> weight[j] <= most
    ensures Weight(names, e, weight) <= Weight(names, e, []) * (1 + most)
    decreases e, 1
  {
    if Inner(e.id) {
      WeightOfBounded(names, e.children, weight, most);
      Distribute(2, WeightOf(names, e.children, []), most);
    }
  }

  lemma {:induction false} WeightOfBounded(names: seq<RuleName>, es: seq<Node>, weight: seq<nat>, most: nat)
    requires forall j :: j in RefsOf(names, es) && j < |weight| ==> weight[j] <= most
    ensures WeightOf(names, es, weight) <= WeightOf(names, es, []) * (1 + most)
    decreases es, 0
  {
    if es != [] {
      WeightBounded(names, es[0], weight, most);
      WeightOfBounded(names, es[1..], weight, most);
      Distribute(Weight(names, es[0], []), WeightOf(names, es[1..], []), most);
    }
  }

  lemma {:induction false} Distribute(a: nat, b: nat, most: nat)
    ensures (a + b) * (1 + most) == a * (1 + most) + b * (1 + most) && a <= a * (1 + most)
  {
  }

  lemma {:induction false} TotalAtLeast(g: Grammar, weight: seq<nat>, d: nat, n: nat)
    requires d < n <= |g|
    ensures Weight(Names(g), g[d].body, weight) <= Total(g, weight, n)
  {
    if d < n - 1 {
      TotalAtLeast(g, weight, d, n - 1);
    }
  }

  /** If no rule to be inlined leads back to itself, there are such weights. */
  lemma {:induction false} HeavyExists(g: Grammar) returns (weight: seq<nat>)
    requires NoInlineLoop(g)
    ensures Heavy(g, weight)
  {
    var size := Total(g, [], |g|);
    weight := seq(|g|, k requires 0 <= k < |g| => Enough(size, Depth(g, k)));
    forall d | 0 <= d < |g|
      ensures HeavyAt(g, weight, d)
    {
      HeavyThere(g, weight, size, d);
    }
  }

  lemma {:induction false} HeavyThere(g: Grammar, weight: seq<nat>, size: nat, d: nat)
    requires NoInlineLoop(g) && size == Total(g, [], |g|) && d < |g| == |weight|
    requires forall k :: 0 <= k < |g| ==> weight[k] == Enough(size, Depth(g, k))
    ensures HeavyAt(g, weight, d)
  {
    hide Depth, Enough, NoInlineLoop, Total;
    var names, e, l := Names(g), g[d].body, Depth(g, d);
    forall j | j in Refs(names, e) && j < |g|
      ensures weight[j] <= weight[d] && (g[d].inlineRule ==> l > 0 && weight[j] <= Enough(size, l - 1))
    {
      DepthsFall(g, d, j);
      EnoughGrows(size, Depth(g, j), l);
      if g[d].inlineRule { EnoughGrows(size, Depth(g, j), l - 1); }
    }
    if g[d].inlineRule {
      BodyLight(g, weight, size, d);
    }
  }

  lemma {:induction false} BodyLight(g: Grammar, weight: seq<nat>, size: nat, d: nat)
    requires size == Total(g, [], |g|) && d < |g| == |weight| && weight[d] == Enough(size, Depth(g, d))
    requires forall j :: j in Refs(Names(g), g[d].body) && j < |g| ==>
                           Depth(g, d) > 0 && weight[j] <= Enough(size, Depth(g, d) - 1)
    ensures Weight(Names(g), g[d].body, weight) <= weight[d]
  {
    DepthPositive(g, d);
    hide Depth, Total, Enough, Weight;
    var names, e, most := Names(g), g[d].body, Enough(size, Depth(g, d) - 1);
    WeightBounded(names, e, weight, most);
    TotalAtLeast(g, [], d, |g|);
    EnoughGrows(size, Depth(g, d) - 1, Depth(g, d));
    MoreOf(Weight(names, e, []), size, most);
  }

  lemma {:induction false} MoreOf(a: nat, b: nat, most: nat)
    requires a <= b
    ensures a * (1 + most) <= b * (1 + most)
  {
  }

  lemma {:induction false} DepthPositive(g: Grammar, d: nat)
    requires d < |g|
    ensures Depth(g, d) > 0
  {
    assert d in Reach(g, d);
  }

  // ------------------------------------------------------------------- nodes

  /** An edited node is lighter, or weighs the same and is lower, and it is lower if anything has changed. */
  ghost predicate Lighter(names: seq<RuleName>, weight: seq<nat>, height: seq<nat>, e: Node, s: Step) {
    var w, w' := Weight(names, e, weight), Weight(names, s.node, weight);
    && w' <= w
    && (w' == w ==> Weight(names, s.node, height) + (if s.changed then 1 else 0) <= Weight(names, e, height))
    && (Inner(e.id) && !Inner(s.node.id) ==> w' < w)
  }

  ghost predicate AllLighter(names: seq<RuleName>, weight: seq<nat>, height: seq<nat>, es: seq<Node>, s: Steps) {
    var w, w' := WeightOf(names, es, weight), WeightOf(names, s.nodes, weight);
    && w' <= w
    && (w' == w ==>
          && !s.never && !s.nop
          && WeightOf(names, s.nodes, height) + (if s.changed then 1 else 0) <= WeightOf(names, es, height))
    && AllShaped(names, s.nodes)
  }

  /** What holds of the grammar while a rule is edited. */
  ghost predicate Poised(g: Grammar, weight: seq<nat>, height: seq<nat>) {
    WellFormed(g) && NoInlineLoop(g) && Heavy(g, weight) && Chained(g, height)
  }

  lemma {:induction false} NodeLighter(g: Grammar, weight: seq<nat>, height: seq<nat>, d: nat, at: Context, e: Node)
    requires Poised(g, weight, height) && Places(g, d, at, e) && Shaped(Names(g), e)
    requires at.Top? ==> e == g[d].body
    requires Refs(Names(g), e) <= Refs(Names(g), g[d].body)
    ensures Lighter(Names(g), weight, height, e, SimplifyNode(g, d, at, e))
    ensures Shaped(Names(g), SimplifyNode(g, d, at, e).node)
    decreases e, 1
  {
    hide Lighter, AllLighter, FinishSeq, FinishOr, FinishRepeat, Poised, Weight;
    match e.id {
      case Seq | Or | Repeat =>
        ChildrenLighter(g, weight, height, d, at, e, [], e.children);
        FinishedLighter(Names(g), weight, height, e, SimplifyChildren(g, d, at, e, [], e.children));
      case Rule =>
        RuleLighter(g, weight, height, d, at, e);
      case _ =>
        SameLighter(Names(g), weight, height, e);
    }
  }

  lemma {:induction false} SameLighter(names: seq<RuleName>, weight: seq<nat>, height: seq<nat>, e: Node)
    ensures Lighter(names, weight, height, e, Step(e, false))
  {
  }

  lemma {:induction false} RuleLighter(g: Grammar, weight: seq<nat>, height: seq<nat>, d: nat, at: Context, e: Node)
    requires Poised(g, weight, height) && Places(g, d, at, e) && Shaped(Names(g), e) && e.id.Rule?
    requires at.Top? ==> e == g[d].body
    requires Refs(Names(g), e) <= Refs(Names(g), g[d].body)
    ensures Lighter(Names(g), weight, height, e, InlineRule(g, d, at, e))
    ensures Shaped(Names(g), InlineRule(g, d, at, e).node)
  {
    var names, k, s := Names(g), Target(Names(g), e), InlineRule(g, d, at, e);
    NeverSelfInlines(g, d);
    InlineCases(g, d, at, e);
    assert e.name.Some? && k < |g| && Shaped(names, g[k].body);
    assert Descends(g, height, k) && Descends(g, height, d) && HeavyAt(g, weight, k);
    if s.changed {
      assert k != d;
      assert s.node.id == g[k].body.id && s.node.children == g[k].body.children;
      SameMeasures(names, g[k].body, s.node, [], weight);
      SameMeasures(names, g[k].body, s.node, [], height);
      hide Poised, InlineRule, Descends, HeavyAt;
      BodyLighter(g, weight, height, k);
    }
  }

  /** What may replace a reference is lighter than it, or weighs the same and is lower. */
  lemma {:induction false} BodyLighter(g: Grammar, weight: seq<nat>, height: seq<nat>, k: nat)
    requires Poised(g, weight, height) && k < |g| && Inlinable(g, k)
    ensures var w := Weight(Names(g), g[k].body, weight);
            && w <= 1 + weight[k]
            && (w == 1 + weight[k] ==> Weight(Names(g), g[k].body, height) < 1 + height[k])
  {
    assert HeavyAt(g, weight, k) && Descends(g, height, k) && Shaped(Names(g), g[k].body);
    hide Poised;
  }

  lemma {:induction false} FinishedLighter(names: seq<RuleName>, weight: seq<nat>, height: seq<nat>, e: Node, s: Steps)
    requires Inner(e.id) && AllLighter(names, weight, height, e.children, s) && (e.id.Repeat? ==> |s.nodes| <= 1)
    ensures e.id.Seq? ==> Lighter(names, weight, height, e, FinishSeq(e, s)) && Shaped(names, FinishSeq(e, s).node)
    ensures e.id.Or? ==> Lighter(names, weight, height, e, FinishOr(e, s)) && Shaped(names, FinishOr(e, s).node)
    ensures e.id.Repeat? ==>
              Lighter(names, weight, height, e, FinishRepeat(e, s)) && Shaped(names, FinishRepeat(e, s).node)
  {
    if |s.nodes| == 1 {
      assert s.nodes[0] in s.nodes && s.nodes[1..] == [];
      SameMeasures(names, s.nodes[0], UseChild(e, s.nodes[0]), [], weight);
      assert UseChild(e.(children := s.nodes, optional := e.optional || s.nop), s.nodes[0]) == UseChild(e, s.nodes[0]);
    }
  }

  lemma {:induction false} ChildrenLighter(g: Grammar, weight: seq<nat>, height: seq<nat>, d: nat, at: Context,
          parent: Node, left: seq<Node>, rest: seq<Node>)
    requires Poised(g, weight, height) && Places(g, d, at, parent) && Inner(parent.id) && AllShaped(Names(g), rest)
    requires RefsOf(Names(g), rest) <= Refs(Names(g), g[d].body)
    ensures var s := SimplifyChildren(g, d, at, parent, left, rest);
            AllLighter(Names(g), weight, height, rest, s) && |s.nodes| <= |rest|
    decreases rest, 0
  {
    hide Lighter, AllLighter, Poised;
    if rest == [] {
      NothingLighter(Names(g), weight, height);
    } else {
      var at' := Within(at, parent, left, rest[1..]);
      var s := SimplifyNode(g, d, at', rest[0]);
      NodeLighter(g, weight, height, d, at', rest[0]);
      var kept := if Drops(s.node.id) then [] else [s.node];
      ChildrenLighter(g, weight, height, d, at, parent, left + kept, rest[1..]);
      ConsLighter(Names(g), weight, height, s, rest, SimplifyChildren(g, d, at, parent, left + kept, rest[1..]));
    }
  }

  lemma {:induction false} NothingLighter(names: seq<RuleName>, weight: seq<nat>, height: seq<nat>)
    ensures AllLighter(names, weight, height, [], Steps([], false, false, false))
  {
  }

  lemma {:induction false} ConsLighter(names: seq<RuleName>, weight: seq<nat>, height: seq<nat>, s: Step,
          rest: seq<Node>, r: Steps)
    requires rest != [] && Lighter(names, weight, height, rest[0], s) && Shaped(names, s.node)
    requires AllLighter(names, weight, height, rest[1..], r)
    ensures AllLighter(names, weight, height, rest, Prepend(s, r))
  {
    if Drops(s.node.id) {
      assert [] + r.nodes == r.nodes;
    } else {
      assert ([s.node] + r.nodes)[1..] == r.nodes;
    }
  }
}
