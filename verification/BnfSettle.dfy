/** When simplification comes to rest: a static condition on the grammar under which every run ends, in
  * normal form, without ever inlining a rule into itself.
  *
  * The condition needs to know which rules may end up being inlined. Those are the marked ones, and the ones
  * whose body may shrink to a lone reference once parts of it turn out to match never or nothing.
  */
module BnfSettle {
  import opened BnfGrammar
  import opened BnfSimplify
  import opened BnfPreserve

  /** What a node may become: NEVER, NOP, or a lone reference. */
  datatype May = May(never: bool, nop: bool, ref: bool)

  /** The same for alternatives: all NEVER, all gone, one of them NOP, or one a reference and all others NEVER. */
  datatype Alternatives = Alternatives(never: bool, gone: bool, nop: bool, ref: bool)

  predicate AtMost(a: May, b: May) {
    (a.never ==> b.never) && (a.nop ==> b.nop) && (a.ref ==> b.ref)
  }

  /** What a node may become, given what the rules may become. */
  function MayBecome(names: seq<RuleName>, e: Node, cert: seq<May>): May
    decreases e, 1
  {
    match e.id
    case Seq => MayInSequence(names, e.children, cert)
    case Or =>
      var a := MayAmong(names, e.children, cert);
      May(!e.optional && a.never, a.gone && (e.optional || a.nop), !e.optional && a.ref)
    case Repeat => May(false, MayAmong(names, e.children, cert).gone, false)
    case Rule =>
      var k := Target(names, e);
      if k < |cert| then cert[k].(ref := true) else May(true, true, true)
    case Never => May(true, false, false)
    case Nop => May(false, true, false)
    case _ => May(false, false, false)
  }

  function MayInSequence(names: seq<RuleName>, es: seq<Node>, cert: seq<May>): May
    decreases es, 0
  {
    if es == [] then May(false, true, false) else
      var a, b := MayBecome(names, es[0], cert), MayInSequence(names, es[1..], cert);
      May(a.never || b.never, a.nop && b.nop, (a.ref && b.nop) || (a.nop && b.ref))
  }

  function MayAmong(names: seq<RuleName>, es: seq<Node>, cert: seq<May>): Alternatives
    decreases es, 0
  {
    if es == [] then Alternatives(true, true, false, false) else
      var a, b := MayBecome(names, es[0], cert), MayAmong(names, es[1..], cert);
      Alternatives(a.never && b.never, (a.never || a.nop) && b.gone, a.nop || b.nop,
                   (a.ref && b.never) || (a.never && b.ref))
  }

  /** `cert` allows every rule what its body may become. */
  ghost predicate Sound(g: Grammar, cert: seq<May>) {
    |cert| == |g| && forall k :: 0 <= k < |g| ==> AtMost(MayBecome(Names(g), g[k].body, cert), cert[k])
  }

  predicate MayInline(g: Grammar, cert: seq<May>, k: nat)
    requires k < |g| == |cert|
  {
    g[k].inlineRule || cert[k].ref
  }

  /** Rules that may be inlined refer, among those, to lower-ranked ones only. */
  ghost predicate Ranked(g: Grammar, cert: seq<May>, rank: seq<nat>) {
    |g| == |cert| == |rank| &&
    forall k, j | 0 <= k < |g| && 0 <= j < |g| && MayInline(g, cert, k) && MayInline(g, cert, j) ::
      j in Refs(Names(g), g[k].body) ==> rank[j] < rank[k]
  }

  /** The rules that may be inlined do not refer to one another in a circle. */
  ghost predicate Settles(g: Grammar) {
    exists cert: seq<May>, rank: seq<nat> :: Sound(g, cert) && Ranked(g, cert, rank)
  }

  // ---------------------------------------------------------------- weights

  /** The size of a node, where a reference weighs what `weight` says its rule does. */
  ghost function Weight(names: seq<RuleName>, e: Node, weight: seq<nat>): (n: nat)
    ensures n > 0
    decreases e, 1
  {
    if Inner(e.id) then 2 + WeightOf(names, e.children, weight)
    else if e.id.Rule? && Target(names, e) < |weight| then 1 + weight[Target(names, e)]
    else 1
  }

  ghost function WeightOf(names: seq<RuleName>, es: seq<Node>, weight: seq<nat>): nat
    decreases es, 0
  {
    if es == [] then 0 else Weight(names, es[0], weight) + WeightOf(names, es[1..], weight)
  }

  /** A reference outweighs anything it may be replaced by. */
  ghost predicate Outweighs(g: Grammar, cert: seq<May>, weight: seq<nat>) {
    |g| == |cert| == |weight| &&
    forall k :: 0 <= k < |g| ==>
      weight[k] > 0 && (MayInline(g, cert, k) ==> weight[k] >= Weight(Names(g), g[k].body, weight))
  }

  lemma {:induction false} WeightAgrees(names: seq<RuleName>, e: Node, a: seq<nat>, b: seq<nat>)
    requires |a| == |b| && forall j :: j in Refs(names, e) && j < |a| ==> a[j] == b[j]
    ensures Weight(names, e, a) == Weight(names, e, b)
    decreases e, 1
  {
    if Inner(e.id) { WeightOfAgrees(names, e.children, a, b); }
  }

  lemma {:induction false} WeightOfAgrees(names: seq<RuleName>, es: seq<Node>, a: seq<nat>, b: seq<nat>)
    requires |a| == |b| && forall j :: j in RefsOf(names, es) && j < |a| ==> a[j] == b[j]
    ensures WeightOf(names, es, a) == WeightOf(names, es, b)
    decreases es, 0
  {
    if es != [] {
      WeightAgrees(names, es[0], a, b);
      WeightOfAgrees(names, es[1..], a, b);
    }
  }

  /** Weights for a ranked grammar, rank by rank. */
  lemma {:induction false} WeightsUpTo(g: Grammar, cert: seq<May>, rank: seq<nat>, r: nat) returns (weight: seq<nat>)
    requires Ranked(g, cert, rank)
    ensures |weight| == |g|
    ensures forall k :: 0 <= k < |g| ==> weight[k] > 0
    ensures forall k :: 0 <= k < |g| && MayInline(g, cert, k) && rank[k] < r ==>
              weight[k] >= Weight(Names(g), g[k].body, weight)
  {
    if r == 0 {
      weight := seq(|g|, k => 1);
    } else {
      var w := WeightsUpTo(g, cert, rank, r - 1);
      weight := seq(|g|, k requires 0 <= k < |g| =>
        if MayInline(g, cert, k) && rank[k] == r - 1 then Weight(Names(g), g[k].body, w) else w[k]);
      forall k | 0 <= k < |g| && MayInline(g, cert, k) && rank[k] < r
        ensures weight[k] >= Weight(Names(g), g[k].body, weight)
      {
        WeightAgrees(Names(g), g[k].body, w, weight);
      }
    }
  }

  function Highest(rank: seq<nat>): (r: nat)
    ensures forall k :: 0 <= k < |rank| ==> rank[k] < r
  {
    if rank == [] then 0 else
      var r := Highest(rank[1..]);
      assert forall k :: 1 <= k < |rank| ==> rank[k] == rank[1..][k - 1];
      if rank[0] < r then r else rank[0] + 1
  }

  lemma {:induction false} WeightsExist(g: Grammar, cert: seq<May>, rank: seq<nat>) returns (weight: seq<nat>)
    requires Ranked(g, cert, rank)
    ensures Outweighs(g, cert, weight)
  {
    weight := WeightsUpTo(g, cert, rank, Highest(rank));
  }

  // -------------------------------------------------------------- invariants

  /** What holds of the grammar throughout a run. */
  ghost predicate Stable(g: Grammar, cert: seq<May>, rank: seq<nat>, weight: seq<nat>) {
    WellFormed(g) && Sound(g, cert) && Ranked(g, cert, rank) && Outweighs(g, cert, weight)
  }

  /** A rule that may be inlined never refers to itself. */
  lemma {:induction false} NoSelfReference(g: Grammar, cert: seq<May>, rank: seq<nat>, d: nat)
    requires Sound(g, cert) && Ranked(g, cert, rank) && d < |g|
    ensures g[d].inlineRule || g[d].body.id.Rule? ==> d !in Refs(Names(g), g[d].body)
    ensures !SelfInlines(g, d)
  {
    assert g[d].body.id.Rule? ==> MayBecome(Names(g), g[d].body, cert).ref;
    if MayInline(g, cert, d) && d in Refs(Names(g), g[d].body) {
      assert false;
    }
  }

  /** An edited node is smaller, may become no more than before, and refers to nothing new but by inlining. */
  ghost predicate Shrinks(g: Grammar, cert: seq<May>, weight: seq<nat>, e: Node, s: Step) {
    var names := Names(g);
    && Weight(names, s.node, weight) + (if s.changed then 1 else 0) <= Weight(names, e, weight)
    && AtMost(MayBecome(names, s.node, cert), MayBecome(names, e, cert))
    && Refs(names, s.node) <= Expanded(g, Refs(names, e))
  }

  ghost predicate AllShrink(g: Grammar, cert: seq<May>, weight: seq<nat>, es: seq<Node>, s: Steps) {
    var names := Names(g);
    var m, m' := MayInSequence(names, es, cert), MayInSequence(names, s.nodes, cert);
    var a, a' := MayAmong(names, es, cert), MayAmong(names, s.nodes, cert);
    && WeightOf(names, s.nodes, weight) + (if s.changed then 1 else 0) <= WeightOf(names, es, weight)
    && RefsOf(names, s.nodes) <= Expanded(g, RefsOf(names, es))
    && (s.never ==> m.never)
    && (!s.never ==> AtMost(m', m))
    && (a'.gone ==> a.gone) && (a.gone && a'.nop ==> a.nop) && (s.nop ==> a.nop)
    && (!s.nop && a'.never ==> a.never) && (!s.nop && a'.ref ==> a.ref) && (a'.nop ==> a.nop)
    && AllShaped(names, s.nodes)
    && (s.nop ==> s.changed)
  }

  lemma {:induction false} NodeShrinks(g: Grammar, cert: seq<May>, rank: seq<nat>, weight: seq<nat>, d: nat,
          at: Context, e: Node)
    requires Stable(g, cert, rank, weight) && Places(g, d, at, e) && Shaped(Names(g), e)
    requires at.Top? ==> e == g[d].body
    requires Refs(Names(g), e) <= Refs(Names(g), g[d].body)
    ensures Shrinks(g, cert, weight, e, SimplifyNode(g, d, at, e))
    ensures Shaped(Names(g), SimplifyNode(g, d, at, e).node)
    decreases e, 1
  {
    hide Shrinks, AllShrink, FinishSeq, FinishOr, FinishRepeat, Stable, Weight, MayBecome;
    match e.id {
      case Seq =>
        ChildrenShrink(g, cert, rank, weight, d, at, e, [], e.children);
        SeqShrinks(g, cert, weight, e, SimplifyChildren(g, d, at, e, [], e.children));
      case Or =>
        ChildrenShrink(g, cert, rank, weight, d, at, e, [], e.children);
        OrShrinks(g, cert, weight, e, SimplifyChildren(g, d, at, e, [], e.children));
      case Repeat =>
        ChildrenShrink(g, cert, rank, weight, d, at, e, [], e.children);
        RepeatShrinks(g, cert, weight, e, SimplifyChildren(g, d, at, e, [], e.children));
      case Rule =>
        RuleShrinks(g, cert, rank, weight, d, at, e);
      case _ =>
        Unchanged(g, cert, weight, e);
    }
  }

  lemma {:induction false} Unchanged(g: Grammar, cert: seq<May>, weight: seq<nat>, e: Node)
    ensures Shrinks(g, cert, weight, e, Step(e, false))
  {
  }

  lemma {:induction false} RuleShrinks(g: Grammar, cert: seq<May>, rank: seq<nat>, weight: seq<nat>, d: nat,
          at: Context, e: Node)
    requires Stable(g, cert, rank, weight) && Places(g, d, at, e) && Shaped(Names(g), e) && e.id.Rule?
    requires at.Top? ==> e == g[d].body
    requires Refs(Names(g), e) <= Refs(Names(g), g[d].body)
    ensures Shrinks(g, cert, weight, e, InlineRule(g, d, at, e))
    ensures Shaped(Names(g), InlineRule(g, d, at, e).node)
  {
    var names := Names(g);
    NoSelfReference(g, cert, rank, d);
    InlineCases(g, d, at, e);
    var k := Target(names, e);
    var s := InlineRule(g, d, at, e);
    if s.changed && s.node == e && k != d {
      PlugRoot(at, e);
      assert g[k].body.id.Rule?;
    }
    if s.node != e || s.changed {
      SameMeasures(names, g[k].body, s.node, cert, weight);
      assert MayInline(g, cert, k) || Weight(names, g[k].body, weight) == 1;
    }
  }

  /** Nodes that differ in the number of a generated rule only. */
  lemma {:induction false} SameMeasures(names: seq<RuleName>, e: Node, e': Node, cert: seq<May>, weight: seq<nat>)
    requires e'.id == e.id && e'.name == e.name && e'.optional == e.optional && e'.children == e.children
    requires Shaped(names, e)
    ensures Weight(names, e', weight) == Weight(names, e, weight)
    ensures MayBecome(names, e', cert) == MayBecome(names, e, cert)
    ensures Refs(names, e') == Refs(names, e) && Shaped(names, e')
  {
  }

  lemma {:induction false} SeqShrinks(g: Grammar, cert: seq<May>, weight: seq<nat>, e: Node, s: Steps)
    requires e.id.Seq? && AllShrink(g, cert, weight, e.children, s)
    ensures Shrinks(g, cert, weight, e, FinishSeq(e, s)) && Shaped(Names(g), FinishSeq(e, s).node)
  {
    LoneMeasures(Names(g), e, s.nodes, cert, weight);
  }

  lemma {:induction false} OrShrinks(g: Grammar, cert: seq<May>, weight: seq<nat>, e: Node, s: Steps)
    requires e.id.Or? && AllShrink(g, cert, weight, e.children, s)
    ensures Shrinks(g, cert, weight, e, FinishOr(e, s)) && Shaped(Names(g), FinishOr(e, s).node)
  {
    LoneMeasures(Names(g), e.(children := s.nodes, optional := e.optional || s.nop), s.nodes, cert, weight);
  }

  lemma {:induction false} RepeatShrinks(g: Grammar, cert: seq<May>, weight: seq<nat>, e: Node, s: Steps)
    requires e.id.Repeat? && |s.nodes| <= 1 && AllShrink(g, cert, weight, e.children, s)
    ensures Shrinks(g, cert, weight, e, FinishRepeat(e, s)) && Shaped(Names(g), FinishRepeat(e, s).node)
  {
  }

  lemma {:induction false} LoneMeasures(names: seq<RuleName>, e: Node, nodes: seq<Node>, cert: seq<May>,
          weight: seq<nat>)
    ensures |nodes| == 1 && Shaped(names, nodes[0]) ==>
              var e' := UseChild(e, nodes[0]);
              Weight(names, e', weight) == WeightOf(names, nodes, weight) &&
              MayBecome(names, e', cert) == MayInSequence(names, nodes, cert) &&
              MayAmong(names, nodes, cert) ==
                (var m := MayBecome(names, e', cert); Alternatives(m.never, m.never || m.nop, m.nop, m.ref)) &&
              Refs(names, e') == RefsOf(names, nodes) && Shaped(names, e')
  {
    if |nodes| == 1 && Shaped(names, nodes[0]) {
      SameMeasures(names, nodes[0], UseChild(e, nodes[0]), cert, weight);
      assert nodes[1..] == [];
    }
  }

  lemma {:induction false} ChildrenShrink(g: Grammar, cert: seq<May>, rank: seq<nat>, weight: seq<nat>, d: nat,
          at: Context,
                                          parent: Node, left: seq<Node>, rest: seq<Node>)
    requires Stable(g, cert, rank, weight) && Places(g, d, at, parent) && Inner(parent.id)
    requires AllShaped(Names(g), rest)
    requires RefsOf(Names(g), rest) <= Refs(Names(g), g[d].body)
    ensures AllShrink(g, cert, weight, rest, SimplifyChildren(g, d, at, parent, left, rest))
    ensures |SimplifyChildren(g, d, at, parent, left, rest).nodes| <= |rest|
    decreases rest, 0
  {
    hide Shrinks, AllShrink, Stable;
    if rest == [] {
      NothingShrinks(g, cert, weight);
    } else {
      var at' := Within(at, parent, left, rest[1..]);
      var s := SimplifyNode(g, d, at', rest[0]);
      NodeShrinks(g, cert, rank, weight, d, at', rest[0]);
      var kept := if Drops(s.node.id) then [] else [s.node];
      ChildrenShrink(g, cert, rank, weight, d, at, parent, left + kept, rest[1..]);
      ConsShrinks(g, cert, weight, s, rest, SimplifyChildren(g, d, at, parent, left + kept, rest[1..]));
    }
  }

  lemma {:induction false} NothingShrinks(g: Grammar, cert: seq<May>, weight: seq<nat>)
    ensures AllShrink(g, cert, weight, [], Steps([], false, false, false))
  {
  }

  lemma {:induction false} ConsShrinks(g: Grammar, cert: seq<May>, weight: seq<nat>, s: Step, rest: seq<Node>, r: Steps)
    requires rest != [] && Shrinks(g, cert, weight, rest[0], s) && Shaped(Names(g), s.node)
    requires AllShrink(g, cert, weight, rest[1..], r)
    ensures AllShrink(g, cert, weight, rest, Prepend(s, r))
  {
    if Drops(s.node.id) {
      assert [] + r.nodes == r.nodes;
    } else {
      assert ([s.node] + r.nodes)[1..] == r.nodes;
    }
  }

  // ----------------------------------------------------------- rules and passes

  ghost function Total(g: Grammar, weight: seq<nat>, d: nat): nat
    requires d <= |g|
  {
    if d == 0 then 0 else Weight(Names(g), g[d - 1].body, weight) + Total(g, weight, d - 1)
  }

  lemma {:induction false} TotalAfter(g: Grammar, weight: seq<nat>, d: nat, body: Node, n: nat)
    requires d < |g| && n <= |g|
    ensures var g' := WithBody(g, d, body);
            Total(g', weight, n) + (if d < n then Weight(Names(g), g[d].body, weight) else 0) ==
            Total(g, weight, n) + (if d < n then Weight(Names(g), body, weight) else 0)
  {
    if n > 0 {
      TotalAfter(g, weight, d, body, n - 1);
    }
  }

  /** Rewriting one rule keeps the grammar stable and never makes it larger. */
  lemma {:induction false} RuleSettles(g: Grammar, cert: seq<May>, rank: seq<nat>, weight: seq<nat>, d: nat)
    requires Stable(g, cert, rank, weight) && d < |g|
    ensures !SelfInlines(g, d)
    ensures var s := SimplifyRule(g, d);
            var g' := WithBody(g, d, s.node);
            && Stable(g', cert, rank, weight)
            && Total(g', weight, |g|) + (if s.changed then 1 else 0) <= Total(g, weight, |g|)
  {
    var s := SimplifyRule(g, d);
    var g' := WithBody(g, d, s.node);
    NoSelfReference(g, cert, rank, d);
    NodeShrinks(g, cert, rank, weight, d, Top, g[d].body);
    TotalAfter(g, weight, d, s.node, |g|);
    RanksKept(g, cert, rank, d, s.node);
  }

  lemma {:induction false} RanksKept(g: Grammar, cert: seq<May>, rank: seq<nat>, d: nat, body: Node)
    requires Sound(g, cert) && Ranked(g, cert, rank) && d < |g|
    requires Refs(Names(g), body) <= Expanded(g, Refs(Names(g), g[d].body))
    ensures Ranked(WithBody(g, d, body), cert, rank)
  {
    var names := Names(g);
    var g' := WithBody(g, d, body);
    hide Sound, Expanded;
    forall j | 0 <= j < |g| && MayInline(g, cert, d) && MayInline(g, cert, j) && j in Refs(names, body)
      ensures rank[j] < rank[d]
    {
      NewReferenceRanked(g, cert, rank, d, j);
    }
    hide Refs;
    assert forall k, j | 0 <= k < |g| && 0 <= j < |g| && MayInline(g', cert, k) && MayInline(g', cert, j) ::
             j in Refs(names, g'[k].body) ==> rank[j] < rank[k];
  }

  lemma {:induction false} NewReferenceRanked(g: Grammar, cert: seq<May>, rank: seq<nat>, d: nat, j: nat)
    requires Sound(g, cert) && Ranked(g, cert, rank) && d < |g| && j < |g| && MayInline(g, cert, d) &&
             MayInline(g, cert, j)
    requires j in Expanded(g, Refs(Names(g), g[d].body))
    ensures rank[j] < rank[d]
  {
    if j !in Refs(Names(g), g[d].body) {
      var k :| k in Refs(Names(g), g[d].body) && k < |g| && Inlinable(g, k) && j in Refs(Names(g), g[k].body);
      InlinableMay(g, cert, k);
      hide Sound;
    }
  }

  /** A rule that is inlined and refers to anything is one the analysis allows to be inlined. */
  lemma {:induction false} InlinableMay(g: Grammar, cert: seq<May>, k: nat)
    requires Sound(g, cert) && k < |g| && Inlinable(g, k) && Refs(Names(g), g[k].body) != {}
    ensures MayInline(g, cert, k)
  {
    assert AtMost(MayBecome(Names(g), g[k].body, cert), cert[k]);
  }

  lemma {:induction false} PassSettles(g: Grammar, cert: seq<May>, rank: seq<nat>, weight: seq<nat>, d: nat)
    requires Stable(g, cert, rank, weight) && d <= |g|
    ensures !PassSelfInlines(g, d)
    ensures var p := SimplifyFrom(g, d);
            && |p.grammar| == |g| && Stable(p.grammar, cert, rank, weight)
            && Total(p.grammar, weight, |g|) + (if p.changed then 1 else 0) <= Total(g, weight, |g|)
    decreases |g| - d
  {
    hide Stable, SimplifyRule, SelfInlines, Total;
    if d < |g| {
      RuleSettles(g, cert, rank, weight, d);
      PassSettles(WithBody(g, d, SimplifyRule(g, d).node), cert, rank, weight, d + 1);
    }
  }

  /** A grammar that settles has only so many changes in it: every run of changing passes is bounded, and
    * none of its passes inlines a rule into itself.
    */
  lemma {:induction false} RunsEnd(gs: seq<Grammar>, cert: seq<May>, rank: seq<nat>, weight: seq<nat>)
    requires Run(gs) && Stable(gs[0], cert, rank, weight)
    requires forall i :: 0 <= i < |gs| - 1 ==> SimplifyFrom(gs[i], 0).changed
    ensures var last := gs[|gs| - 1];
            && |last| == |gs[0]| && Stable(last, cert, rank, weight)
            && Total(last, weight, |last|) + |gs| - 1 <= Total(gs[0], weight, |gs[0]|)
    ensures Languages(gs[|gs| - 1]) == Languages(gs[0])
  {
    hide Languages, Total, Sound, Ranked, Outweighs;
    var n := |gs| - 1;
    if n > 0 {
      var front := gs[..n];
      assert forall i :: 0 <= i < |front| - 1 ==> front[i] == gs[i];
      RunsEnd(front, cert, rank, weight);
      PassSettles(gs[n - 1], cert, rank, weight, 0);
      PassPreserved(gs[n - 1], 0);
    }
  }
}
