/** Which alternative comes first. Two words are ordered by a rule when it derives them alike but at one choice, where
  * the first of them takes an earlier alternative than the second. The order of the alternatives is all that this
  * depends on besides the languages, and simplification keeps it.
  */
module BnfOrder {
  import opened Wrappers
  import opened BnfGrammar
  import opened BnfSimplify
  import opened BnfPreserve

  type Order = iset<(Word, Word)>

  ghost const NONE: Order := iset{}

  /** One way that the pair is a pair of `p` within words of `a` and `b`. */
  ghost predicate Amid(a: Lang, p: Order, b: Lang, pair: (Word, Word), x: Word, u: Word, v: Word, y: Word) {
    x in a && (u, v) in p && y in b && pair == (x + u + y, x + v + y)
  }

  /** Pairs of `p` with the same word of `a` before both and the same word of `b` after both. */
  ghost function Around(a: Lang, p: Order, b: Lang): Order {
    iset pair: (Word, Word) | IsAround(a, p, b, pair)
  }

  ghost predicate IsAround(a: Lang, p: Order, b: Lang, pair: (Word, Word)) {
    exists x, u, v, y :: Amid(a, p, b, pair, x, u, v, y)
  }

  /** A word of `a` and one of `b`, neither of them empty. */
  ghost function Across(a: Lang, b: Lang): Order {
    iset pair: (Word, Word) | pair.0 in a && pair.1 in b && pair.0 != [] && pair.1 != []
  }

  /** The pairs that a node orders, given what the rules match and order. That alternatives may match nothing as well is
    * left to the languages.
    */
  ghost function Ord(names: seq<RuleName>, e: Node, env: seq<Lang>, ord: seq<Order>): Order
    decreases e, 1
  {
    match e.id
    case Seq => OrdSeq(names, e.children, env, ord)
    case Or => OrdOr(names, e.children, env, ord)
    case Repeat =>
      var any := Star(DenSeq(names, e.children, env));
      Around(any, OrdSeq(names, e.children, env, ord), any)
    case Rule => if Target(names, e) < |ord| then ord[Target(names, e)] else NONE
    case _ => NONE
  }

  ghost function OrdSeq(names: seq<RuleName>, es: seq<Node>, env: seq<Lang>, ord: seq<Order>): Order
    decreases es, 0
  {
    if es == [] then NONE else
      Around(EPSILON, Ord(names, es[0], env, ord), DenSeq(names, es[1..], env)) +
      Around(Den(names, es[0], env), OrdSeq(names, es[1..], env, ord), EPSILON)
  }

  /** An alternative comes before those after it. */
  ghost function OrdOr(names: seq<RuleName>, es: seq<Node>, env: seq<Lang>, ord: seq<Order>): Order
    decreases es, 0
  {
    if es == [] then NONE else
      Ord(names, es[0], env, ord) + OrdOr(names, es[1..], env, ord) +
      Across(Den(names, es[0], env), DenOr(names, es[1..], env))
  }

  /** What the rules order in at most `n` nested expansions. */
  ghost function OrderLevel(g: Grammar, n: nat): (ord: seq<Order>)
    ensures |ord| == |g|
  {
    if n == 0 then seq(|g|, k => NONE) else
      seq(|g|, k requires 0 <= k < |g| => Ord(Names(g), g[k].body, Languages(g), OrderLevel(g, n - 1)))
  }

  ghost function OrderOf(g: Grammar, k: nat): Order
    requires k < |g|
  {
    iset pair: (Word, Word), n: nat | pair in OrderLevel(g, n)[k] :: pair
  }

  /** The pairs that each rule orders. */
  ghost function Orders(g: Grammar): (ord: seq<Order>)
    ensures |ord| == |g|
  {
    seq(|g|, k requires 0 <= k < |g| => OrderOf(g, k))
  }

  // ------------------------------------------------------------ orders as least fixpoint

  ghost predicate OrdersBelow(a: seq<Order>, b: seq<Order>) {
    |a| == |b| && forall k :: 0 <= k < |a| ==> a[k] <= b[k]
  }

  lemma {:induction false} AroundMono(a: Lang, p: Order, q: Order, b: Lang)
    requires p <= q
    ensures Around(a, p, b) <= Around(a, q, b)
  {
    forall pair | pair in Around(a, p, b)
      ensures pair in Around(a, q, b)
    {
      var x, u, v, y :| Amid(a, p, b, pair, x, u, v, y);
      assert Amid(a, q, b, pair, x, u, v, y);
    }
  }

  lemma {:induction false} OrdMono(names: seq<RuleName>, e: Node, env: seq<Lang>, a: seq<Order>, b: seq<Order>)
    requires OrdersBelow(a, b)
    ensures Ord(names, e, env, a) <= Ord(names, e, env, b)
    decreases e, 1
  {
    hide Around, Star, DenSeq;
    match e.id {
      case Seq => OrdSeqMono(names, e.children, env, a, b);
      case Or => OrdOrMono(names, e.children, env, a, b);
      case Repeat =>
        OrdSeqMono(names, e.children, env, a, b);
        var any := Star(DenSeq(names, e.children, env));
        AroundMono(any, OrdSeq(names, e.children, env, a), OrdSeq(names, e.children, env, b), any);
      case _ =>
    }
  }

  lemma {:induction false} OrdSeqMono(names: seq<RuleName>, es: seq<Node>, env: seq<Lang>, a: seq<Order>, b: seq<Order>)
    requires OrdersBelow(a, b)
    ensures OrdSeq(names, es, env, a) <= OrdSeq(names, es, env, b)
    decreases es, 0
  {
    hide Around, DenSeq, Ord, Den;
    if es != [] {
      OrdMono(names, es[0], env, a, b);
      OrdSeqMono(names, es[1..], env, a, b);
      AroundMono(EPSILON, Ord(names, es[0], env, a), Ord(names, es[0], env, b), DenSeq(names, es[1..], env));
      AroundMono(Den(names, es[0], env), OrdSeq(names, es[1..], env, a), OrdSeq(names, es[1..], env, b), EPSILON);
    }
  }

  lemma {:induction false} OrdOrMono(names: seq<RuleName>, es: seq<Node>, env: seq<Lang>, a: seq<Order>, b: seq<Order>)
    requires OrdersBelow(a, b)
    ensures OrdOr(names, es, env, a) <= OrdOr(names, es, env, b)
    decreases es, 0
  {
    hide Across, DenOr, Ord, Den;
    if es != [] {
      OrdMono(names, es[0], env, a, b);
      OrdOrMono(names, es[1..], env, a, b);
    }
  }

  /** Each rule orders what its body does. */
  ghost predicate Ordered(g: Grammar, env: seq<Lang>, ord: seq<Order>) {
    |ord| == |g| && forall k :: 0 <= k < |g| ==> ord[k] == Ord(Names(g), g[k].body, env, ord)
  }

  lemma {:induction false} OrderLevelWithin(g: Grammar, n: nat)
    ensures OrdersBelow(OrderLevel(g, n), Orders(g))
  {
    hide OrderLevel;
  }

  /** A pair ordered with the help of what the rules order is ordered at some level already. */
  lemma {:induction false} OrdAtLevel(g: Grammar, e: Node, pair: (Word, Word)) returns (n: nat)
    requires pair in Ord(Names(g), e, Languages(g), Orders(g))
    ensures pair in Ord(Names(g), e, Languages(g), OrderLevel(g, n))
    decreases e, 1
  {
    hide Languages, OrderLevel, Names, DenSeq, Star;
    n := 0;
    match e.id {
      case Seq => n := OrdSeqAtLevel(g, e.children, pair);
      case Or => n := OrdOrAtLevel(g, e.children, pair);
      case Repeat =>
        var any, ord := Star(DenSeq(Names(g), e.children, Languages(g))),
                        OrdSeq(Names(g), e.children, Languages(g), Orders(g));
        var x, u, v, y :| Amid(any, ord, any, pair, x, u, v, y);
        n := OrdSeqAtLevel(g, e.children, (u, v));
        assert Amid(any, OrdSeq(Names(g), e.children, Languages(g), OrderLevel(g, n)), any, pair, x, u, v, y);
      case Rule =>
        n :| pair in OrderLevel(g, n)[Target(Names(g), e)];
      case _ =>
    }
  }

  lemma {:induction false} OrdSeqAtLevel(g: Grammar, es: seq<Node>, pair: (Word, Word)) returns (n: nat)
    requires pair in OrdSeq(Names(g), es, Languages(g), Orders(g))
    ensures pair in OrdSeq(Names(g), es, Languages(g), OrderLevel(g, n))
    decreases es, 0
  {
    hide Languages, OrderLevel, Orders, Names, DenSeq, Ord, Den;
    var names, env := Names(g), Languages(g);
    var first, rest := Ord(names, es[0], env, Orders(g)), OrdSeq(names, es[1..], env, Orders(g));
    var a, b := Den(names, es[0], env), DenSeq(names, es[1..], env);
    if pair in Around(EPSILON, first, b) {
      var x, u, v, y :| Amid(EPSILON, first, b, pair, x, u, v, y);
      n := OrdAtLevel(g, es[0], (u, v));
      assert Amid(EPSILON, Ord(names, es[0], env, OrderLevel(g, n)), b, pair, x, u, v, y);
    } else {
      var x, u, v, y :| Amid(a, rest, EPSILON, pair, x, u, v, y);
      n := OrdSeqAtLevel(g, es[1..], (u, v));
      assert Amid(a, OrdSeq(names, es[1..], env, OrderLevel(g, n)), EPSILON, pair, x, u, v, y);
    }
  }

  lemma {:induction false} OrdOrAtLevel(g: Grammar, es: seq<Node>, pair: (Word, Word)) returns (n: nat)
    requires pair in OrdOr(Names(g), es, Languages(g), Orders(g))
    ensures pair in OrdOr(Names(g), es, Languages(g), OrderLevel(g, n))
    decreases es, 0
  {
    hide Languages, OrderLevel, Orders, Names, Across, Ord, Den;
    n := 0;
    if pair in Ord(Names(g), es[0], Languages(g), Orders(g)) {
      n := OrdAtLevel(g, es[0], pair);
    } else if pair in OrdOr(Names(g), es[1..], Languages(g), Orders(g)) {
      n := OrdOrAtLevel(g, es[1..], pair);
    }
  }

  /** The orders solve the grammar's own equations. */
  lemma {:induction false} OrdersFixpoint(g: Grammar)
    ensures Ordered(g, Languages(g), Orders(g))
  {
    hide Languages, Ord;
    var names, env, ord := Names(g), Languages(g), Orders(g);
    forall k | 0 <= k < |g|
      ensures ord[k] == Ord(names, g[k].body, env, ord)
    {
      forall pair | pair in ord[k]
        ensures pair in Ord(names, g[k].body, env, ord)
      {
        var n: nat :| pair in OrderLevel(g, n)[k];
        OrderLevelWithin(g, n - 1);
        OrdMono(names, g[k].body, env, OrderLevel(g, n - 1), ord);
      }
      forall pair | pair in Ord(names, g[k].body, env, ord)
        ensures pair in ord[k]
      {
        var n := OrdAtLevel(g, g[k].body, pair);
        assert pair in OrderLevel(g, n + 1)[k];
      }
    }
  }

  /** They are the least solution. */
  lemma {:induction false} OrdersLeast(g: Grammar, ord: seq<Order>)
    requires Ordered(g, Languages(g), ord)
    ensures OrdersBelow(Orders(g), ord)
  {
    hide OrderLevel, Ord;
    forall n: nat
      ensures OrdersBelow(OrderLevel(g, n), ord)
    {
      LevelWithinSolution(g, ord, n);
    }
  }

  lemma {:induction false} LevelWithinSolution(g: Grammar, ord: seq<Order>, n: nat)
    requires Ordered(g, Languages(g), ord)
    ensures OrdersBelow(OrderLevel(g, n), ord)
  {
    hide Languages, Ord;
    if n > 0 {
      LevelWithinSolution(g, ord, n - 1);
      forall k | 0 <= k < |g|
        ensures OrderLevel(g, n)[k] <= ord[k]
      {
        OrdMono(Names(g), g[k].body, Languages(g), OrderLevel(g, n - 1), ord);
      }
    }
  }

  /** Two grammars of the same languages whose orders solve each other's equations order the same pairs. */
  lemma {:induction false} MutualOrders(g: Grammar, g': Grammar)
    requires |g| == |g'| && Languages(g) == Languages(g')
    requires Ordered(g', Languages(g), Orders(g)) && Ordered(g, Languages(g), Orders(g'))
    ensures Orders(g) == Orders(g')
  {
    hide Languages, Ordered, OrderOf;
    OrdersLeast(g, Orders(g'));
    OrdersLeast(g', Orders(g));
    assert forall k :: 0 <= k < |g| ==> Orders(g)[k] == Orders(g')[k];
  }

  // ------------------------------------------------------------ one node

  lemma {:induction false} AroundNothing(a: Lang, p: Order, b: Lang)
    requires a == EMPTY || p == NONE || b == EMPTY
    ensures Around(a, p, b) == NONE
  {
  }

  lemma {:induction false} AroundAlone(p: Order)
    ensures Around(EPSILON, p, EPSILON) == p
  {
    forall pair: (Word, Word)
      ensures pair in Around(EPSILON, p, EPSILON) <==> pair in p
    {
      if pair in p {
        assert [] + pair.0 + [] == pair.0 && [] + pair.1 + [] == pair.1;
        assert Amid(EPSILON, p, EPSILON, pair, [], pair.0, pair.1, []);
      }
      if pair in Around(EPSILON, p, EPSILON) {
        var x, u, v, y :| Amid(EPSILON, p, EPSILON, pair, x, u, v, y);
        assert x + u + y == u && x + v + y == v;
      }
    }
  }

  /** Whether alternatives may match nothing makes no difference. */
  lemma {:induction false} AcrossIgnores(a: Lang, b: Lang, nop: bool)
    ensures Across(a, b + if nop then EPSILON else EMPTY) == Across(a, b)
    ensures Across(EMPTY, b) == NONE && Across(EPSILON, b) == NONE && Across(a, EMPTY) == NONE
  {
  }

  /** Words of two alternatives are ordered as the alternatives are. */
  lemma {:induction false} AlternativesOrdered(names: seq<RuleName>, es: seq<Node>, i: nat, j: nat, env: seq<Lang>,
          ord: seq<Order>, u: Word, v: Word)
    requires i < j < |es| && u in Den(names, es[i], env) && v in Den(names, es[j], env) && u != [] && v != []
    ensures (u, v) in OrdOr(names, es, env, ord)
  {
    hide Den, Ord;
    if i == 0 {
      AlternativeMatches(names, es[1..], j - 1, env, v);
    } else {
      AlternativesOrdered(names, es[1..], i - 1, j - 1, env, ord, u, v);
    }
  }

  lemma {:induction false} AlternativeMatches(names: seq<RuleName>, es: seq<Node>, j: nat, env: seq<Lang>, v: Word)
    requires j < |es| && v in Den(names, es[j], env)
    ensures v in DenOr(names, es, env)
  {
    hide Den;
    if j > 0 {
      AlternativeMatches(names, es[1..], j - 1, env, v);
    }
  }

  lemma {:induction false} SameOrder(names: seq<RuleName>, e: Node, e': Node, env: seq<Lang>, ord: seq<Order>)
    requires e'.id == e.id && e'.name == e.name && e'.children == e.children
    requires e.id.Rule? ==> e.name.Some?
    ensures Ord(names, e', env, ord) == Ord(names, e, env, ord)
  {
  }

  /** A lone child orders what it orders whether it is combined in sequence or in alternation. */
  lemma {:induction false} LoneOrders(names: seq<RuleName>, nodes: seq<Node>, env: seq<Lang>, ord: seq<Order>)
    requires |nodes| == 1
    ensures OrdSeq(names, nodes, env, ord) == Ord(names, nodes[0], env, ord) == OrdOr(names, nodes, env, ord)
  {
    var p := Ord(names, nodes[0], env, ord);
    assert nodes[1..] == [];
    AroundAlone(p);
    AroundNothing(Den(names, nodes[0], env), NONE, EPSILON);
    AcrossIgnores(Den(names, nodes[0], env), EMPTY, false);
    hide Around, Across, Ord, Den;
    assert OrdSeq(names, nodes, env, ord) == Around(EPSILON, p, EPSILON) + NONE;
    assert OrdOr(names, nodes, env, ord) == p + NONE + NONE;
  }

  /** The children `s` that remain of `rest` order the same pairs, whichever way their parent combines them. */
  ghost predicate Retains(names: seq<RuleName>, rest: seq<Node>, s: Steps, env: seq<Lang>, ord: seq<Order>) {
    && (s.never ==> OrdSeq(names, rest, env, ord) == NONE)
    && (!s.never || |rest| <= 1 ==> OrdSeq(names, s.nodes, env, ord) == OrdSeq(names, rest, env, ord))
    && OrdOr(names, s.nodes, env, ord) == OrdOr(names, rest, env, ord)
  }

  lemma {:induction false} NothingRetained(names: seq<RuleName>, env: seq<Lang>, ord: seq<Order>)
    ensures Retains(names, [], Steps([], false, false, false), env, ord)
  {
  }

  lemma {:induction false} ConsRetains(names: seq<RuleName>, s: Step, rest: seq<Node>, r: Steps, env: seq<Lang>,
          ord: seq<Order>)
    requires rest != [] && Den(names, s.node, env) == Den(names, rest[0], env)
    requires Ord(names, s.node, env, ord) == Ord(names, rest[0], env, ord)
    requires Reduces(names, rest[1..], r, env) && Retains(names, rest[1..], r, env, ord)
    ensures Retains(names, rest, Prepend(s, r), env, ord)
  {
    if Drops(s.node.id) {
      DropRetains(names, s, rest, r, env, ord);
    } else {
      KeepRetains(names, s, rest, r, env, ord);
    }
  }

  lemma {:induction false} DroppedMeans(names: seq<RuleName>, e: Node, env: seq<Lang>, ord: seq<Order>)
    requires Drops(e.id)
    ensures Den(names, e, env) == (if e.id.Nop? then EPSILON else EMPTY) && Ord(names, e, env, ord) == NONE
  {
  }

  lemma {:induction false} DropRetains(names: seq<RuleName>, s: Step, rest: seq<Node>, r: Steps, env: seq<Lang>,
          ord: seq<Order>)
    requires rest != [] && Den(names, s.node, env) == Den(names, rest[0], env) && Drops(s.node.id)
    requires Ord(names, s.node, env, ord) == Ord(names, rest[0], env, ord)
    requires Retains(names, rest[1..], r, env, ord)
    requires |r.nodes| <= |rest[1..]|
    ensures Retains(names, rest, Prepend(s, r), env, ord)
  {
    hide Around, Across, Ord, Den, DenSeq, DenOr;
    var a, b, more := Den(names, s.node, env), DenSeq(names, rest[1..], env), OrdSeq(names, rest[1..], env, ord);
    DroppedMeans(names, s.node, env, ord);
    AroundNothing(EPSILON, NONE, b);
    AroundAlone(more);
    AroundNothing(EMPTY, more, EPSILON);
    AcrossIgnores(a, DenOr(names, rest[1..], env), false);
    assert [] + r.nodes == r.nodes;
    assert OrdSeq(names, rest, env, ord) == NONE + if s.node.id.Nop? then more else NONE;
    assert OrdOr(names, rest, env, ord) == NONE + OrdOr(names, rest[1..], env, ord) + NONE;
    assert |rest| <= 1 ==> r.nodes == [] && rest[1..] == [];
  }

  lemma {:induction false} KeepRetains(names: seq<RuleName>, s: Step, rest: seq<Node>, r: Steps, env: seq<Lang>,
          ord: seq<Order>)
    requires rest != [] && Den(names, s.node, env) == Den(names, rest[0], env) && !Drops(s.node.id)
    requires Ord(names, s.node, env, ord) == Ord(names, rest[0], env, ord)
    requires Reduces(names, rest[1..], r, env) && Retains(names, rest[1..], r, env, ord)
    ensures Retains(names, rest, Prepend(s, r), env, ord)
  {
    var a, p := Den(names, s.node, env), Ord(names, s.node, env, ord);
    AroundNothing(EPSILON, p, EMPTY);
    AroundNothing(a, NONE, EPSILON);
    AcrossIgnores(a, DenOr(names, r.nodes, env), r.nop);
    hide Around, Across, Ord, Den, Star;
    assert ([s.node] + r.nodes)[1..] == r.nodes;
    assert |rest| <= 1 ==> rest[1..] == [] && r.nodes == [] && !r.never;
  }

  lemma {:induction false} SeqRetains(names: seq<RuleName>, e: Node, s: Steps, env: seq<Lang>, ord: seq<Order>)
    requires e.id.Seq? && Retains(names, e.children, s, env, ord) && AllShaped(names, s.nodes)
    ensures Ord(names, FinishSeq(e, s).node, env, ord) == Ord(names, e, env, ord)
  {
    hide Around;
    if |s.nodes| == 1 {
      LoneOrders(names, s.nodes, env, ord);
      assert Shaped(names, s.nodes[0]);
      SameOrder(names, s.nodes[0], UseChild(e, s.nodes[0]), env, ord);
    }
  }

  lemma {:induction false} OrRetains(names: seq<RuleName>, e: Node, s: Steps, env: seq<Lang>, ord: seq<Order>)
    requires e.id.Or? && Retains(names, e.children, s, env, ord) && AllShaped(names, s.nodes)
    ensures Ord(names, FinishOr(e, s).node, env, ord) == Ord(names, e, env, ord)
  {
    hide Around, Across;
    if |s.nodes| == 1 {
      LoneOrders(names, s.nodes, env, ord);
      var e' := e.(children := s.nodes, optional := e.optional || s.nop);
      assert Shaped(names, s.nodes[0]);
      SameOrder(names, s.nodes[0], UseChild(e', s.nodes[0]), env, ord);
    }
  }

  lemma {:induction false} RepeatRetains(names: seq<RuleName>, e: Node, s: Steps, env: seq<Lang>, ord: seq<Order>)
    requires e.id.Repeat? && |e.children| <= 1 && Retains(names, e.children, s, env, ord)
    requires Reduces(names, e.children, s, env)
    ensures Ord(names, FinishRepeat(e, s).node, env, ord) == Ord(names, e, env, ord)
  {
    hide Around, Star, DenSeq, DenOr;
    var any := Star(DenSeq(names, e.children, env));
    AroundNothing(any, NONE, any);
  }

  /** All rules but the one being edited order what their bodies do. */
  ghost predicate OthersOrdered(g: Grammar, d: nat, env: seq<Lang>, ord: seq<Order>) {
    |ord| == |g| && forall k :: 0 <= k < |g| && k != d ==> ord[k] == Ord(Names(g), g[k].body, env, ord)
  }

  lemma {:induction false} NodeRetained(g: Grammar, d: nat, at: Context, e: Node, env: seq<Lang>, ord: seq<Order>)
    requires WellFormed(g) && Places(g, d, at, e) && Shaped(Names(g), e)
    requires at.Top? ==> e == g[d].body
    requires Safe(g, d, at, Refs(Names(g), e)) && Settled(g, d, env) && OthersOrdered(g, d, env, ord)
    ensures Ord(Names(g), SimplifyNode(g, d, at, e).node, env, ord) == Ord(Names(g), e, env, ord)
    decreases e, 1
  {
    hide Reduces, Retains, FinishSeq, FinishOr, FinishRepeat, Star, DenSeq, DenOr, Around, OrdSeq, OrdOr;
    var names := Names(g);
    var s := SimplifyChildren(g, d, at, e, [], e.children);
    match e.id {
      case Seq =>
        ChildrenRetained(g, d, at, e, [], e.children, env, ord);
        SeqRetains(names, e, s, env, ord);
      case Or =>
        ChildrenRetained(g, d, at, e, [], e.children, env, ord);
        OrRetains(names, e, s, env, ord);
      case Repeat =>
        ChildrenRetained(g, d, at, e, [], e.children, env, ord);
        RepeatRetains(names, e, s, env, ord);
      case Rule =>
        InlineCases(g, d, at, e);
        var k := Target(names, e);
        var e' := InlineRule(g, d, at, e).node;
        if e' != e {
          SameOrder(names, g[k].body, e', env, ord);
        }
      case _ =>
    }
  }

  lemma {:induction false} ChildrenRetained(g: Grammar, d: nat, at: Context, parent: Node, left: seq<Node>,
          rest: seq<Node>, env: seq<Lang>, ord: seq<Order>)
    requires WellFormed(g) && Places(g, d, at, parent) && Inner(parent.id) && AllShaped(Names(g), rest)
    requires Safe(g, d, Within(at, parent, left, rest), RefsOf(Names(g), rest))
    requires Settled(g, d, env) && OthersOrdered(g, d, env, ord)
    ensures var s := SimplifyChildren(g, d, at, parent, left, rest);
            && Retains(Names(g), rest, s, env, ord) && Reduces(Names(g), rest, s, env) && AllShaped(Names(g), s.nodes)
    decreases rest, 0
  {
    ChildrenPreserved(g, d, at, parent, left, rest, env);
    ReducesShapes(Names(g), rest, SimplifyChildren(g, d, at, parent, left, rest), env);
    hide Reduces, Retains, Den, Ord;
    var names := Names(g);
    if rest == [] {
      NothingRetained(names, env, ord);
    } else {
      var at' := Within(at, parent, left, rest[1..]);
      var s := SimplifyNode(g, d, at', rest[0]);
      NodePreserved(g, d, at', rest[0], env);
      NodeRetained(g, d, at', rest[0], env, ord);
      var kept := if Drops(s.node.id) then [] else [s.node];
      ChildrenRetained(g, d, at, parent, left + kept, rest[1..], env, ord);
      var r := SimplifyChildren(g, d, at, parent, left + kept, rest[1..]);
      ConsRetains(names, s, rest, r, env, ord);
    }
  }

  lemma {:induction false} ReducesShapes(names: seq<RuleName>, rest: seq<Node>, s: Steps, env: seq<Lang>)
    requires Reduces(names, rest, s, env)
    ensures AllShaped(names, s.nodes)
  {
  }

  // ------------------------------------------------------------ rules and passes

  /** Simplifying a rule that is not inlined into itself keeps what the rules order. */
  lemma {:induction false} RuleRetained(g: Grammar, d: nat)
    requires WellFormed(g) && d < |g| && !SelfInlines(g, d)
    ensures Orders(WithBody(g, d, SimplifyRule(g, d).node)) == Orders(g)
  {
    var s := SimplifyRule(g, d);
    var g' := WithBody(g, d, s.node);
    RulePreserved(g, d);
    var env, ord, ord' := Languages(g), Orders(g), Orders(g');
    LanguagesFixpoint(g);
    OrdersFixpoint(g);
    OrdersFixpoint(g');
    LanguagesFixpoint(g');
    NodeRetained(g, d, Top, g[d].body, env, ord);
    NodeRetained(g, d, Top, g[d].body, env, ord');
    hide Languages, Ord, Den, Orders;
    MutualOrders(g, g');
  }

  lemma {:induction false} PassRetained(g: Grammar, d: nat)
    requires WellFormed(g) && d <= |g| && !PassSelfInlines(g, d)
    ensures Orders(SimplifyFrom(g, d).grammar) == Orders(g)
    decreases |g| - d
  {
    hide Languages, Orders, SimplifyRule;
    if d < |g| {
      RulePreserved(g, d);
      RuleRetained(g, d);
      PassRetained(WithBody(g, d, SimplifyRule(g, d).node), d + 1);
    }
  }

  /** Over any run the alternatives of every rule stay in order, if no rule to be inlined leads back to itself at the
    * start.
    */
  lemma {:induction false} RunRetained(gs: seq<Grammar>)
    requires Run(gs) && WellFormed(gs[0]) && NoInlineLoop(gs[0])
    ensures Orders(gs[|gs| - 1]) == Orders(gs[0])
  {
    hide Languages, Orders, PassSelfInlines, NoInlineLoop;
    var n := |gs| - 1;
    if n > 0 {
      RunPreserved(gs[..n]);
      RunRetained(gs[..n]);
      PassKeepsLoopsOut(gs[n - 1], 0);
      PassRetained(gs[n - 1], 0);
    }
  }

  // ------------------------------------------------------------ children by place

  /** How many of the places come before `j`. */
  function Earlier(places: seq<nat>, j: nat): (n: nat)
    ensures n <= |places|
  {
    if places == [] then 0 else (if places[0] < j then 1 else 0) + Earlier(places[1..], j)
  }

  /** What child `j` becomes, with the children before it that are left to its left. */
  ghost function Became(g: Grammar, d: nat, at: Context, parent: Node, left: seq<Node>, rest: seq<Node>,
          nodes: seq<Node>, places: seq<nat>, j: nat): Node
    requires j < |rest| && |places| == |nodes|
  {
    SimplifyNode(g, d, Within(at, parent, left + nodes[..Earlier(places, j)], rest[j + 1..]), rest[j]).node
  }

  /** The nodes are what the children at these places become, in the order of the places; and what the other children
    * become never matches or does nothing.
    */
  ghost predicate Survive(g: Grammar, d: nat, at: Context, parent: Node, left: seq<Node>, rest: seq<Node>,
          nodes: seq<Node>, places: seq<nat>) {
    && |places| == |nodes|
    && (forall i :: 0 <= i < |places| ==> places[i] < |rest|)
    && (forall i, j :: 0 <= i < j < |places| ==> places[i] < places[j])
    && (forall i :: 0 <= i < |nodes| ==>
          nodes[i] == Became(g, d, at, parent, left, rest, nodes, places, places[i]) && !Drops(nodes[i].id))
    && (forall j :: 0 <= j < |rest| && j !in places ==>
          Drops(Became(g, d, at, parent, left, rest, nodes, places, j).id))
  }

  /** Places one further on, with or without the first. */
  function Onward(places: seq<nat>, kept: bool): (r: seq<nat>)
    ensures |r| == |places| + if kept then 1 else 0
  {
    (if kept then [0] else []) + seq(|places|, i requires 0 <= i < |places| => places[i] + 1)
  }

  lemma {:induction false} EarlierOnward(places: seq<nat>, kept: bool, j: nat)
    ensures Earlier(Onward(places, kept), j + 1) == Earlier(places, j) + if kept then 1 else 0
    ensures Earlier(Onward(places, kept), 0) == 0
  {
    EarlierShifted(places, j);
    var more := Onward(places, false);
    if kept {
      assert Onward(places, true)[1..] == more;
    }
  }

  lemma {:induction false} EarlierShifted(places: seq<nat>, j: nat)
    ensures Earlier(Onward(places, false), j + 1) == Earlier(places, j)
    ensures Earlier(Onward(places, false), 0) == 0
  {
    if places != [] {
      EarlierShifted(places[1..], j);
      assert Onward(places, false)[1..] == Onward(places[1..], false);
    }
  }

  /** What the others become is the same seen from the whole list. */
  lemma {:induction false} BecameOnward(g: Grammar, d: nat, at: Context, parent: Node, left: seq<Node>, rest: seq<Node>,
          s: Step, nodes: seq<Node>, places: seq<nat>, j: nat)
    requires rest != [] && s == SimplifyNode(g, d, Within(at, parent, left, rest[1..]), rest[0])
    requires j < |rest| - 1 && |places| == |nodes|
    ensures var kept := if Drops(s.node.id) then [] else [s.node];
            Became(g, d, at, parent, left, rest, kept + nodes, Onward(places, kept != []), j + 1) ==
            Became(g, d, at, parent, left + kept, rest[1..], nodes, places, j)
  {
    hide SimplifyNode;
    var kept := if Drops(s.node.id) then [] else [s.node];
    EarlierOnward(places, kept != [], j);
    var n := Earlier(places, j);
    assert (kept + nodes)[..|kept| + n] == kept + nodes[..n];
    assert left + (kept + nodes[..n]) == (left + kept) + nodes[..n];
    assert rest[1..][j + 1..] == rest[j + 2..] && rest[1..][j] == rest[j + 1];
  }

  lemma {:induction false} BecameFirst(g: Grammar, d: nat, at: Context, parent: Node, left: seq<Node>, rest: seq<Node>,
          nodes: seq<Node>, places: seq<nat>)
    requires rest != [] && |places| == |nodes| && Earlier(places, 0) == 0
    ensures Became(g, d, at, parent, left, rest, nodes, places, 0) ==
            SimplifyNode(g, d, Within(at, parent, left, rest[1..]), rest[0]).node
  {
    hide SimplifyNode;
    assert left + nodes[..0] == left;
  }

  lemma {:induction false} OnwardPlaces(places: seq<nat>, kept: bool, size: nat)
    requires forall i :: 0 <= i < |places| ==> places[i] < size
    requires forall i, j :: 0 <= i < j < |places| ==> places[i] < places[j]
    ensures var ps, n := Onward(places, kept), if kept then 1 else 0;
            && |ps| == n + |places|
            && (forall i :: 0 <= i < |ps| ==> ps[i] < size + 1)
            && (forall i, j :: 0 <= i < j < |ps| ==> ps[i] < ps[j])
            && (kept ==> ps[0] == 0)
            && (forall i :: n <= i < |ps| ==> ps[i] == places[i - n] + 1)
  {
  }

  /** Which places are left out. */
  lemma {:induction false} OnwardOut(places: seq<nat>, kept: bool, j: nat)
    ensures j in places ==> j + 1 in Onward(places, kept)
    ensures kept ==> 0 in Onward(places, kept)
  {
    var ps := Onward(places, kept);
    if j in places {
      var i :| 0 <= i < |places| && places[i] == j;
      assert ps[i + if kept then 1 else 0] == j + 1;
    }
    if kept {
      assert ps[0] == 0;
    }
  }

  lemma {:induction false} SurviveOnward(g: Grammar, d: nat, at: Context, parent: Node, left: seq<Node>,
          rest: seq<Node>, s: Step, nodes: seq<Node>, places: seq<nat>)
    requires rest != [] && s == SimplifyNode(g, d, Within(at, parent, left, rest[1..]), rest[0])
    requires var kept := if Drops(s.node.id) then [] else [s.node];
             Survive(g, d, at, parent, left + kept, rest[1..], nodes, places)
    ensures var kept := if Drops(s.node.id) then [] else [s.node];
            Survive(g, d, at, parent, left, rest, kept + nodes, Onward(places, kept != []))
  {
    hide SimplifyNode, Became, Earlier, Onward;
    var kept := if Drops(s.node.id) then [] else [s.node];
    var all, ps := kept + nodes, Onward(places, kept != []);
    EarlierOnward(places, kept != [], 0);
    OnwardPlaces(places, kept != [], |rest| - 1);
    BecameFirst(g, d, at, parent, left, rest, all, ps);
    forall i | 0 <= i < |all|
      ensures all[i] == Became(g, d, at, parent, left, rest, all, ps, ps[i]) && !Drops(all[i].id)
    {
      if i >= |kept| {
        assert all[i] == nodes[i - |kept|];
        BecameOnward(g, d, at, parent, left, rest, s, nodes, places, places[i - |kept|]);
      }
    }
    forall j | 0 <= j < |rest|
      ensures j in ps || Drops(Became(g, d, at, parent, left, rest, all, ps, j).id)
    {
      if j == 0 {
        OnwardOut(places, kept != [], 0);
      } else {
        OnwardOut(places, kept != [], j - 1);
        BecameOnward(g, d, at, parent, left, rest, s, nodes, places, j - 1);
      }
    }
  }

  lemma {:induction false} ChildrenSurvive(g: Grammar, d: nat, at: Context, parent: Node, left: seq<Node>,
          rest: seq<Node>) returns (places: seq<nat>)
    ensures Survive(g, d, at, parent, left, rest, SimplifyChildren(g, d, at, parent, left, rest).nodes, places)
    decreases |rest|
  {
    hide Survive, SimplifyNode;
    if rest == [] {
      places := [];
      NoneSurvive(g, d, at, parent, left);
    } else {
      var s := SimplifyNode(g, d, Within(at, parent, left, rest[1..]), rest[0]);
      var kept := if Drops(s.node.id) then [] else [s.node];
      var ps := ChildrenSurvive(g, d, at, parent, left + kept, rest[1..]);
      var nodes := SimplifyChildren(g, d, at, parent, left + kept, rest[1..]).nodes;
      places := Onward(ps, kept != []);
      SurviveOnward(g, d, at, parent, left, rest, s, nodes, ps);
    }
  }

  lemma {:induction false} NoneSurvive(g: Grammar, d: nat, at: Context, parent: Node, left: seq<Node>)
    ensures Survive(g, d, at, parent, left, [], [], [])
  {
  }

  /** Of the alternatives of a choice, those at some increasing places remain, each as what it has become; where one is
    * left it may take the place of the choice, and where none is, nothing or the empty word is all there is to match.
    * The same goes for the parts of a sequence.
    */
  lemma {:induction false} ChildrenInOrder(g: Grammar, d: nat, at: Context, e: Node)
    returns (nodes: seq<Node>, places: seq<nat>)
    requires e.id.Or? || e.id.Seq?
    ensures Survive(g, d, at, e, [], e.children, nodes, places)
    ensures var e' := SimplifyNode(g, d, at, e).node;
            && (|nodes| >= 2 ==> e'.children == nodes && (e'.id == e.id || (e.id.Seq? && e'.id.Never?)))
            && (nodes == [] ==> e'.children == [] && Drops(e'.id))
            && (|nodes| == 1 && e'.children != nodes ==>
                  && e'.id == nodes[0].id && e'.name == nodes[0].name && e'.optional == nodes[0].optional
                  && e'.children == nodes[0].children)
  {
    hide Survive, SimplifyChildren;
    nodes := SimplifyChildren(g, d, at, e, [], e.children).nodes;
    places := ChildrenSurvive(g, d, at, e, [], e.children);
  }

  // ------------------------------------------------------------ an example

  const QUOTED_A := Node(QuotedToken, Some("a"), 0, false, [])
  const QUOTED_B := Node(QuotedToken, Some("b"), 0, false, [])
  const REF_X := Node(Rule, Some("x"), 0, false, [])

  /** `r : x | 'b'` and `x : 'a'`. */
  const EITHER: Grammar :=
    [Def(Text("r"), false, Node(Or, None, 0, false, [REF_X, QUOTED_B])), Def(Text("x"), false, QUOTED_A)]

  /** The first alternative is inlined where it is. */
  lemma {:induction false} FirstStaysFirst()
    ensures var g' := SimplifyFrom(EITHER, 0).grammar;
            |g'| == 2 && g'[0].body == Node(Or, None, 0, false, [QUOTED_A, QUOTED_B])
  {
    var g := EITHER;
    var body := g[0].body;
    XIsSecond();
    assert body.children[1..] == [QUOTED_B] && [QUOTED_B][1..] == [];
    assert InlineRule(g, 0, Within(Top, body, [], [QUOTED_B]), REF_X) == Step(QUOTED_A, true);
    var rest := SimplifyChildren(g, 0, Top, body, [] + [QUOTED_A], [QUOTED_B]);
    assert rest == Steps([QUOTED_B], false, false, false) by {
      assert SimplifyChildren(g, 0, Top, body, [] + [QUOTED_A] + [QUOTED_B], [QUOTED_B][1..]) ==
             Steps([], false, false, false);
      assert SimplifyNode(g, 0, Within(Top, body, [] + [QUOTED_A], [QUOTED_B][1..]), QUOTED_B) == Step(QUOTED_B, false);
      assert [QUOTED_B] + [] == [QUOTED_B];
    }
    assert SimplifyChildren(g, 0, Top, body, [], body.children) == Steps([QUOTED_A] + [QUOTED_B], false, false, true);
    assert [QUOTED_A] + [QUOTED_B] == [QUOTED_A, QUOTED_B];
    assert SimplifyRule(g, 0).node == Node(Or, None, 0, false, [QUOTED_A, QUOTED_B]);
    LaterRules(WithBody(g, 0, SimplifyRule(g, 0).node), 0, 1);
  }

  /** Simplifying the rules from `d` on leaves those before. */
  lemma {:induction false} LaterRules(g: Grammar, k: nat, d: nat)
    requires k < d <= |g|
    ensures |SimplifyFrom(g, d).grammar| == |g| && SimplifyFrom(g, d).grammar[k] == g[k]
    decreases |g| - d
  {
    hide SimplifyRule;
    if d < |g| {
      LaterRules(WithBody(g, d, SimplifyRule(g, d).node), k, d + 1);
    }
  }

  ghost const WORD_A: Word := [Terminal(true, Some("a"))]
  ghost const WORD_B: Word := [Terminal(true, Some("b"))]

  /** The orders tell the rule from the one with its alternatives exchanged. */
  lemma {:induction false} OrdersTell()
    ensures (WORD_A, WORD_B) in Orders(EITHER)[0] && (WORD_B, WORD_A) !in Orders(EITHER)[0]
  {
    var g := EITHER;
    var names, env, ord := Names(g), Languages(g), Orders(g);
    LanguagesFixpoint(g);
    OrdersFixpoint(g);
    XIsSecond();
    var es := [REF_X, QUOTED_B];
    var rest := es[1..];
    assert rest == [QUOTED_B] && rest[1..] == [];
    assert g[0].body.children == es && g[0].body.id == Or && g[1].body == QUOTED_A;
    assert env[1] == Den(names, QUOTED_A, env) == iset{WORD_A};
    assert ord[1] == Ord(names, QUOTED_A, env, ord) == NONE;
    assert DenOr(names, rest, env) == iset{WORD_B} + EMPTY;
    AcrossIgnores(Den(names, QUOTED_B, env), EMPTY, false);
    assert OrdOr(names, rest, env, ord) == NONE;
    assert ord[0] == OrdOr(names, es, env, ord) == NONE + NONE + Across(iset{WORD_A}, iset{WORD_B} + EMPTY);
    assert "a"[0] != "b"[0];
  }

  lemma {:induction false} XIsSecond()
    ensures Target(Names(EITHER), REF_X) == 1
  {
    var names := Names(EITHER);
    assert names == [Text("r"), Text("x")] && names[1..] == [Text("x")];
    assert "r"[0] != "x"[0];
    assert names[0] != NameOf(REF_X) && names[1] == NameOf(REF_X);
  }
}
