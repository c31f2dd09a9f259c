/** The simplifier. Nodes are edited in place, and a reference is replaced by a copy of the
  * rule's body as it stands at that moment, so simplifying a node needs to know not only the grammar but
  * also the half-edited body it is part of: a context, the body with a hole where the node is.
  */
module BnfSimplify {
  import opened BnfGrammar

  /** A rule's body with a hole in it: the nodes above the hole, each with its children left and right of it. */
  datatype Context = Top | Within(up: Context, parent: Node, left: seq<Node>, right: seq<Node>)

  function Plug(at: Context, e: Node): Node {
    match at
    case Top => e
    case Within(up, parent, left, right) => Plug(up, parent.(children := left + [e] + right))
  }

  /** Uses a node's lone child in its place; the number of a generated rule stays behind. */
  function UseChild(e: Node, child: Node): Node {
    e.(id := child.id, name := child.name, optional := child.optional, children := child.children)
  }

  /** Bodies short enough to inline wherever they are referenced. */
  predicate Trivial(id: Id) {
    id.Never? || id.Nop? || id.Token? || id.QuotedToken? || id.Rule?
  }

  predicate Drops(id: Id) {
    id.Never? || id.Nop?
  }

  /** The node after simplification, and whether anything changed. */
  datatype Step = Step(node: Node, changed: bool)

  /** The children that remain, whether one never matched or did nothing, and whether anything changed. */
  datatype Steps = Steps(nodes: seq<Node>, never: bool, nop: bool, changed: bool)

  /** Simplifies node `e`, standing at `at` within the body of rule `d` of `g`. */
  function SimplifyNode(g: Grammar, d: nat, at: Context, e: Node): Step
    decreases e, 1
  {
    match e.id
    case Seq => FinishSeq(e, SimplifyChildren(g, d, at, e, [], e.children))
    case Or => FinishOr(e, SimplifyChildren(g, d, at, e, [], e.children))
    case Repeat => FinishRepeat(e, SimplifyChildren(g, d, at, e, [], e.children))
    case Rule => InlineRule(g, d, at, e)
    case _ => Step(e, false)
  }

  /** What becomes of a sequence once its children are simplified. A sequence that never matches keeps them. */
  function FinishSeq(e: Node, s: Steps): Step {
    if s.never then Step(e.(id := Never, children := s.nodes), true)
    else if s.nodes == [] then Step(e.(id := Nop, children := []), true)
    else if |s.nodes| == 1 then Step(UseChild(e, s.nodes[0]), true)
    else Step(e.(children := s.nodes), s.changed)
  }

  function FinishOr(e: Node, s: Steps): Step {
    var e' := e.(children := s.nodes, optional := e.optional || s.nop);
    if s.nodes == [] then Step(e'.(id := if e'.optional then Nop else Never), true)
    else if |s.nodes| == 1 && !e'.optional then Step(UseChild(e', s.nodes[0]), true)
    else Step(e', s.changed || s.nop)
  }

  function FinishRepeat(e: Node, s: Steps): Step {
    if s.nodes == [] then Step(e.(id := Nop, children := []), true)
    else Step(e.(children := s.nodes), s.changed)
  }

  /** The children that remain when the first has become `e` and the others have become `r`. */
  function Prepend(s: Step, r: Steps): Steps {
    var drop := Drops(s.node.id);
    Steps((if drop then [] else [s.node]) + r.nodes, s.node.id.Never? || r.never, s.node.id.Nop? || r.nop,
          s.changed || drop || r.changed)
  }

  /** Simplifies the children `rest` of `parent`, those in `left` being done already. */
  function SimplifyChildren(g: Grammar, d: nat, at: Context, parent: Node, left: seq<Node>, rest: seq<Node>): Steps
    decreases rest, 0
  {
    if rest == [] then Steps([], false, false, false) else
      var s := SimplifyNode(g, d, Within(at, parent, left, rest[1..]), rest[0]);
      var kept := if Drops(s.node.id) then [] else [s.node];
      Prepend(s, SimplifyChildren(g, d, at, parent, left + kept, rest[1..]))
  }

  /** Replaces a reference to a trivial rule, or one marked to be inlined, by a copy of its body. When the
    * rule is the one being edited, the node takes the body's kind before the body is copied, so the copy
    * holds, where the reference was, a node of that kind with no children.
    */
  function InlineRule(g: Grammar, d: nat, at: Context, e: Node): Step {
    if e.name.None? then Step(e, false) else
      var k := Target(Names(g), e);
      if k >= |g| then Step(e, false) else
        var rule := if k == d then Plug(at, e) else g[k].body;
        if Trivial(rule.id) || g[k].inlineRule then
          var e' := e.(id := rule.id, name := rule.name, optional := rule.optional);
          var body := if k == d then Plug(at, e') else rule;
          Step(e'.(children := body.children), true)
        else
          Step(e, false)
  }

  /** Simplifies one rule. */
  function SimplifyRule(g: Grammar, d: nat): Step
    requires d < |g|
  {
    SimplifyNode(g, d, Top, g[d].body)
  }

  function WithBody(g: Grammar, d: nat, body: Node): (g': Grammar)
    requires d < |g|
    ensures Names(g') == Names(g)
  {
    var g' := g[d := g[d].(body := body)];
    assert Names(g') == Names(g);
    g'
  }

  datatype Pass = Pass(grammar: Grammar, changed: bool)

  /** Simplifies the rules from `d` on, one after the other. */
  function SimplifyFrom(g: Grammar, d: nat): Pass
    requires d <= |g|
    decreases |g| - d
  {
    if d == |g| then Pass(g, false) else
      var s := SimplifyRule(g, d);
      var p := SimplifyFrom(WithBody(g, d, s.node), d + 1);
      Pass(p.grammar, s.changed || p.changed)
  }

  // ---------------------------------------------------- when nothing changes

  /** The rules a simplification would replace references to. */
  predicate Inlinable(g: Grammar, k: nat)
    requires k < |g|
  {
    Trivial(g[k].body.id) || g[k].inlineRule
  }

  /** Nothing to remove, to collapse or to inline at a node or below. */
  ghost predicate Normal(g: Grammar, e: Node) {
    match e.id
    case Seq => |e.children| >= 2 && NormalChildren(g, e.children)
    case Or => |e.children| >= (if e.optional then 1 else 2) && NormalChildren(g, e.children)
    case Repeat => |e.children| >= 1 && NormalChildren(g, e.children)
    case Rule => e.name.Some? && Target(Names(g), e) < |g| ==> Stands(g[Target(Names(g), e)])
    case _ => true
  }

  ghost predicate NormalChildren(g: Grammar, es: seq<Node>) {
    forall c :: c in es ==> c.id != Never && c.id != Nop && Normal(g, c)
  }

  /** A rule that references to are left alone: it combines something, and is not marked to be inlined. */
  predicate Stands(def: Def) {
    Inner(def.body.id) && !def.inlineRule
  }

  /** No NEVER or NOP but as a whole body, no lone child where it can stand for itself, and no
    * reference that ought to be inlined.
    */
  ghost predicate NormalForm(g: Grammar) {
    forall k :: 0 <= k < |g| ==> Normal(g, g[k].body)
  }

  /** A hole below the root leaves the kind of the root alone; at the root, the node's kind is the body's. */
  ghost predicate Places(g: Grammar, d: nat, at: Context, e: Node) {
    d < |g| && (if at.Top? then e.id == g[d].body.id else RootOf(at) == g[d].body.id) && Editing(at)
  }

  ghost function RootOf(at: Context): Id
    requires at.Within?
  {
    if at.up.Top? then at.parent.id else RootOf(at.up)
  }

  /** The nodes above a hole are ones whose children are simplified. */
  ghost predicate Editing(at: Context) {
    at.Within? ==> Inner(at.parent.id) && Editing(at.up)
  }

  lemma {:induction false} PlugRoot(at: Context, e: Node)
    ensures at.Within? ==> Plug(at, e).id == RootOf(at)
    ensures Editing(at) && at.Within? ==> Inner(RootOf(at))
  {
    if at.Within? {
      PlugRoot(at.up, at.parent.(children := at.left + [e] + at.right));
    }
  }

  /** Simplifying reports no change exactly when the node is in normal form, and then leaves it alone. */
  lemma {:induction false} UnchangedIffNormal(g: Grammar, d: nat, at: Context, e: Node)
    requires Places(g, d, at, e)
    ensures !SimplifyNode(g, d, at, e).changed <==> Normal(g, e)
    ensures !SimplifyNode(g, d, at, e).changed ==> SimplifyNode(g, d, at, e).node == e
    decreases e, 1
  {
    match e.id {
      case Seq | Or | Repeat =>
        UnchangedChildren(g, d, at, e, [], e.children);
      case Rule =>
        PlugRoot(at, e);
      case _ =>
    }
  }

  lemma {:induction false} UnchangedChildren(g: Grammar, d: nat, at: Context, parent: Node, left: seq<Node>,
          rest: seq<Node>)
    requires Places(g, d, at, parent) && Inner(parent.id)
    ensures var s := SimplifyChildren(g, d, at, parent, left, rest);
            && (!s.changed <==> NormalChildren(g, rest))
            && (!s.changed ==> s.nodes == rest && !s.never && !s.nop)
            && (s.nop || s.never ==> s.changed)
    decreases rest, 0
  {
    if rest != [] {
      var at' := Within(at, parent, left, rest[1..]);
      var s := SimplifyNode(g, d, at', rest[0]);
      UnchangedIffNormal(g, d, at', rest[0]);
      var kept := if Drops(s.node.id) then [] else [s.node];
      UnchangedChildren(g, d, at, parent, left + kept, rest[1..]);
      assert rest == [rest[0]] + rest[1..];
    }
  }

  lemma {:induction false} PassUnchanged(g: Grammar, d: nat)
    requires d <= |g|
    ensures !SimplifyFrom(g, d).changed <==> forall k :: d <= k < |g| ==> Normal(g, g[k].body)
    ensures !SimplifyFrom(g, d).changed ==> SimplifyFrom(g, d).grammar == g
    decreases |g| - d
  {
    if d < |g| {
      UnchangedIffNormal(g, d, Top, g[d].body);
      var s := SimplifyRule(g, d);
      if !s.changed {
        assert WithBody(g, d, s.node) == g;
        PassUnchanged(g, d + 1);
      }
    }
  }
}
