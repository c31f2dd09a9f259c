/** The grammar as the printer holds it: a list of rules that the simplifier edits until nothing changes. */
module BnfTree {
  import opened Wrappers
  import opened BnfGrammar
  import opened BnfSimplify
  import opened BnfSettle
  import opened BnfAntlr
  import opened BnfTended
  import opened BnfRest
  import opened BnfOrder
  import opened BnfPutBack

  /** Simplifies a node whose children, if they count, are simplified first. */
  method EditNode(g: Grammar, d: nat, at: Context, e: Node) returns (s: Step)
    ensures s == SimplifyNode(g, d, at, e)
    decreases e, 1
  {
    match e.id {
      case Seq =>
        var c := EditChildren(g, d, at, e);
        s := FinishSeq(e, c);
      case Or =>
        var c := EditChildren(g, d, at, e);
        s := FinishOr(e, c);
      case Repeat =>
        var c := EditChildren(g, d, at, e);
        s := FinishRepeat(e, c);
      case Rule =>
        s := InlineRule(g, d, at, e);
      case _ =>
        s := Step(e, false);
    }
  }

  /** Walks the list of children, unlinking those that never match or do nothing. */
  method EditChildren(g: Grammar, d: nat, at: Context, parent: Node) returns (s: Steps)
    ensures s == SimplifyChildren(g, d, at, parent, [], parent.children)
    decreases parent, 0
  {
    hide SimplifyChildren, After, FinishSeq, FinishOr, FinishRepeat;
    var kept, i := [], 0;
    var never, nop, changed := false, false, false;
    var children := parent.children;
    NoneEdited(g, d, at, parent);
    while i < |children|
      invariant i <= |children|
      invariant SimplifyChildren(g, d, at, parent, [], children) ==
                After(kept, never, nop, changed, SimplifyChildren(g, d, at, parent, kept, children[i..]))
    {
      ghost var rest := children[i..];
      assert rest[0] == children[i] && rest[1..] == children[i + 1..];
      var t := EditNode(g, d, Within(at, parent, kept, children[i + 1..]), children[i]);
      OneEdited(g, d, at, parent, kept, rest, never, nop, changed);
      if t.node.id.Never? {
        never := true;
      }
      if t.node.id.Nop? {
        nop := true;
      }
      if Drops(t.node.id) {
        changed := true;
      } else {
        kept := kept + [t.node];
      }
      changed := changed || t.changed;
      i := i + 1;
    }
    AllEdited(g, d, at, parent, kept, never, nop, changed);
    s := Steps(kept, never, nop, changed);
  }

  /** The outcome for a whole list of children, part of it done and the rest to become `r`. */
  ghost function After(kept: seq<Node>, never: bool, nop: bool, changed: bool, r: Steps): Steps {
    Steps(kept + r.nodes, never || r.never, nop || r.nop, changed || r.changed)
  }

  lemma {:induction false} NoneEdited(g: Grammar, d: nat, at: Context, parent: Node)
    ensures var all := SimplifyChildren(g, d, at, parent, [], parent.children);
            parent.children[0..] == parent.children && all == After([], false, false, false, all)
  {
    hide SimplifyChildren;
  }

  lemma {:induction false} OneEdited(g: Grammar, d: nat, at: Context, parent: Node, kept: seq<Node>, rest: seq<Node>,
                                     never: bool, nop: bool, changed: bool)
    requires rest != []
    ensures var t := SimplifyNode(g, d, Within(at, parent, kept, rest[1..]), rest[0]);
            var kept' := if Drops(t.node.id) then kept else kept + [t.node];
            After(kept, never, nop, changed, SimplifyChildren(g, d, at, parent, kept, rest)) ==
            After(kept', never || t.node.id.Never?, nop || t.node.id.Nop?, changed || t.changed || Drops(t.node.id),
                  SimplifyChildren(g, d, at, parent, kept', rest[1..]))
  {
    hide SimplifyNode;
    var t := SimplifyNode(g, d, Within(at, parent, kept, rest[1..]), rest[0]);
    assert kept + [] == kept;
    var r := SimplifyChildren(g, d, at, parent, if Drops(t.node.id) then kept else kept + [t.node], rest[1..]);
    assert kept + ([t.node] + r.nodes) == (kept + [t.node]) + r.nodes;
    assert kept + ([] + r.nodes) == kept + r.nodes;
  }

  lemma {:induction false} AllEdited(g: Grammar, d: nat, at: Context, parent: Node, kept: seq<Node>,
                                     never: bool, nop: bool, changed: bool)
    ensures After(kept, never, nop, changed,
                  SimplifyChildren(g, d, at, parent, kept, parent.children[|parent.children|..])) ==
            Steps(kept, never, nop, changed)
  {
    assert kept + [] == kept;
  }

  lemma {:induction false} Regrouped(nodes: seq<Node>, p: Node, rest: seq<Node>, added: seq<Def>, more: seq<Def>,
          later: seq<Def>)
    ensures nodes + ([p] + rest) == (nodes + [p]) + rest && added + (more + later) == (added + more) + later
  {
  }

  lemma {:induction false} NoneLeft(es: seq<Node>, n: nat, nodes: seq<Node>, added: seq<Def>)
    requires es == []
    ensures nodes + SplitAll(es, n).nodes == nodes && added + SplitAll(es, n).added == added
  {
  }

  lemma {:induction false} SameNamesUnused(g: Grammar, g': Grammar, n: nat)
    requires Names(g') == Names(g) && Unused(g, n)
    ensures |g'| == |g| && Unused(g', n)
  {
    assert |Names(g')| == |g'|;
    forall k | 0 <= k < |g'|
      ensures g'[k].name == g[k].name
    {
      assert Names(g')[k] == Names(g)[k];
    }
  }

  lemma {:induction false} NoPasses(g: Grammar)
    ensures Passes(g, 0) == g
  {
  }

  lemma {:induction false} OnePass(g: Grammar, n: nat)
    ensures Passes(g, n + 1) == SimplifyFrom(Passes(g, n), 0).grammar
    ensures !SimplifyFrom(Passes(g, n), 0).changed ==> SimplifyFrom(Passes(g, n), 0).grammar == Passes(g, n)
  {
    PassUnchanged(Passes(g, n), 0);
  }

  /** What is not filled is what an assertion fails for. */
  lemma {:induction false} StumblesOnly(g: Grammar)
    requires Kempt(g)
    ensures forall k :: 0 <= k < |g| ==> (Filled(g[k].body) <==> !Stumbles(g[k].body))
  {
    forall k | 0 <= k < |g|
      ensures Filled(g[k].body) <==> !Stumbles(g[k].body)
    {
      FilledIffNoStumble(g[k].body);
    }
  }

  lemma {:induction false} KemptIsClosed(g: Grammar)
    requires Kempt(g)
    ensures Closed(g)
  {
  }

  class Tree {
    var rules: Grammar
    var hackCount: nat

    constructor (g: Grammar)
      ensures rules == g && hackCount == 0
    {
      rules, hackCount := g, 0;
    }

    /** Simplifies every rule once, in order. */
    method SimplifyOnce() returns (changed: bool)
      modifies `rules
      ensures Pass(rules, changed) == SimplifyFrom(old(rules), 0)
    {
      changed := false;
      var d := 0;
      while d < |rules|
        invariant d <= |rules|
        invariant var p := SimplifyFrom(rules, d);
                  SimplifyFrom(old(rules), 0) == Pass(p.grammar, changed || p.changed)
        decreases |rules| - d
      {
        var s := EditNode(rules, d, Top, rules[d].body);
        changed := changed || s.changed;
        rules := WithBody(rules, d, s.node);
        d := d + 1;
      }
    }

    /** Simplifies until nothing changes, which is the first normal form that passes come to. Where no rule can be
      * inlined into itself, the rules have the languages they had, and their alternatives are in the order they were
      * in.
      */
    method Simplify() returns (ghost n: nat)
      requires Rests(rules)
      modifies `rules
      ensures rules == Passes(old(rules), n) && NormalForm(rules)
      ensures forall m: nat :: m < n ==> !NormalForm(Passes(old(rules), m))
      ensures Names(rules) == Names(old(rules))
      ensures old(Kept(rules)) ==> WellFormed(rules) && Languages(rules) == Languages(old(rules))
      ensures old(Kept(rules)) ==> Orders(rules) == Orders(old(rules))
      ensures old(Kept(rules) && Kempt(rules)) ==>
                Kempt(rules) && forall k :: 0 <= k < |rules| && !rules[k].body.id.Never? ==> Filled(rules[k].body)
    {
      ghost var g := rules;
      ghost var rest: nat :| NormalForm(Passes(g, rest));
      hide Kept, Kempt, NormalForm, Languages, Orders, WellFormed, Passes;
      n := 0;
      NoPasses(g);
      var changed := true;
      while changed
        invariant if changed then n <= rest && rules == Passes(g, n) else NormalForm(rules) && rules == Passes(g, n)
        invariant forall m: nat :: m < n ==> !NormalForm(Passes(g, m))
        decreases rest - n, changed
      {
        NormalIsUnchanged(rules);
        OnePass(g, n);
        changed := SimplifyOnce();
        if changed {
          n := n + 1;
        }
      }
      PassesKeepNames(g, n);
      if Kept(g) {
        PassesPreserve(g, n);
        if Kempt(g) {
          NormalFormFilled(rules);
        }
      }
    }

    /** Simplifies, and then gets round the interpreter bug. When something that never matches has been left in a way
      * that an assertion of the walk does not allow for, it fails; the rules are then the simplified ones.
      */
    method SimplifyAndAvoid() returns (done: bool, ghost simplified: Grammar)
      requires Kept(rules) && Rests(rules) && Unused(rules, hackCount)
      requires forall k :: 0 <= k < |rules| ==> Bare(rules[k].body)
      modifies this
      ensures WellFormed(simplified) && NormalForm(simplified)
      ensures Names(simplified) == Names(old(rules)) && Languages(simplified) == Languages(old(rules))
      ensures Orders(simplified) == Orders(old(rules))
      ensures done <==> forall k :: 0 <= k < |simplified| && simplified[k].body.id.Never? ==>
                                      !Stumbles(simplified[k].body)
      ensures !done ==> rules == simplified && hackCount == old(hackCount)
      ensures done ==> |old(rules)| <= |rules| && Names(old(rules)) <= Names(rules)
      ensures done ==> Languages(rules)[..|old(rules)|] == Languages(old(rules))
      ensures done ==> forall k :: 0 <= k < |rules| ==> Clean(rules[k].body)
      ensures done ==> forall k :: 0 <= k < |simplified| ==>
                PutBack(rules[k].body, Taken(rules, |simplified|, old(hackCount)), hackCount) == simplified[k].body
    {
      hide Languages, Orders, NormalForm, Settles, WellFormed, Bare, Clean, Passes, Rests, Kept, Filled, Stumbles;
      hide PutBack;
      KeptWellFormed(rules);
      BareIsKempt(rules);
      ghost var _ := Simplify();
      simplified := rules;
      SameNamesUnused(old(rules), rules, hackCount);
      KemptIsClosed(rules);
      StumblesOnly(rules);
      done := forall k :: 0 <= k < |rules| ==> Filled(rules[k].body);
      if done {
        AvoidAntlrBug();
      }
    }

    /** Takes alternatives out of the repetitions in and below a node, which becomes `e'`. */
    method AvoidNode(e: Node) returns (e': Node)
      requires Filled(e)
      modifies this
      ensures var s := SplitNode(e, old(hackCount));
              e' == s.node && rules == old(rules) + s.added && hackCount == old(hackCount) + |s.added|
      decreases e, 1
    {
      var nodes := AvoidChildren(e);
      e' := e.(children := nodes);
      if !e'.id.Repeat? {
        return;
      }
      SplitAllClean(e.children, old(hackCount));
      var either := e'.children[0];
      if !either.id.Or? {
        return;
      }
      if |either.children| < 2 || either.children[1].id.Token? || either.children[1].id.QuotedToken? {
        return;
      }
      var number := hackCount;
      hackCount := hackCount + 1;
      rules := rules + [Def(Hack(number), false, either)];
      e' := e'.(children := [Node(Rule, None, number, false, [])]);
    }

    method AvoidChildren(e: Node) returns (nodes: seq<Node>)
      requires forall c :: c in e.children ==> Filled(c)
      modifies this
      ensures var s := SplitAll(e.children, old(hackCount));
              nodes == s.nodes && rules == old(rules) + s.added && hackCount == old(hackCount) + |s.added|
      decreases e, 0
    {
      hide SplitAll, SplitNode;
      ghost var n, added := hackCount, [];
      nodes := [];
      var i := 0;
      assert e.children[0..] == e.children;
      ghost var r := SplitAll(e.children, n);
      while i < |e.children|
        invariant i <= |e.children| && rules == old(rules) + added && hackCount == n + |added|
        invariant r == SplitAll(e.children[i..], hackCount)
        invariant SplitAll(e.children, n) == Splits(nodes + r.nodes, added + r.added)
      {
        ghost var s := SplitNode(e.children[i], hackCount);
        SplitOneMore(e.children, i, hackCount);
        var p := AvoidNode(e.children[i]);
        ghost var r' := SplitAll(e.children[i + 1..], hackCount);
        Regrouped(nodes, p, r'.nodes, added, s.added, r'.added);
        nodes := nodes + [p];
        added := added + s.added;
        r := r';
        i := i + 1;
      }
      NoneLeft(e.children[i..], hackCount, nodes, added);
    }

    /** Walks over all rules, those that it adds at the end included. With what it has taken out put back, the rules are
      * what they were.
      */
    method AvoidAntlrBug()
      requires Closed(rules) && Unused(rules, hackCount) && forall k :: 0 <= k < |rules| ==> Filled(rules[k].body)
      modifies this
      ensures Closed(rules) && Unused(rules, hackCount) && Names(old(rules)) <= Names(rules)
      ensures Languages(rules)[..|old(rules)|] == Languages(old(rules))
      ensures forall k :: 0 <= k < |rules| ==> Clean(rules[k].body)
      ensures forall k :: |old(rules)| <= k < |rules| ==> rules[k].name == Hack(old(hackCount) + k - |old(rules)|)
      ensures hackCount == old(hackCount) + |rules| - |old(rules)|
      ensures forall k :: 0 <= k < |old(rules)| ==>
                PutBack(rules[k].body, Taken(rules, |old(rules)|, old(hackCount)), hackCount) == old(rules)[k].body
    {
      hide Progress, Languages, Closed, Unused, Clean, SplitNode, Names, Restores, PutBack, Taken;
      ghost var old', n0 := rules, hackCount;
      ProgressStarts(rules, hackCount);
      RestoresStart(rules, hackCount);
      var d := 0;
      while d < |rules|
        invariant d <= |rules| && |old'| <= |rules| && Progress(old', rules, n0, hackCount, d)
        invariant Restores(old', rules, hackCount, d)
        decreases if d < |old'| then |old'| - d else 0, |rules| - d
      {
        ghost var was, n := rules, hackCount;
        ProgressStep(old', was, n0, n, d);
        ProgressFilled(old', was, n0, n, d);
        RestoresStep(old', was, n, d);
        var body := AvoidNode(rules[d].body);
        rules := WithBody(rules, d, body);
        StepIs(was, rules, d, n, body);
        d := d + 1;
      }
      ProgressEnds(old', rules, n0, hackCount);
      RestoresAll(old', rules, n0, hackCount);
    }
  }
}
