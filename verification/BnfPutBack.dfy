/** What getting round the ANTLR bug does can be undone: with the bodies of the rules it made put back where they are
  * referred to, every rule is what it was, its alternatives in the same order.
  */
module BnfPutBack {
  import opened Wrappers
  import opened BnfGrammar
  import opened BnfSimplify
  import opened BnfAntlr

  /** The body with generated rules put back for the references to them, the bodies of those numbered below `bound`. */
  function PutBack(e: Node, bodies: map<nat, Node>, bound: nat): Node
    decreases bound, e, 1
  {
    if Refers(e) && e.hackCount in bodies && e.hackCount < bound then
      PutBack(bodies[e.hackCount], bodies, e.hackCount)
    else
      e.(children := PutAllBack(e.children, bodies, bound))
  }

  function PutAllBack(es: seq<Node>, bodies: map<nat, Node>, bound: nat): seq<Node>
    decreases bound, es, 0
  {
    if es == [] then [] else [PutBack(es[0], bodies, bound)] + PutAllBack(es[1..], bodies, bound)
  }

  /** A reference to a generated rule. */
  predicate Refers(e: Node) {
    e.id.Rule? && e.name.None?
  }

  /** No reference to one of these rules in the body. */
  ghost predicate Fresh(e: Node, bodies: map<nat, Node>) {
    (Refers(e) ==> e.hackCount !in bodies) && forall c :: c in e.children ==> Fresh(c, bodies)
  }

  ghost predicate Holds(bodies: map<nat, Node>, added: seq<Def>) {
    forall d :: d in added ==> d.name.Hack? && d.name.number in bodies && bodies[d.name.number] == d.body
  }

  /** What has been taken out of a node is put back. */
  lemma {:induction false} NodePutBack(e: Node, n: nat, bodies: map<nat, Node>, bound: nat)
    requires Filled(e) && Fresh(e, bodies) && Holds(bodies, SplitNode(e, n).added)
    requires bound >= n + |SplitNode(e, n).added|
    ensures PutBack(SplitNode(e, n).node, bodies, bound) == e
    decreases e, 1
  {
    var s := SplitAll(e.children, n);
    var e' := e.(children := s.nodes);
    if Bug(e') {
      var number := n + |s.added|;
      var ref, def := Node(Rule, None, number, false, []), Def(Hack(number), false, s.nodes[0]);
      assert SplitNode(e, n) == Split(e'.(children := [ref]), s.added + [def]);
      assert def in SplitNode(e, n).added;
      AllPutBack(e.children, n, bodies, number);
      LonePutBack(s.nodes, bodies, number);
      SplitAllClean(e.children, n);
      assert PutBack(ref, bodies, bound) == PutBack(s.nodes[0], bodies, number);
      assert PutAllBack([ref], bodies, bound) == [PutBack(ref, bodies, bound)] by { LonePutBack([ref], bodies, bound); }
    } else {
      AllPutBack(e.children, n, bodies, bound);
    }
  }

  lemma {:induction false} LonePutBack(es: seq<Node>, bodies: map<nat, Node>, bound: nat)
    ensures |es| == 1 ==> PutAllBack(es, bodies, bound) == [PutBack(es[0], bodies, bound)]
  {
    if |es| == 1 {
      assert es[1..] == [];
    }
  }

  lemma {:induction false} AllPutBack(es: seq<Node>, n: nat, bodies: map<nat, Node>, bound: nat)
    requires forall c :: c in es ==> Filled(c) && Fresh(c, bodies)
    requires Holds(bodies, SplitAll(es, n).added) && bound >= n + |SplitAll(es, n).added|
    ensures PutAllBack(SplitAll(es, n).nodes, bodies, bound) == es
    decreases es, 0
  {
    if es != [] {
      var s := SplitNode(es[0], n);
      var r := SplitAll(es[1..], n + |s.added|);
      NodePutBack(es[0], n, bodies, bound);
      AllPutBack(es[1..], n + |s.added|, bodies, bound);
      assert ([s.node] + r.nodes)[1..] == r.nodes;
    }
  }

  // ------------------------------------------------------------ a whole grammar

  /** The rules from `size` on are among the bodies, and references to them are new. */
  ghost predicate Covers(old': Grammar, g: Grammar, bodies: map<nat, Node>, bound: nat, n: nat)
    requires |old'| <= |g|
  {
    Holds(bodies, g[|old'|..]) && bound >= n && forall k :: 0 <= k < |old'| ==> Fresh(old'[k].body, bodies)
  }

  /** Putting back the rules made so far gives the old rules; those from `d` on are the old ones still. */
  ghost predicate Restores(old': Grammar, g: Grammar, n: nat, d: nat)
    requires |old'| <= |g|
  {
    && (forall k :: d <= k < |old'| ==> g[k] == old'[k])
    && (forall k, bodies, bound :: 0 <= k < |old'| && k < d && Covers(old', g, bodies, bound, n) ==>
          PutBack(g[k].body, bodies, bound) == old'[k].body)
  }

  lemma {:induction false} RestoresStart(g: Grammar, n: nat)
    ensures Restores(g, g, n, 0)
  {
  }

  lemma {:induction false} RestoresStep(old': Grammar, g: Grammar, n: nat, d: nat)
    requires |old'| <= |g| && d < |g| && Restores(old', g, n, d) && Filled(g[d].body)
    requires d >= |old'| ==> SplitRule(g, d, n) == g
    ensures var g' := SplitRule(g, d, n); Restores(old', g', n + |g'| - |g|, d + 1)
  {
    hide SplitNode, PutBack, Filled, Fresh, Holds;
    var g', added := SplitRule(g, d, n), SplitNode(g[d].body, n).added;
    var n' := n + |g'| - |g|;
    if d < |old'| {
      assert g'[|old'|..] == g[|old'|..] + added;
      forall k, bodies, bound | 0 <= k < |old'| && k < d + 1 && Covers(old', g', bodies, bound, n')
        ensures PutBack(g'[k].body, bodies, bound) == old'[k].body
      {
        HoldsParts(bodies, g[|old'|..], added);
        if k == d {
          NodePutBack(g[d].body, n, bodies, bound);
        } else {
          assert Covers(old', g, bodies, bound, n);
        }
      }
    }
  }

  lemma {:induction false} HoldsParts(bodies: map<nat, Node>, a: seq<Def>, b: seq<Def>)
    requires Holds(bodies, a + b)
    ensures Holds(bodies, a) && Holds(bodies, b)
  {
    assert forall d :: d in a || d in b ==> d in a + b;
  }

  /** The bodies of the rules from `size` on, by number. */
  function Taken(g: Grammar, size: nat, n: nat): (bodies: map<nat, Node>)
    requires size <= |g|
    ensures forall m :: m in bodies ==> n <= m < n + |g| - size
  {
    if |g| == size then map[] else
      var last := |g| - 1;
      Taken(g[..last], size, n)[n + last - size := g[last].body]
  }

  lemma {:induction false} TakenAt(g: Grammar, size: nat, n: nat, j: nat)
    requires size + j < |g|
    ensures var bodies := Taken(g, size, n); n + j in bodies && bodies[n + j] == g[size + j].body
    decreases |g|
  {
    if size + j < |g| - 1 {
      TakenAt(g[..|g| - 1], size, n, j);
    }
  }

  /** Numbers from `n` on are not referred to. */
  lemma {:induction false} ClosedIsFresh(g: Grammar, n: nat, e: Node, bodies: map<nat, Node>)
    requires Unused(g, n) && RefersBelow(Names(g), e, |g|) && forall m :: m in bodies ==> m >= n
    ensures Fresh(e, bodies)
  {
    forall c | c in e.children
      ensures Fresh(c, bodies)
    {
      ClosedIsFresh(g, n, c, bodies);
    }
  }

  /** At the end, putting back the rules that were made gives the rules there were. */
  lemma {:induction false} RestoresAll(old': Grammar, g: Grammar, n0: nat, n: nat)
    requires |old'| <= |g| && Restores(old', g, n, |g|) && Closed(old') && Unused(old', n0) && n == n0 + |g| - |old'|
    requires forall k :: |old'| <= k < |g| ==> g[k].name == Hack(n0 + k - |old'|)
    ensures var bodies := Taken(g, |old'|, n0);
            forall k :: 0 <= k < |old'| ==> PutBack(g[k].body, bodies, n) == old'[k].body
  {
    hide Unused, RefersBelow, PutBack;
    var bodies := Taken(g, |old'|, n0);
    forall k | 0 <= k < |old'|
      ensures Fresh(old'[k].body, bodies)
    {
      ClosedIsFresh(old', n0, old'[k].body, bodies);
    }
    hide Fresh;
    forall d | d in g[|old'|..]
      ensures d.name.Hack? && d.name.number in bodies && bodies[d.name.number] == d.body
    {
      var j :| 0 <= j < |g| - |old'| && g[|old'|..][j] == d;
      assert g[|old'| + j] == d && g[|old'| + j].name == Hack(n0 + j);
      TakenAt(g, |old'|, n0, j);
    }
    assert Covers(old', g, bodies, n, n);
  }
}
