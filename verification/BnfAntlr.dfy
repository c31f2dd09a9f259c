/** Moving alternatives out of repetitions, to get round a bug of the ANTLR interpreter. */
module BnfAntlr {
  import opened Wrappers
  import opened BnfGrammar
  import opened BnfSimplify

  /** A repetition of alternatives the second of which is not just a token. */
  predicate Bug(e: Node) {
    e.id.Repeat? && e.children != [] && var either := e.children[0];
    either.id.Or? && |either.children| >= 2 && !either.children[1].id.Token? && !either.children[1].id.QuotedToken?
  }

  /** No such repetition anywhere in the body. */
  predicate Clean(e: Node) {
    !Bug(e) && forall c :: c in e.children ==> Clean(c)
  }

  /** Repetitions repeat something, and alternatives in them are not empty. */
  predicate Filled(e: Node) {
    && (e.id.Repeat? ==> |e.children| == 1 && (e.children[0].id.Or? ==> e.children[0].children != []))
    && forall c :: c in e.children ==> Filled(c)
  }

  /** A node and the rules that have been taken out of it. */
  datatype Split = Split(node: Node, added: seq<Def>)

  datatype Splits = Splits(nodes: seq<Node>, added: seq<Def>)

  /** Takes the alternatives out of the repetitions below `e`; the rules made are numbered from `n`. */
  function SplitNode(e: Node, n: nat): Split
    decreases e, 1
  {
    TakeOut(e, SplitAll(e.children, n), n)
  }

  /** What becomes of a node once its children are done. */
  function TakeOut(e: Node, s: Splits, n: nat): Split {
    var e' := e.(children := s.nodes);
    if Bug(e') then
      var number := n + |s.added|;
      Split(e'.(children := [Node(Rule, None, number, false, [])]), s.added + [Def(Hack(number), false, s.nodes[0])])
    else
      Split(e', s.added)
  }

  function SplitAll(es: seq<Node>, n: nat): Splits
    decreases es, 0
  {
    if es == [] then Splits([], []) else
      var s := SplitNode(es[0], n);
      var r := SplitAll(es[1..], n + |s.added|);
      Splits([s.node] + r.nodes, s.added + r.added)
  }

  lemma {:induction false} SplitOneMore(es: seq<Node>, i: nat, n: nat)
    requires i < |es|
    ensures var s := SplitNode(es[i], n);
            var r := SplitAll(es[i + 1..], n + |s.added|);
            SplitAll(es[i..], n) == Splits([s.node] + r.nodes, s.added + r.added)
  {
    assert es[i..][0] == es[i] && es[i..][1..] == es[i + 1..];
  }

  /** One rule with its alternatives taken out; the rules they become come last. */
  function SplitRule(g: Grammar, d: nat, n: nat): (g': Grammar)
    requires d < |g|
    ensures |g'| == |g| + |SplitNode(g[d].body, n).added| && Names(g) <= Names(g')
  {
    var s := SplitNode(g[d].body, n);
    var g' := WithBody(g, d, s.node) + s.added;
    assert Names(g')[..|g|] == Names(g);
    g'
  }

  // ----------------------------------------------------------------- nothing is left to take out

  lemma {:induction false} SplitClean(e: Node, n: nat)
    ensures Clean(SplitNode(e, n).node)
    ensures forall d :: d in SplitNode(e, n).added ==> Clean(d.body)
    ensures SplitNode(e, n).node.id == e.id
    decreases e, 1
  {
    SplitAllClean(e.children, n);
  }

  lemma {:induction false} SplitAllClean(es: seq<Node>, n: nat)
    ensures var s := SplitAll(es, n);
            && |s.nodes| == |es|
            && (forall c :: c in s.nodes ==> Clean(c))
            && (forall d :: d in s.added ==> Clean(d.body))
    decreases es, 0
  {
    if es != [] {
      SplitClean(es[0], n);
      SplitAllClean(es[1..], n + |SplitNode(es[0], n).added|);
    }
  }

  /** A clean body is left alone, so that walking over the rules that were added adds no more. */
  lemma {:induction false} CleanStays(e: Node, n: nat)
    requires Clean(e)
    ensures SplitNode(e, n) == Split(e, [])
    decreases e, 1
  {
    AllCleanStay(e.children, n);
    assert e.(children := e.children) == e;
  }

  lemma {:induction false} AllCleanStay(es: seq<Node>, n: nat)
    requires forall c :: c in es ==> Clean(c)
    ensures SplitAll(es, n) == Splits(es, [])
    decreases es, 0
  {
    if es != [] {
      assert es[0] in es && forall c :: c in es[1..] ==> c in es;
      CleanStays(es[0], n);
      AllCleanStay(es[1..], n);
      hide SplitNode, Clean, TakeOut;
      assert SplitAll(es, n) == Splits([es[0]] + es[1..], [] + []);
      ConsTail(es);
    }
  }

  lemma {:induction false} ConsTail(es: seq<Node>)
    requires es != []
    ensures [es[0]] + es[1..] == es
  {
  }

  // ---------------------------------------------------------------------- references

  /** Every reference in the body is to one of the first `bound` rules. */
  ghost predicate RefersBelow(names: seq<RuleName>, e: Node, bound: nat) {
    && (e.id.Rule? ==> Target(names, e) < bound)
    && forall c :: c in e.children ==> RefersBelow(names, c, bound)
  }

  ghost predicate Closed(g: Grammar) {
    forall k :: 0 <= k < |g| ==> RefersBelow(Names(g), g[k].body, |g|)
  }

  /** The numbers from `n` on have not been given to a rule. */
  ghost predicate Unused(g: Grammar, n: nat) {
    forall k :: 0 <= k < |g| && g[k].name.Hack? ==> g[k].name.number < n
  }

  lemma {:induction false} FindLater(a: seq<RuleName>, b: seq<RuleName>, name: RuleName)
    requires a <= b && Find(a, name) < |a|
    ensures Find(b, name) == Find(a, name)
  {
    var i, j := Find(a, name), Find(b, name);
    assert b[i] == a[i] && forall k :: 0 <= k < i ==> b[k] == a[k];
  }

  lemma {:induction false} RefersLater(a: seq<RuleName>, b: seq<RuleName>, e: Node, bound: nat, bound': nat)
    requires a <= b && bound <= |a| && bound <= bound' && RefersBelow(a, e, bound)
    ensures RefersBelow(b, e, bound')
  {
    if e.id.Rule? {
      FindLater(a, b, NameOf(e));
    }
    forall c | c in e.children
      ensures RefersBelow(b, c, bound')
    {
      RefersLater(a, b, c, bound, bound');
    }
  }

  /** The numbers from `n` on are those of the rules from `size` on. */
  ghost predicate Numbered(names: seq<RuleName>, size: nat, n: nat) {
    forall m: nat :: n <= m < n + |names| - size ==> Find(names, Hack(m)) == size + m - n
  }

  lemma {:induction false} SplitNumbers(e: Node, n: nat)
    ensures forall j :: 0 <= j < |SplitNode(e, n).added| ==> SplitNode(e, n).added[j].name == Hack(n + j)
    decreases e, 1
  {
    AllNumbers(e.children, n);
  }

  lemma {:induction false} AllNumbers(es: seq<Node>, n: nat)
    ensures forall j :: 0 <= j < |SplitAll(es, n).added| ==> SplitAll(es, n).added[j].name == Hack(n + j)
    decreases es, 0
  {
    if es != [] {
      SplitNumbers(es[0], n);
      AllNumbers(es[1..], n + |SplitNode(es[0], n).added|);
    }
  }

  /** The numbers given are fresh, so that each refers to the rule it was made for. */
  lemma {:induction false} FreshNumbers(g: Grammar, d: nat, n: nat)
    requires d < |g| && Unused(g, n)
    ensures var g' := SplitRule(g, d, n); Numbered(Names(g'), |g|, n) && Unused(g', n + |g'| - |g|)
  {
    SplitNames(g, d, n);
    NumberedBy(Names(SplitRule(g, d, n)), |g|, n);
    hide SplitRule, Names, Find;
  }

  /** The names after the step: those there were, then consecutive numbers. */
  lemma {:induction false} SplitNames(g: Grammar, d: nat, n: nat)
    requires d < |g| && Unused(g, n)
    ensures var g' := SplitRule(g, d, n); NamedFrom(Names(g'), |g|, n) && Unused(g', n + |g'| - |g|)
  {
    hide SplitNode;
    var g', added := SplitRule(g, d, n), SplitNode(g[d].body, n).added;
    SplitNumbers(g[d].body, n);
    forall k | 0 <= k < |g'|
      ensures if k < |g| then g'[k].name == g[k].name else g'[k].name == Hack(n + k - |g|)
    {
      if k >= |g| {
        assert added[k - |g|].name == Hack(n + (k - |g|));
      }
    }
    hide SplitRule;
  }

  ghost predicate NamedFrom(names: seq<RuleName>, size: nat, n: nat) {
    && size <= |names|
    && (forall k :: 0 <= k < size && names[k].Hack? ==> names[k].number < n)
    && (forall k :: size <= k < |names| ==> names[k] == Hack(n + k - size))
  }

  lemma {:induction false} NumberedBy(names: seq<RuleName>, size: nat, n: nat)
    requires NamedFrom(names, size, n)
    ensures Numbered(names, size, n)
  {
    hide Find;
    forall m: nat | n <= m < n + |names| - size
      ensures Find(names, Hack(m)) == size + m - n
    {
      assert names[size + m - n] == Hack(m);
      FindUnique(names, size + m - n, Hack(m));
    }
  }

  lemma {:induction false} FindUnique(names: seq<RuleName>, k: nat, name: RuleName)
    requires k < |names| && names[k] == name && forall j :: 0 <= j < k ==> names[j] != name
    ensures Find(names, name) == k
  {
    assert forall j :: 0 <= j < Find(names, name) ==> names[j] != name;
  }

  lemma {:induction false} HackRefers(names: seq<RuleName>, size: nat, n: nat, m: nat)
    requires Numbered(names, size, n) && n <= m && size + m - n < |names|
    ensures RefersBelow(names, Node(Rule, None, m, false, []), size + m - n + 1)
  {
    assert Find(names, Hack(m)) == size + m - n;
  }

  ghost predicate AllBelow(names: seq<RuleName>, es: seq<Node>, bound: nat) {
    forall c :: c in es ==> RefersBelow(names, c, bound)
  }

  /** Rules that refer to earlier ones only, the first of them being number `bound`. */
  ghost predicate EachBelow(names: seq<RuleName>, added: seq<Def>, bound: nat) {
    forall j :: 0 <= j < |added| ==> RefersBelow(names, added[j].body, bound + j)
  }

  lemma {:induction false} EachJoined(names: seq<RuleName>, a: seq<Def>, b: seq<Def>, bound: nat)
    requires EachBelow(names, a, bound) && EachBelow(names, b, bound + |a|)
    ensures EachBelow(names, a + b, bound)
  {
    hide RefersBelow;
    forall j | 0 <= j < |a + b|
      ensures RefersBelow(names, (a + b)[j].body, bound + j)
    {
      assert j >= |a| ==> (a + b)[j] == b[j - |a|] && bound + j == bound + |a| + (j - |a|);
    }
  }

  /** What has been taken out refers to earlier rules only, and what is left to no later ones. */
  lemma {:induction false} SplitRefers(names: seq<RuleName>, size: nat, n: nat, e: Node, m: nat)
    requires Numbered(names, size, n) && n <= m && RefersBelow(names, e, size)
    requires size + m - n + |SplitNode(e, m).added| <= |names|
    ensures var s := SplitNode(e, m);
            && RefersBelow(names, s.node, size + m - n + |s.added|)
            && EachBelow(names, s.added, size + m - n)
    decreases e, 1
  {
    var s := SplitAll(e.children, m);
    assert AllBelow(names, e.children, size);
    hide Numbered, EachBelow;
    AllRefer(names, size, n, e.children, m);
    TakenRefers(names, size, n, e, s, m);
  }

  lemma {:induction false} TakenRefers(names: seq<RuleName>, size: nat, n: nat, e: Node, s: Splits, m: nat)
    requires Numbered(names, size, n) && n <= m && RefersBelow(names, e, size)
    requires size + m - n + |TakeOut(e, s, m).added| <= |names|
    requires AllBelow(names, s.nodes, size + m - n + |s.added|) && EachBelow(names, s.added, size + m - n)
    ensures var t := TakeOut(e, s, m);
            && RefersBelow(names, t.node, size + m - n + |t.added|)
            && EachBelow(names, t.added, size + m - n)
  {
    hide EachBelow;
    if Bug(e.(children := s.nodes)) {
      HackRefers(names, size, n, m + |s.added|);
      var added := [Def(Hack(m + |s.added|), false, s.nodes[0])];
      assert EachBelow(names, added, size + m - n + |s.added|) by { LoneBelow(names, s, m, size + m - n + |s.added|); }
      EachJoined(names, s.added, added, size + m - n);
    } else {
      assert NameOf(e.(children := s.nodes)) == NameOf(e);
    }
  }

  lemma {:induction false} LoneBelow(names: seq<RuleName>, s: Splits, m: nat, bound: nat)
    requires s.nodes != [] && AllBelow(names, s.nodes, bound)
    ensures EachBelow(names, [Def(Hack(m + |s.added|), false, s.nodes[0])], bound)
  {
    hide RefersBelow;
    assert s.nodes[0] in s.nodes;
  }

  lemma {:induction false} AllRefer(names: seq<RuleName>, size: nat, n: nat, es: seq<Node>, m: nat)
    requires Numbered(names, size, n) && n <= m && AllBelow(names, es, size)
    requires size + m - n + |SplitAll(es, m).added| <= |names|
    ensures var s := SplitAll(es, m);
            AllBelow(names, s.nodes, size + m - n + |s.added|) && EachBelow(names, s.added, size + m - n)
    decreases es, 0
  {
    hide Numbered, EachBelow, RefersBelow;
    if es == [] {
      NoneBelow(names, size + m - n);
    } else {
      var s := SplitNode(es[0], m);
      var r := SplitAll(es[1..], m + |s.added|);
      SplitRefers(names, size, n, es[0], m);
      AllRefer(names, size, n, es[1..], m + |s.added|);
      RefersLater(names, names, s.node, size + m - n + |s.added|, size + m - n + |s.added| + |r.added|);
      EachJoined(names, s.added, r.added, size + m - n);
    }
  }

  lemma {:induction false} NoneBelow(names: seq<RuleName>, bound: nat)
    ensures EachBelow(names, [], bound)
  {
  }

  // ------------------------------------------------------------------------ meaning

  /** A body means the same wherever the rules it refers to do. */
  lemma {:induction false} DenOld(a: seq<RuleName>, b: seq<RuleName>, e: Node, bound: nat, env: seq<Lang>,
          env': seq<Lang>)
    requires a <= b && bound <= |a| && RefersBelow(a, e, bound)
    requires bound <= |env| && bound <= |env'| && env[..bound] == env'[..bound]
    ensures Den(b, e, env') == Den(a, e, env)
    decreases e, 1
  {
    match e.id {
      case Rule =>
        FindLater(a, b, NameOf(e));
        var k := Target(a, e);
        assert env[k] == env[..bound][k] && env'[k] == env'[..bound][k];
      case _ =>
        AllOld(a, b, e.children, bound, env, env');
    }
  }

  lemma {:induction false} AllOld(a: seq<RuleName>, b: seq<RuleName>, es: seq<Node>, bound: nat, env: seq<Lang>,
          env': seq<Lang>)
    requires a <= b && bound <= |a| && forall c :: c in es ==> RefersBelow(a, c, bound)
    requires bound <= |env| && bound <= |env'| && env[..bound] == env'[..bound]
    ensures DenSeq(b, es, env') == DenSeq(a, es, env) && DenOr(b, es, env') == DenOr(a, es, env)
    decreases es, 0
  {
    if es != [] {
      DenOld(a, b, es[0], bound, env, env');
      AllOld(a, b, es[1..], bound, env, env');
    }
  }

  /** The environment gives the rules that were taken out what their bodies mean. */
  ghost predicate Solves(names: seq<RuleName>, added: seq<Def>, env: seq<Lang>) {
    forall d :: d in added ==>
      var k := Find(names, d.name); k < |env| && env[k] == Den(names, d.body, env)
  }

  /** Taking alternatives out does not change what a body means, if the rules made mean what their bodies do. */
  lemma {:induction false} SplitMeans(names: seq<RuleName>, e: Node, n: nat, env: seq<Lang>)
    requires Filled(e) && Solves(names, SplitNode(e, n).added, env)
    ensures Den(names, SplitNode(e, n).node, env) == Den(names, e, env)
    decreases e, 1
  {
    var s := SplitAll(e.children, n);
    var e' := e.(children := s.nodes);
    AllMean(names, e.children, n, env);
    assert Den(names, e', env) == Den(names, e, env);
    if Bug(e') {
      SplitAllClean(e.children, n);
      var def := Def(Hack(n + |s.added|), false, s.nodes[0]);
      var ref := Node(Rule, None, n + |s.added|, false, []);
      assert def in SplitNode(e, n).added && s.nodes == [s.nodes[0]];
      assert Den(names, ref, env) == Den(names, s.nodes[0], env);
      hide Den, SplitNode, SplitAll;
      SameLone(names, ref, s.nodes[0], env);
    }
  }

  lemma {:induction false} SameLone(names: seq<RuleName>, a: Node, b: Node, env: seq<Lang>)
    requires Den(names, a, env) == Den(names, b, env)
    ensures DenSeq(names, [a], env) == DenSeq(names, [b], env)
  {
    assert [a][1..] == [] && [b][1..] == [];
  }

  lemma {:induction false} AllMean(names: seq<RuleName>, es: seq<Node>, n: nat, env: seq<Lang>)
    requires (forall c :: c in es ==> Filled(c)) && Solves(names, SplitAll(es, n).added, env)
    ensures var s := SplitAll(es, n);
            DenSeq(names, s.nodes, env) == DenSeq(names, es, env) && DenOr(names, s.nodes, env) == DenOr(names, es, env)
    decreases es, 0
  {
    if es != [] {
      var s := SplitNode(es[0], n);
      var r := SplitAll(es[1..], n + |s.added|);
      SplitMeans(names, es[0], n, env);
      AllMean(names, es[1..], n + |s.added|, env);
      assert ([s.node] + r.nodes)[1..] == r.nodes;
    }
  }

  /** The languages of the rules, then those of the rules taken out, each from what comes before it. */
  ghost function Extended(names: seq<RuleName>, env: seq<Lang>, added: seq<Def>): (env': seq<Lang>)
    ensures |env'| == |env| + |added|
    decreases |added|
  {
    if added == [] then env else
      var most := Extended(names, env, added[..|added| - 1]);
      most + [Den(names, added[|added| - 1].body, most)]
  }

  lemma {:induction false} ExtendedStart(names: seq<RuleName>, env: seq<Lang>, added: seq<Def>)
    ensures Extended(names, env, added)[..|env|] == env
    decreases |added|
  {
    if added != [] {
      ExtendedStart(names, env, added[..|added| - 1]);
      var most := Extended(names, env, added[..|added| - 1]);
      assert Extended(names, env, added)[..|env|] == most[..|env|];
    }
  }

  lemma {:induction false} ExtendedAt(names: seq<RuleName>, env: seq<Lang>, added: seq<Def>, j: nat)
    requires j < |added|
    ensures var all := Extended(names, env, added);
            all[|env| + j] == Den(names, added[j].body, all[..|env| + j])
    decreases |added|
  {
    var n := |added| - 1;
    var most, all := Extended(names, env, added[..n]), Extended(names, env, added);
    assert all[..|env| + j] == most[..|env| + j];
    if j < n {
      ExtendedAt(names, env, added[..n], j);
    } else {
      assert most[..|env| + j] == most;
    }
  }

  /** The rules taken out of rule `d`. */
  ghost function Added(g: Grammar, d: nat, n: nat): seq<Def>
    requires d < |g|
  {
    SplitNode(g[d].body, n).added
  }

  /** What the rules should mean after the step. */
  ghost function NewLanguages(g: Grammar, d: nat, n: nat): (env: seq<Lang>)
    requires d < |g|
    ensures |env| == |SplitRule(g, d, n)|
  {
    Extended(Names(SplitRule(g, d, n)), Languages(g), Added(g, d, n))
  }

  lemma {:induction false} OldLanguages(g: Grammar, d: nat, n: nat)
    requires d < |g|
    ensures NewLanguages(g, d, n)[..|g|] == Languages(g)
  {
    hide Languages, Names, Added, SplitRule, Extended;
    ExtendedStart(Names(SplitRule(g, d, n)), Languages(g), Added(g, d, n));
  }

  /** Taking the alternatives out of one rule keeps the languages of all rules there were. */
  lemma {:induction false} SplitKeepsLanguages(g: Grammar, d: nat, n: nat)
    requires d < |g| && Closed(g) && Unused(g, n) && Filled(g[d].body)
    ensures var g' := SplitRule(g, d, n); Languages(g')[..|g|] == Languages(g)
  {
    hide NewLanguages, Closed, Unused, Filled, SplitRule, Languages, Fixpoint;
    var g' := SplitRule(g, d, n);
    var env := NewLanguages(g, d, n);
    OldLanguages(g, d, n);
    NewFixpoint(g, d, n);
    OldFixpoint(g, d, n);
    LanguagesLeast(g', env);
    LanguagesLeast(g, Languages(g')[..|g|]);
    forall k | 0 <= k < |g|
      ensures Languages(g')[k] == Languages(g)[k]
    {
      assert env[k] == env[..|g|][k];
      assert Languages(g)[k] <= Languages(g')[..|g|][k];
    }
  }

  /** What a rule means after the step, if the rules taken out mean what their bodies do. */
  lemma {:induction false} RuleMeans(g: Grammar, d: nat, n: nat, k: nat, env: seq<Lang>)
    requires d < |g| && k < |g| && Closed(g) && Filled(g[d].body) && |env| >= |g|
    requires Solves(Names(SplitRule(g, d, n)), Added(g, d, n), env)
    ensures var g' := SplitRule(g, d, n);
            Den(Names(g'), g'[k].body, env) == Den(Names(g), g[k].body, env[..|g|])
  {
    var g' := SplitRule(g, d, n);
    if k == d {
      SplitMeans(Names(g'), g[d].body, n, env);
    }
    hide Solves, Filled, SplitNode;
    DenOld(Names(g), Names(g'), g[k].body, |g|, env[..|g|], env);
  }

  /** A rule taken out is where its name leads. */
  lemma {:induction false} AddedAt(g: Grammar, d: nat, n: nat)
    requires d < |g| && Unused(g, n)
    ensures var g', added := SplitRule(g, d, n), Added(g, d, n);
            && |g'| == |g| + |added|
            && forall j :: 0 <= j < |added| ==> g'[|g| + j] == added[j] && Find(Names(g'), added[j].name) == |g| + j
  {
    hide SplitNode, Unused, Find, Names;
    var g', added := SplitRule(g, d, n), Added(g, d, n);
    FreshNumbers(g, d, n);
    SplitNumbers(g[d].body, n);
    forall j | 0 <= j < |added|
      ensures g'[|g| + j] == added[j] && Find(Names(g'), added[j].name) == |g| + j
    {
      assert added[j].name == Hack(n + j);
    }
  }

  lemma {:induction false} OldFixpoint(g: Grammar, d: nat, n: nat)
    requires d < |g| && Closed(g) && Unused(g, n) && Filled(g[d].body)
    ensures Fixpoint(g, Languages(SplitRule(g, d, n))[..|g|])
  {
    hide Added, Closed, Filled, SplitRule, Languages, Unused, Names;
    var g', added := SplitRule(g, d, n), Added(g, d, n);
    var env := Languages(g');
    LanguagesFixpoint(g');
    AddedAt(g, d, n);
    forall def | def in added
      ensures var k := Find(Names(g'), def.name); k < |env| && env[k] == Den(Names(g'), def.body, env)
    {
      var j :| 0 <= j < |added| && added[j] == def;
      assert g'[|g| + j] == def;
    }
    forall k | 0 <= k < |g|
      ensures env[..|g|][k] == Den(Names(g), g[k].body, env[..|g|])
    {
      RuleMeans(g, d, n, k, env);
    }
  }

  /** The rules from `|old'|` on mean in the extended environment what their bodies do. */
  lemma {:induction false} AddedSolved(g: Grammar, old': seq<Lang>, added: seq<Def>)
    requires |g| == |old'| + |added|
    requires forall j :: 0 <= j < |added| ==>
               && g[|old'| + j] == added[j] && RefersBelow(Names(g), added[j].body, |old'| + j)
               && Find(Names(g), added[j].name) == |old'| + j
    ensures var env := Extended(Names(g), old', added);
            && Solves(Names(g), added, env)
            && forall k :: |old'| <= k < |g| ==> env[k] == Den(Names(g), g[k].body, env)
  {
    hide Extended, RefersBelow, Den, Names, Find;
    var env := Extended(Names(g), old', added);
    forall j | 0 <= j < |added|
      ensures env[|old'| + j] == Den(Names(g), added[j].body, env)
    {
      ExtendedAt(Names(g), old', added, j);
      DenOld(Names(g), Names(g), added[j].body, |old'| + j, env[..|old'| + j], env);
    }
    forall k | |old'| <= k < |g|
      ensures env[k] == Den(Names(g), g[k].body, env)
    {
      assert g[|old'| + (k - |old'|)] == added[k - |old'|];
    }
  }

  lemma {:induction false} NewSolved(g: Grammar, d: nat, n: nat)
    requires d < |g| && Closed(g) && Unused(g, n)
    ensures var g', env := SplitRule(g, d, n), NewLanguages(g, d, n);
            && Solves(Names(g'), Added(g, d, n), env)
            && forall k :: |g| <= k < |g'| ==> env[k] == Den(Names(g'), g'[k].body, env)
  {
    hide Added, Closed, SplitRule, Languages, Unused, Names, RefersBelow, Den, Solves, Extended, Find;
    AddedRefers(g, d, n);
    AddedAt(g, d, n);
    AddedSolved(SplitRule(g, d, n), Languages(g), Added(g, d, n));
  }

  lemma {:induction false} NewFixpoint(g: Grammar, d: nat, n: nat)
    requires d < |g| && Closed(g) && Unused(g, n) && Filled(g[d].body)
    ensures Fixpoint(SplitRule(g, d, n), NewLanguages(g, d, n))
  {
    hide Added, Closed, Filled, SplitRule, Languages, Unused, Names, NewLanguages, Den, Solves;
    var g', env := SplitRule(g, d, n), NewLanguages(g, d, n);
    NewSolved(g, d, n);
    OldLanguages(g, d, n);
    LanguagesFixpoint(g);
    forall k | 0 <= k < |g'|
      ensures env[k] == Den(Names(g'), g'[k].body, env)
    {
      if k < |g| {
        assert env[k] == env[..|g|][k];
        RuleMeans(g, d, n, k, env);
      }
    }
  }

  lemma {:induction false} AddedRefers(g: Grammar, d: nat, n: nat)
    requires d < |g| && Closed(g) && Unused(g, n)
    ensures var g' := SplitRule(g, d, n);
            && RefersBelow(Names(g'), g'[d].body, |g'|)
            && forall j :: 0 <= j < |Added(g, d, n)| ==> RefersBelow(Names(g'), Added(g, d, n)[j].body, |g| + j)
  {
    var names := Names(SplitRule(g, d, n));
    FreshNumbers(g, d, n);
    assert RefersBelow(Names(g), g[d].body, |g|);
    hide SplitNode, Unused;
    RefersLater(Names(g), names, g[d].body, |g|, |g|);
    SplitRefers(names, |g|, n, g[d].body, n);
  }

  /** Afterwards every reference is still to a rule. */
  lemma {:induction false} SplitCloses(g: Grammar, d: nat, n: nat)
    requires d < |g| && Closed(g) && Unused(g, n)
    ensures Closed(SplitRule(g, d, n))
  {
    var g' := SplitRule(g, d, n);
    AddedRefers(g, d, n);
    AddedAt(g, d, n);
    forall k | 0 <= k < |g'|
      ensures RefersBelow(Names(g'), g'[k].body, |g'|)
    {
      if k >= |g| {
        assert g'[|g| + (k - |g|)] == Added(g, d, n)[k - |g|];
        RefersLater(Names(g'), Names(g'), g'[k].body, k, |g'|);
      } else if k != d {
        RefersLater(Names(g), Names(g'), g[k].body, |g|, |g'|);
      }
    }
  }

  // ------------------------------------------------------ which grammars this can be done to

  lemma {:induction false} SplitFilled(e: Node, n: nat)
    requires Filled(e)
    ensures var s := SplitNode(e, n); Filled(s.node) && forall def :: def in s.added ==> Filled(def.body)
    decreases e, 1
  {
    var s := SplitAll(e.children, n);
    AllFilled(e.children, n);
    SplitAllClean(e.children, n);
    var e' := e.(children := s.nodes);
    if e.id.Repeat? {
      SplitClean(e.children[0], n);
      assert s.nodes[0] == SplitNode(e.children[0], n).node;
      if e.children[0].id.Or? {
        SplitAllClean(e.children[0].children, n);
      }
    }
    if Bug(e') {
      var ref := Node(Rule, None, n + |s.added|, false, []);
      assert Filled(ref) && s.nodes[0] in s.nodes;
      assert SplitNode(e, n).node == e'.(children := [ref]);
    } else {
      assert SplitNode(e, n).node == e';
    }
  }

  lemma {:induction false} AllFilled(es: seq<Node>, n: nat)
    requires forall c :: c in es ==> Filled(c)
    ensures var s := SplitAll(es, n);
            (forall c :: c in s.nodes ==> Filled(c)) && forall def :: def in s.added ==> Filled(def.body)
    decreases es, 0
  {
    if es != [] {
      SplitFilled(es[0], n);
      AllFilled(es[1..], n + |SplitNode(es[0], n).added|);
    }
  }

  // --------------------------------------------------------------- one rule after the other

  /** How far the walk over the rules has come: `old'` has become `g`, and the rules before `d` are done. */
  ghost predicate Progress(old': Grammar, g: Grammar, n0: nat, n: nat, d: nat) {
    && |old'| <= |g| && d <= |g| && n == n0 + |g| - |old'|
    && Closed(g) && Unused(g, n) && Names(old') <= Names(g) && Languages(g)[..|old'|] == Languages(old')
    && (forall k :: 0 <= k < |g| ==> Filled(g[k].body) && (k < d || k >= |old'| ==> Clean(g[k].body)))
    && (forall k :: |old'| <= k < |g| ==> g[k].name == Hack(n0 + k - |old'|))
  }

  lemma {:induction false} ProgressStarts(g: Grammar, n: nat)
    requires Closed(g) && Unused(g, n) && forall k :: 0 <= k < |g| ==> Filled(g[k].body)
    ensures Progress(g, g, n, n, 0)
  {
  }

  /** One more rule done. A rule that was added is clean, so that nothing more comes of it and the walk ends. */
  lemma {:induction false} ProgressStep(old': Grammar, g: Grammar, n0: nat, n: nat, d: nat)
    requires Progress(old', g, n0, n, d) && d < |g|
    ensures var g' := SplitRule(g, d, n); Progress(old', g', n0, n + |g'| - |g|, d + 1)
    ensures d >= |old'| ==> SplitRule(g, d, n) == g
  {
    var g', added := SplitRule(g, d, n), Added(g, d, n);
    SplitKeepsLanguages(g, d, n);
    SplitCloses(g, d, n);
    FreshNumbers(g, d, n);
    SplitNumbers(g[d].body, n);
    SplitClean(g[d].body, n);
    SplitFilled(g[d].body, n);
    if d >= |old'| {
      CleanStays(g[d].body, n);
    }
    hide Closed, Unused, Languages, Filled, Clean, SplitNode, Names;
    assert Languages(g')[..|old'|] == Languages(g')[..|g|][..|old'|];
    forall k | |g| <= k < |g'|
      ensures g'[k].name == Hack(n0 + k - |old'|) && Filled(g'[k].body) && Clean(g'[k].body)
    {
      assert g'[k] == SplitNode(g[d].body, n).added[k - |g|];
    }
  }

  lemma {:induction false} ProgressFilled(old': Grammar, g: Grammar, n0: nat, n: nat, d: nat)
    requires Progress(old', g, n0, n, d) && d < |g|
    ensures Filled(g[d].body)
  {
  }

  lemma {:induction false} ProgressEnds(old': Grammar, g: Grammar, n0: nat, n: nat)
    requires Progress(old', g, n0, n, |g|)
    ensures |old'| <= |g| && Closed(g) && Unused(g, n) && Names(old') <= Names(g) &&
            Languages(g)[..|old'|] == Languages(old')
    ensures forall k :: 0 <= k < |g| ==> Clean(g[k].body)
    ensures forall k :: |old'| <= k < |g| ==> g[k].name == Hack(n0 + k - |old'|)
    ensures n == n0 + |g| - |old'|
  {
  }

  lemma {:induction false} StepIs(g: Grammar, g': Grammar, d: nat, n: nat, body: Node)
    requires d < |g| && body == SplitNode(g[d].body, n).node
    requires var all := g + SplitNode(g[d].body, n).added; g' == WithBody(all, d, body)
    ensures g' == SplitRule(g, d, n)
  {
    hide SplitNode;
  }
}
