/** When simplification comes to rest. */
module BnfRest {
  import opened BnfGrammar
  import opened BnfSimplify
  import opened BnfPreserve
  import opened BnfSettle
  import opened BnfLimits
  import opened BnfTended
  import opened BnfHeavy
  import opened BnfOrder

  /** The grammar after so many passes. */
  ghost function Passes(g: Grammar, n: nat): Grammar {
    if n == 0 then g else SimplifyFrom(Passes(g, n - 1), 0).grammar
  }

  /** The loop over passes ends. */
  ghost predicate Rests(g: Grammar) {
    exists n: nat :: NormalForm(Passes(g, n))
  }

  lemma {:induction false} PassesAdd(g: Grammar, n: nat)
    ensures Passes(SimplifyFrom(g, 0).grammar, n) == Passes(g, n + 1)
  {
    if n > 0 {
      PassesAdd(g, n - 1);
    }
  }

  /** A pass over a grammar in normal form changes nothing; until then, every pass changes something. */
  lemma {:induction false} StaysNormal(g: Grammar, n: nat, m: nat)
    requires n <= m && NormalForm(Passes(g, n))
    ensures Passes(g, m) == Passes(g, n)
    decreases m
  {
    hide NormalForm;
    if n < m {
      StaysNormal(g, n, m - 1);
      PassUnchanged(Passes(g, n), 0);
      NormalIsUnchanged(Passes(g, n));
    }
  }

  lemma {:induction false} NormalIsUnchanged(g: Grammar)
    ensures NormalForm(g) <==> !SimplifyFrom(g, 0).changed
  {
    PassUnchanged(g, 0);
  }

  // ------------------------------------------------------- a circle means no rest

  lemma {:induction false} CircleRemains(g: Grammar, n: nat, m: nat)
    requires n <= m && Circular(Passes(g, n))
    ensures Circular(Passes(g, m)) && !NormalForm(Passes(g, m))
    decreases m
  {
    hide Circular, NormalForm;
    if n < m {
      CircleRemains(g, n, m - 1);
      CircleStays(Passes(g, m - 1), 0);
    }
    CircleStays(Passes(g, m), 0);
  }

  /** A grammar in which lone references come to form a circle never comes to rest, whatever else it is. */
  lemma {:induction false} NoRestInCircles(g: Grammar, n: nat)
    requires Circular(Passes(g, n))
    ensures !Rests(g)
  {
    hide Circular, NormalForm;
    if Rests(g) {
      var m: nat :| NormalForm(Passes(g, m));
      var last := if n <= m then m else n;
      StaysNormal(g, m, last);
      CircleRemains(g, n, last);
    }
  }

  // ------------------------------------------------------- without circles there is rest

  /** One rule is rewritten: the whole is lighter, or weighs the same, is lower, and has the same heights. */
  lemma {:induction false} RuleLightens(g: Grammar, weight: seq<nat>, height: seq<nat>, d: nat)
    requires Poised(g, weight, height) && d < |g|
    ensures var s := SimplifyRule(g, d);
            var g' := WithBody(g, d, s.node);
            && WellFormed(g') && NoInlineLoop(g') && Heavy(g', weight)
            && var w, w' := Total(g, weight, |g|), Total(g', weight, |g|);
               && w' <= w
               && (w' == w ==>
                     && Chained(g', height)
                     && Total(g', height, |g|) + (if s.changed then 1 else 0) <= Total(g, height, |g|))
  {
    var s := SimplifyRule(g, d);
    NodeLighter(g, weight, height, d, Top, g[d].body);
    NeverSelfInlines(g, d);
    NodeRefers(g, d, Top, g[d].body);
    LoopsKeptOut(g, d);
    RuleStaysShaped(g, d, s.node);
    hide SimplifyRule, NoInlineLoop, WellFormed, Heavy, Chained;
    TotalAfter(g, weight, d, s.node, |g|);
    TotalAfter(g, height, d, s.node, |g|);
    HeavyStays(g, weight, d, s.node);
    if Weight(Names(g), s.node, weight) == Weight(Names(g), g[d].body, weight) {
      ChainedStays(g, weight, height, d, s);
    }
  }

  lemma {:induction false} RuleStaysShaped(g: Grammar, d: nat, body: Node)
    requires WellFormed(g) && d < |g| && Shaped(Names(g), body)
    ensures WellFormed(WithBody(g, d, body))
  {
  }

  lemma {:induction false} HeavyStays(g: Grammar, weight: seq<nat>, d: nat, body: Node)
    requires Heavy(g, weight) && d < |g| && Weight(Names(g), body, weight) <= Weight(Names(g), g[d].body, weight)
    requires Refs(Names(g), body) <= Expanded(g, Refs(Names(g), g[d].body))
    ensures Heavy(WithBody(g, d, body), weight)
  {
    var g' := WithBody(g, d, body);
    hide Weight;
    assert HeavyAt(g, weight, d);
    forall j | j in Refs(Names(g), body) && j < |g|
      ensures weight[j] <= weight[d]
    {
      if j !in Refs(Names(g), g[d].body) {
        var k :| k in Refs(Names(g), g[d].body) && k < |g| && Inlinable(g, k) && j in Refs(Names(g), g[k].body);
        assert HeavyAt(g, weight, k);
      }
    }
    hide Refs;
    forall k | 0 <= k < |g'|
      ensures HeavyAt(g', weight, k)
    {
      assert HeavyAt(g, weight, k);
    }
  }

  lemma {:induction false} ChainedStays(g: Grammar, weight: seq<nat>, height: seq<nat>, d: nat, s: Step)
    requires WellFormed(g) && Chained(g, height) && d < |g| && Shaped(Names(g), s.node)
    requires Lighter(Names(g), weight, height, g[d].body, s)
    requires Weight(Names(g), s.node, weight) == Weight(Names(g), g[d].body, weight)
    requires !Inner(g[d].body.id) && !g[d].body.id.Rule? ==> s.node == g[d].body
    ensures Chained(WithBody(g, d, s.node), height)
  {
    var g' := WithBody(g, d, s.node);
    forall k | 0 <= k < |g'|
      ensures Descends(g', height, k)
    {
      assert Descends(g, height, k);
    }
  }

  /** The same for a pass, if there is no circle at the end of it. */
  lemma {:induction false} PassLightens(g: Grammar, weight: seq<nat>, height: seq<nat>, d: nat)
    requires Poised(g, weight, height) && d <= |g| && !Circular(SimplifyFrom(g, d).grammar)
    ensures var p := SimplifyFrom(g, d);
            && |p.grammar| == |g| && WellFormed(p.grammar) && NoInlineLoop(p.grammar) && Heavy(p.grammar, weight)
            && var w, w' := Total(g, weight, |g|), Total(p.grammar, weight, |g|);
               && w' <= w
               && (w' == w ==>
                     && Chained(p.grammar, height)
                     && Total(p.grammar, height, |g|) + (if p.changed then 1 else 0) <= Total(g, height, |g|))
    decreases |g| - d
  {
    hide NoInlineLoop, WellFormed, Heavy, Chained, Total, SimplifyRule, Circular;
    if d < |g| {
      RuleLightens(g, weight, height, d);
      var g' := WithBody(g, d, SimplifyRule(g, d).node);
      if Total(g', weight, |g|) == Total(g, weight, |g|) {
        PassLightens(g', weight, height, d + 1);
      } else {
        assert !Circular(g') by { NoCircleBefore(g', d + 1); }
        var height' := HeightsExist(g');
        PassLightens(g', weight, height', d + 1);
      }
    }
  }

  lemma {:induction false} NoCircleBefore(g: Grammar, d: nat)
    requires d <= |g| && !Circular(SimplifyFrom(g, d).grammar)
    ensures !Circular(g)
  {
    hide Circular, NormalForm;
    if Circular(g) {
      CircleStays(g, d);
    }
  }

  lemma {:induction false} LighterRests(g: Grammar, weight: seq<nat>, height: seq<nat>)
    requires Poised(g, weight, height) && forall n: nat :: !Circular(Passes(g, n))
    ensures Rests(g)
    decreases Total(g, weight, |g|), Total(g, height, |g|)
  {
    hide NoInlineLoop, WellFormed, Heavy, Chained, Total, Circular, NormalForm;
    if NormalForm(g) {
      assert Passes(g, 0) == g;
    } else {
      var g' := SimplifyFrom(g, 0).grammar;
      assert Passes(g, 1) == g' by { assert Passes(g, 0) == g; }
      NormalIsUnchanged(g);
      PassLightens(g, weight, height, 0);
      forall n: nat
        ensures !Circular(Passes(g', n))
      {
        PassesAdd(g, n);
      }
      assert !Circular(g') by { assert Passes(g', 0) == g'; }
      if Total(g', weight, |g|) == Total(g, weight, |g|) {
        LighterRests(g', weight, height);
      } else {
        var height' := HeightsExist(g');
        LighterRests(g', weight, height');
      }
      RestsLater(g);
    }
  }

  lemma {:induction false} RestsLater(g: Grammar)
    requires Rests(SimplifyFrom(g, 0).grammar)
    ensures Rests(g)
  {
    hide NormalForm;
    var n: nat :| NormalForm(Passes(SimplifyFrom(g, 0).grammar, n));
    PassesAdd(g, n);
  }

  /** If no rule to be inlined leads back to itself, simplification comes to rest if and only if lone references never
    * form a circle.
    */
  lemma {:induction false} RestsIff(g: Grammar)
    requires WellFormed(g) && NoInlineLoop(g)
    ensures Rests(g) <==> forall n: nat :: !Circular(Passes(g, n))
  {
    hide Circular, NormalForm, WellFormed, NoInlineLoop, Rests;
    if n: nat :| Circular(Passes(g, n)) {
      NoRestInCircles(g, n);
    } else {
      assert Passes(g, 0) == g;
      var weight := HeavyExists(g);
      var height := HeightsExist(g);
      LighterRests(g, weight, height);
    }
  }

  // ------------------------------------------------------- what is known to be kept

  /** Conditions under which no rule is ever inlined into itself. */
  ghost predicate Kept(g: Grammar) {
    WellFormed(g) && (Settles(g) || NoInlineLoop(g))
  }

  lemma {:induction false} NothingSelfInlines(g: Grammar, n: nat)
    requires Kept(g)
    ensures Kept(Passes(g, n)) && !PassSelfInlines(Passes(g, n), 0)
  {
    hide NoInlineLoop, Sound, Ranked;
    if n == 0 {
      KeptOnce(g);
    } else {
      NothingSelfInlines(g, n - 1);
      KeptOnce(Passes(g, n - 1));
      KeptOnce(Passes(g, n));
    }
  }

  lemma {:induction false} KeptOnce(g: Grammar)
    requires Kept(g)
    ensures Kept(SimplifyFrom(g, 0).grammar) && !PassSelfInlines(g, 0)
  {
    hide NoInlineLoop, Sound, Ranked, PassSelfInlines, Languages;
    if NoInlineLoop(g) {
      PassKeepsLoopsOut(g, 0);
      PassPreserved(g, 0);
    } else {
      var cert: seq<May>, rank: seq<nat> :| Sound(g, cert) && Ranked(g, cert, rank);
      var weight := WeightsExist(g, cert, rank);
      PassSettles(g, cert, rank, weight, 0);
    }
  }

  /** Then passes keep names, languages and the order of the alternatives, and what the shape of the bodies has to be
    * for the step that comes next.
    */
  lemma {:induction false} PassesPreserve(g: Grammar, n: nat)
    requires Kept(g)
    ensures WellFormed(Passes(g, n)) && Languages(Passes(g, n)) == Languages(g) && Orders(Passes(g, n)) == Orders(g)
    ensures Kempt(g) ==> Kempt(Passes(g, n))
  {
    hide Kept, Languages, Orders, PassSelfInlines, Kempt;
    NothingSelfInlines(g, n);
    if n == 0 {
      KeptWellFormed(g);
    } else {
      PassesPreserve(g, n - 1);
      NothingSelfInlines(g, n - 1);
      PassPreserved(Passes(g, n - 1), 0);
      PassRetained(Passes(g, n - 1), 0);
      if Kempt(g) { PassStaysKempt(Passes(g, n - 1), 0); }
    }
  }

  lemma {:induction false} KeptWellFormed(g: Grammar)
    requires Kept(g)
    ensures WellFormed(g)
  {
  }

  lemma {:induction false} PassesKeepNames(g: Grammar, n: nat)
    ensures Names(Passes(g, n)) == Names(g) && |Passes(g, n)| == |g|
  {
    if n > 0 {
      PassesKeepNames(g, n - 1);
      PassKeepsNames(Passes(g, n - 1), 0);
    }
  }

  lemma {:induction false} PassKeepsNames(g: Grammar, d: nat)
    requires d <= |g|
    ensures Names(SimplifyFrom(g, d).grammar) == Names(g) && |SimplifyFrom(g, d).grammar| == |g|
    decreases |g| - d
  {
    hide SimplifyRule;
    if d < |g| {
      PassKeepsNames(WithBody(g, d, SimplifyRule(g, d).node), d + 1);
    }
  }

  // ------------------------------------------------------- conditions that can be looked up

  /** The static condition is one under which there is rest. */
  lemma {:induction false} SettlesRests(g: Grammar)
    requires WellFormed(g) && Settles(g)
    ensures Rests(g)
  {
    var cert: seq<May>, rank: seq<nat> :| Sound(g, cert) && Ranked(g, cert, rank);
    var weight := WeightsExist(g, cert, rank);
    hide Sound, Ranked, Outweighs;
    StableRests(g, cert, rank, weight);
  }

  lemma {:induction false} StableRests(g: Grammar, cert: seq<May>, rank: seq<nat>, weight: seq<nat>)
    requires Stable(g, cert, rank, weight)
    ensures Rests(g)
    decreases Total(g, weight, |g|)
  {
    hide Stable, Total, NormalForm;
    if NormalForm(g) {
      assert Passes(g, 0) == g;
    } else {
      NormalIsUnchanged(g);
      PassSettles(g, cert, rank, weight, 0);
      StableRests(SimplifyFrom(g, 0).grammar, cert, rank, weight);
      RestsLater(g);
    }
  }

  /** It is not the only one. */
  lemma {:induction false} CircleRests()
    ensures WellFormed(CIRCLE) && !Settles(CIRCLE) && Rests(CIRCLE)
  {
    CircleThatSettles();
    hide NormalForm, Settles;
    assert Passes(CIRCLE, 0) == CIRCLE;
    assert NormalForm(Passes(CIRCLE, 1));
  }

  /** Any run is at rest if and only if it has come to a normal form, in which it then stays. */
  lemma {:induction false} RunAtRest(gs: seq<Grammar>)
    requires Run(gs)
    ensures var n := |gs| - 1;
            && gs[n] == Passes(gs[0], n) && (NormalForm(gs[n]) <==> !SimplifyFrom(gs[n], 0).changed)
            && (NormalForm(gs[n]) ==> forall m: nat :: m >= n ==> Passes(gs[0], m) == gs[n])
  {
    hide NormalForm;
    var n := |gs| - 1;
    if n > 0 {
      RunAtRest(gs[..n]);
      assert gs[n] == SimplifyFrom(gs[n - 1], 0).grammar;
    }
    NormalIsUnchanged(gs[n]);
    if NormalForm(gs[n]) {
      forall m: nat | m >= n
        ensures Passes(gs[0], m) == gs[n]
      {
        StaysNormal(gs[0], n, m);
      }
    }
  }
}
