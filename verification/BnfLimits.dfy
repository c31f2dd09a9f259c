/** Rules that are nothing but references: in a circle they keep simplification from ending, and otherwise each is some
  * number of steps from its end. Beside them a grammar outside the static condition on which simplification ends.
  */
module BnfLimits {
  import opened Wrappers
  import opened BnfGrammar
  import opened BnfSimplify
  import opened BnfPreserve
  import opened BnfSettle

  // --------------------------------------------------------------- where it never ends

  /** Rules that are nothing but references to one another. */
  ghost predicate LoneReferences(g: Grammar, s: set<nat>) {
    && s != {} && (forall k :: k in s ==> k < |g|)
    && forall k :: 0 <= k < |g| && k in s ==> LeadsInto(g[k].body, Names(g), s)
  }

  ghost predicate LeadsInto(e: Node, names: seq<RuleName>, s: set<nat>) {
    IsReference(e) && Target(names, e) in s
  }

  predicate IsReference(e: Node) {
    e.id.Rule? && e.name.Some?
  }

  lemma {:induction false} LoneRuleStaysLone(g: Grammar, s: set<nat>, d: nat)
    requires LoneReferences(g, s) && d < |g|
    ensures LoneReferences(WithBody(g, d, SimplifyRule(g, d).node), s)
    ensures d in s ==> SimplifyRule(g, d).changed
  {
    hide LeadsInto;
    var step := SimplifyRule(g, d);
    var g' := WithBody(g, d, step.node);
    if d in s {
      LoneStep(g, s, d);
    }
    hide SimplifyRule;
    forall k | 0 <= k < |g'| && k in s
      ensures LeadsInto(g'[k].body, Names(g'), s)
    {
      assert k != d ==> g'[k] == g[k];
    }
  }

  lemma {:induction false} LoneStep(g: Grammar, s: set<nat>, d: nat)
    requires LoneReferences(g, s) && d in s && d < |g|
    ensures LeadsInto(SimplifyRule(g, d).node, Names(g), s) && SimplifyRule(g, d).changed
  {
    var e, k := g[d].body, Target(Names(g), g[d].body);
    assert LeadsInto(e, Names(g), s) && k in s && LeadsInto(g[k].body, Names(g), s);
    hide LoneReferences, Find;
    ReferenceInlined(g, d, k);
  }

  /** A reference to a rule that is a reference becomes that reference. */
  lemma {:induction false} ReferenceInlined(g: Grammar, d: nat, k: nat)
    requires d < |g| && IsReference(g[d].body) && k == Target(Names(g), g[d].body) && k < |g| && IsReference(g[k].body)
    ensures var s := SimplifyRule(g, d);
            s.changed && IsReference(s.node) && Target(Names(g), s.node) == Target(Names(g), g[k].body)
  {
    hide Find, Names;
    assert SimplifyRule(g, d) == InlineRule(g, d, Top, g[d].body);
    assert NameOf(InlineRule(g, d, Top, g[d].body).node) == NameOf(g[k].body);
  }

  lemma {:induction false} LonePass(g: Grammar, s: set<nat>, d: nat)
    requires LoneReferences(g, s) && d <= |g|
    ensures LoneReferences(SimplifyFrom(g, d).grammar, s)
    ensures (exists k :: k in s && k >= d) ==> SimplifyFrom(g, d).changed
    decreases |g| - d
  {
    hide LoneReferences, SimplifyRule;
    if d < |g| {
      LoneRuleStaysLone(g, s, d);
      LonePass(WithBody(g, d, SimplifyRule(g, d).node), s, d + 1);
    } else {
      LoneWithin(g, s);
    }
  }

  lemma {:induction false} LoneWithin(g: Grammar, s: set<nat>)
    requires LoneReferences(g, s)
    ensures forall k :: k in s ==> k < |g|
    ensures exists k :: k in s && k >= 0
  {
    var k :| k in s;
  }

  /** Rules that lead to one another by lone references only are changed by every pass, for ever. */
  lemma {:induction false} LoneReferencesNeverSettle(gs: seq<Grammar>, s: set<nat>)
    requires Run(gs) && LoneReferences(gs[0], s)
    ensures forall i :: 0 <= i < |gs| ==>
              LoneReferences(gs[i], s) && SimplifyFrom(gs[i], 0).changed && !NormalForm(gs[i])
  {
    hide LoneReferences, NormalForm;
    var n := |gs| - 1;
    if n > 0 {
      LoneReferencesNeverSettle(gs[..n], s);
      assert forall i :: 0 <= i < n ==> gs[..n][i] == gs[i];
      LonePass(gs[n - 1], s, 0);
    }
    LoneChanges(gs[n], s);
  }

  lemma {:induction false} LoneChanges(g: Grammar, s: set<nat>)
    requires LoneReferences(g, s)
    ensures SimplifyFrom(g, 0).changed && !NormalForm(g)
  {
    LoneWithin(g, s);
    LonePass(g, s, 0);
    PassUnchanged(g, 0);
  }

  ghost predicate Circular(g: Grammar) {
    exists s :: LoneReferences(g, s)
  }

  /** A circle of lone references outlives a pass. */
  lemma {:induction false} CircleStays(g: Grammar, d: nat)
    requires d <= |g| && Circular(g)
    ensures Circular(SimplifyFrom(g, d).grammar) && !NormalForm(g)
  {
    var s :| LoneReferences(g, s);
    LonePass(g, s, d);
    LoneChanges(g, s);
  }

  // ------------------------------------------------------------------- chains

  ghost function FirstRules(n: nat): (s: set<nat>)
    ensures |s| == n && forall k: nat :: k in s <==> k < n
  {
    if n == 0 then {} else FirstRules(n - 1) + {n - 1}
  }

  /** The rules from which at least `n` lone references follow one another. */
  ghost function Lone(g: Grammar, n: nat): (s: set<nat>)
    ensures forall k :: k in s ==> k < |g|
  {
    if n == 0 then FirstRules(|g|)
    else set k | 0 <= k < |g| && IsReference(g[k].body) && Target(Names(g), g[k].body) in Lone(g, n - 1)
  }

  lemma {:induction false} LoneFalls(g: Grammar, n: nat)
    ensures Lone(g, n + 1) <= Lone(g, n)
  {
    if n > 0 {
      LoneFalls(g, n - 1);
    }
  }

  /** Without a circle there are fewer of them for every step. */
  lemma {:induction false} LoneShrinks(g: Grammar, n: nat)
    requires !Circular(g) && n <= |g|
    ensures |Lone(g, n)| <= |g| - n
  {
    hide Lone, Circular;
    if n == 0 {
      AllLone(g);
    } else {
      LoneShrinks(g, n - 1);
      LoneFalls(g, n - 1);
      LoneStands(g, n);
      Smaller(Lone(g, n), Lone(g, n - 1));
    }
  }

  lemma {:induction false} AllLone(g: Grammar)
    ensures |Lone(g, 0)| == |g|
  {
  }

  lemma {:induction false} LoneStands(g: Grammar, n: nat)
    requires !Circular(g) && n > 0
    ensures Lone(g, n) == Lone(g, n - 1) ==> Lone(g, n) == {}
  {
    var s := Lone(g, n);
    if s == Lone(g, n - 1) && s != {} {
      forall k | 0 <= k < |g| && k in s
        ensures LeadsInto(g[k].body, Names(g), s)
      {
      }
      assert LoneReferences(g, s);
    }
  }

  lemma {:induction false} Smaller(s: set<nat>, t: set<nat>)
    requires s <= t
    ensures |s| <= |t| && (s != t ==> |s| < |t|)
  {
    assert t == s + (t - s);
    assert s != t ==> t - s != {};
  }

  /** How many lone references follow one another from a rule, as far as `n`. */
  ghost function Height(g: Grammar, k: nat, n: nat): (h: nat)
    ensures h <= n && (h > 0 ==> k in Lone(g, h))
    ensures forall m :: 0 < m <= n && k in Lone(g, m) ==> m <= h
  {
    if n == 0 then 0 else if k in Lone(g, n) then n else Height(g, k, n - 1)
  }

  /** A lone reference leads to a rule of less height. */
  ghost predicate Chained(g: Grammar, height: seq<nat>) {
    |height| == |g| && forall k :: 0 <= k < |g| ==> Descends(g, height, k)
  }

  ghost predicate Descends(g: Grammar, height: seq<nat>, k: nat)
    requires k < |g| == |height|
  {
    var j := Target(Names(g), g[k].body);
    IsReference(g[k].body) && j < |g| ==> height[j] < height[k]
  }

  /** Without a circle there are heights. */
  lemma {:induction false} HeightsExist(g: Grammar) returns (height: seq<nat>)
    requires !Circular(g)
    ensures Chained(g, height)
  {
    height := seq(|g|, k requires 0 <= k < |g| => Height(g, k, |g|));
    LoneShrinks(g, |g|);
    assert Lone(g, |g|) == {};
    forall k | 0 <= k < |g|
      ensures Descends(g, height, k)
    {
      var j := Target(Names(g), g[k].body);
      if IsReference(g[k].body) && j < |g| {
        var h := Height(g, j, |g|);
        assert j in Lone(g, h) by { assert h == 0 ==> j in Lone(g, 0); }
        assert k in Lone(g, h + 1);
      }
    }
  }

  // ------------------------------------------------------- where it ends all the same

  const TOKEN_X := Node(Token, Some("x"), 0, false, [])
  const TO_A := Node(Rule, Some("a"), 0, false, [])
  const TO_B := Node(Rule, Some("b"), 0, false, [])
  const X_A := Node(Seq, None, 0, false, [TOKEN_X, TO_A])

  /** `a : b` and `b : x a`, the latter marked to be inlined. */
  const CIRCLE: Grammar := [Def(Text("a"), false, TO_B), Def(Text("b"), true, X_A)]

  /** The rules that may be inlined refer to one another in a circle, and yet one pass brings the grammar to rest. */
  lemma {:induction false} CircleThatSettles()
    ensures WellFormed(CIRCLE) && !Settles(CIRCLE)
    ensures NormalForm(SimplifyFrom(CIRCLE, 0).grammar)
  {
    var g := CIRCLE;
    CircleNames();
    assert WellFormed(g) by { assert X_A.children == [TOKEN_X, TO_A]; }
    CircleUnranked();
    assert SimplifyRule(g, 0) == Step(X_A, true);
    var g' := WithBody(g, 0, X_A);
    CircleNormal(g');
    UnchangedIffNormal(g', 1, Top, X_A);
    assert WithBody(g', 1, X_A) == g';
    assert SimplifyFrom(g', 2) == Pass(g', false);
    assert SimplifyFrom(g', 1).grammar == g';
    assert SimplifyFrom(g, 0).grammar == g';
  }

  lemma {:induction false} CircleNames()
    ensures Names(CIRCLE) == [Text("a"), Text("b")]
    ensures Target(Names(CIRCLE), TO_A) == 0 && Target(Names(CIRCLE), TO_B) == 1
  {
    var names := Names(CIRCLE);
    assert names[0] == Text("a") && names[1] == Text("b");
  }

  lemma {:induction false} CircleUnranked()
    ensures !Settles(CIRCLE)
  {
    var g := CIRCLE;
    CircleNames();
    assert 1 in Refs(Names(g), g[0].body);
    assert 0 in Refs(Names(g), g[1].body) by {
      assert X_A.children[1..] == [TO_A];
      assert RefsOf(Names(g), [TO_A]) == Refs(Names(g), TO_A) + RefsOf(Names(g), [TO_A][1..]);
    }
    forall cert: seq<May>, rank: seq<nat> | Sound(g, cert)
      ensures !Ranked(g, cert, rank)
    {
      assert MayBecome(Names(g), g[0].body, cert).ref;
      assert |rank| == |g| == |cert| ==> MayInline(g, cert, 0) && MayInline(g, cert, 1);
    }
  }

  lemma {:induction false} CircleNormal(g: Grammar)
    requires g == WithBody(CIRCLE, 0, X_A)
    ensures NormalForm(g)
  {
    CircleNames();
    assert Names(g) == Names(CIRCLE);
    assert !Inlinable(g, 0);
    assert Normal(g, TO_A) && Normal(g, TOKEN_X);
    assert Normal(g, X_A);
  }
}
