/** Reordering the children of a node and extracting some of them. */
module AstReorder {
  import opened AstForest
  import opened AstCopy
  import opened AstTree
  import opened AstEdit
  import opened AstSplice

  /** `g` is `f` but for the children of `p`, which are now `list`, some of those it had. */
  ghost predicate Relisted(f: Forest, g: Forest, p: Ast, list: seq<Ast>) {
    && WellFormed(f) && WellFormed(g) && p in Nodes(f)
    && g.types == f.types && g.kids == f.kids[p := list] && forall x :: x in list ==> x in f.kids[p]
  }

  lemma {:induction false} RelistedAtFirst(f: Forest, p: Ast)
    requires WellFormed(f) && p in Nodes(f)
    ensures Relisted(f, f, p, f.kids[p])
  {
  }

  lemma {:induction false} RelistedFacts(f: Forest, g: Forest, p: Ast, list: seq<Ast>)
    requires Relisted(f, g, p, list)
    ensures p in Nodes(g) && Nodes(g) == Nodes(f) && g.kids[p] == list && WellFormed(g) && WellFormed(f)
  {
  }

  lemma {:induction false} RelistedBelow(f: Forest, g: Forest, p: Ast, list: seq<Ast>)
    requires Relisted(f, g, p, list)
    ensures Nodes(f) == Nodes(g) && forall n, k | n in Nodes(f) && k in Nodes(f) && Below(g, n, k) :: Below(f, n, k)
  {
    hide Listed, Falling, Hanging;
  }

  /** A child that is not listed any more hangs from nothing, and can be hung from `p` again. */
  lemma {:induction false} Released(f: Forest, g: Forest, p: Ast, list: seq<Ast>, t: Ast)
    requires Relisted(f, g, p, list) && t in f.kids[p] && t !in list
    ensures t in Nodes(g) && p in Nodes(g) && t != p && g.up[t] == null && !InTree(g, t, p)
  {
    RelistedBelow(f, g, p, list);
    assert ListedAt(f, p) && Below(f, p, t);
    assert !Below(g, p, t);
    forall q | q in Nodes(g)
      ensures !Below(g, q, t)
    {
      assert q != p ==> !Below(f, q, t);
    }
    if InTree(g, t, p) {
      InTreeShrinks(f, g, t, p);
      RankInTree(f, t, p);
    }
  }

  lemma {:induction false} UpdatedTwice(kids: map<Ast, seq<Ast>>, p: Ast, s: seq<Ast>, t: seq<Ast>)
    ensures kids[p := s][p := t] == kids[p := t]
  {
  }

  lemma {:induction false} RelistedInsert(f: Forest, g: Forest, p: Ast, list: seq<Ast>, i: nat, c: Ast)
    requires Relisted(f, g, p, list) && i <= |list| && c in f.kids[p] && c in Nodes(g) && p in Nodes(g)
    requires WellFormed(Insert(g, p, i, c))
    ensures Relisted(f, Insert(g, p, i, c), p, list[..i] + [c] + list[i..])
  {
    hide Listed, Falling, Hanging, Raised, InTree;
    var list' := list[..i] + [c] + list[i..];
    assert forall x :: x in list' ==> x in list || x == c;
    UpdatedTwice(f.kids, p, list, list');
    hide WellFormed;
  }

  lemma {:induction false} RelistedRemove(f: Forest, g: Forest, p: Ast, list: seq<Ast>, i: nat)
    requires Relisted(f, g, p, list) && i < |list| && p in Nodes(g)
    requires WellFormed(Remove(g, p, i))
    ensures Relisted(f, Remove(g, p, i), p, list[..i] + list[i + 1..])
  {
    hide Listed, Falling, Hanging;
    var list' := list[..i] + list[i + 1..];
    assert forall x :: x in list' ==> x in list;
    UpdatedTwice(f.kids, p, list, list');
    hide WellFormed;
  }

  /** `order` lists the places of `s` in another order. */
  ghost predicate Permutes(order: seq<nat>, s: seq<Ast>) {
    && |order| == |s|
    && (forall i :: 0 <= i < |order| ==> order[i] < |s|)
    && forall i, j :: 0 <= i < j < |order| ==> order[i] != order[j]
  }

  /** The elements of `s` at the first `n` places of `order`. */
  ghost function Picked(s: seq<Ast>, order: seq<nat>, n: nat): (r: seq<Ast>)
    requires Permutes(order, s) && n <= |order|
    ensures |r| == n && forall i :: 0 <= i < n ==> r[i] == s[order[i]]
  {
    if n == 0 then [] else Picked(s, order, n - 1) + [s[order[n - 1]]]
  }

  /** The first `n` of `s` that are not wanted. */
  ghost function Unwanted(s: seq<Ast>, wanted: seq<bool>, n: nat): (r: seq<Ast>)
    requires n <= |wanted| <= |s|
    ensures |r| <= n
  {
    if n == 0 then [] else Unwanted(s, wanted, n - 1) + if wanted[n - 1] then [] else [s[n - 1]]
  }

  /** What is left when the first `n` have been looked at. */
  ghost function Remaining(s: seq<Ast>, wanted: seq<bool>, n: nat): seq<Ast>
    requires n <= |wanted| <= |s|
  {
    Unwanted(s, wanted, n) + s[n..]
  }

  /** The last one kept so far. */
  ghost function LastKept(s: seq<Ast>, wanted: seq<bool>, n: nat): Ast?
    requires n <= |wanted| <= |s|
  {
    var u := Unwanted(s, wanted, n);
    if u == [] then null else u[|u| - 1]
  }

  lemma {:induction false} RemainingStep(s: seq<Ast>, wanted: seq<bool>, n: nat)
    requires n < |wanted| <= |s|
    ensures var k, r := |Unwanted(s, wanted, n)|, Remaining(s, wanted, n);
            && k < |r| && r[k] == s[n] && Get(r, k + 1) == Get(s, n + 1) &&
               LastKept(s, wanted, n) == (if k == 0 then null else r[k - 1])
            && Remaining(s, wanted, n + 1) == (if wanted[n] then r[..k] + r[k + 1..] else r)
            && LastKept(s, wanted, n + 1) == (if wanted[n] then LastKept(s, wanted, n) else s[n])
  {
    var u, r := Unwanted(s, wanted, n), Remaining(s, wanted, n);
    assert s[n..] == [s[n]] + s[n + 1..];
    assert r[..|u|] == u && r[|u| + 1..] == s[n + 1..];
  }

  /** Detaches the wanted ones among the first children; the others stay, in the order they had. */
  /** Of the first `i` children those wanted have been handed out. */
  ghost predicate Extracted(out: seq<Ast?>, s: seq<Ast>, wanted: seq<bool>, i: nat)
    requires i <= |wanted| <= |s|
  {
    |out| == i && forall j :: 0 <= j < i ==> out[j] == if wanted[j] then s[j] else null
  }

  lemma {:induction false} NothingExtracted(s: seq<Ast>, wanted: seq<bool>)
    requires |wanted| <= |s|
    ensures Extracted([], s, wanted, 0)
  {
  }

  lemma {:induction false} ExtractedOn(out: seq<Ast?>, s: seq<Ast>, wanted: seq<bool>, i: nat)
    requires i < |wanted| <= |s| && Extracted(out, s, wanted, i)
    ensures Extracted(out + [if wanted[i] then s[i] else null], s, wanted, i + 1)
  {
  }

  method ExtractChildren(ghost f: Forest, parent: Ast, wanted: seq<bool>) returns (out: seq<Ast?>, ghost g: Forest)
    requires WellFormed(f) && Linked(f, {}) && parent in Nodes(f) && 0 < |wanted| <= |f.kids[parent]|
    modifies parent`child, Elements(f.kids[parent])`sibling, Elements(f.kids[parent])`orphan
    ensures |out| == |wanted|
    ensures forall i :: 0 <= i < |wanted| ==> out[i] == if wanted[i] then f.kids[parent][i] else null
    ensures Relisted(f, g, parent, Remaining(f.kids[parent], wanted, |wanted|)) && Linked(g, {})
    ensures forall i :: 0 <= i < |wanted| && wanted[i] ==> f.kids[parent][i].orphan
  {
    hide Total, Distinct, Below, ListedAt, Listed, Falling, Hanging, WellFormed, LinkedAt, Linked, Relisted, Remaining,
         LastKept, Get, Before, Extracted;
    ghost var s := f.kids[parent];
    NothingExtracted(s, wanted);
    RelistedAtFirst(f, parent);
    Pointers(f, parent);
    ExtractStart(s, wanted);
    var p := parent.child;
    var last: Ast? := null;
    out, g := [], f;
    for i := 0 to |wanted|
      invariant Extracted(out, s, wanted, i)
      invariant Relisted(f, g, parent, Remaining(s, wanted, i)) && WellFormed(g) && Linked(g, {})
      invariant p == Get(s, i) && last == LastKept(s, wanted, i)
      invariant forall j :: 0 <= j < i && wanted[j] ==> s[j].orphan
    {
      RemainingStep(s, wanted, i);
      ExtractedOn(out, s, wanted, i);
      RelistedFacts(f, g, parent, Remaining(s, wanted, i));
      ghost var k := |Unwanted(s, wanted, i)|;
      PlaceFacts(g, parent, k);
      GetAt(s, i);
      var next := p.sibling;
      if wanted[i] {
        BeforeWithin(f, g, parent, Remaining(s, wanted, i), k);
        ghost var was := g;
        g := TakeOut(g, parent, k, p, last);
        RelistedRemove(f, was, parent, Remaining(s, wanted, i), k);
        out := out + [p];
      } else {
        last := p;
        out := out + [null];
      }
      p := next;
    }
    AllExtracted(out, s, wanted);
  }

  lemma {:induction false} AllExtracted(out: seq<Ast?>, s: seq<Ast>, wanted: seq<bool>)
    requires |wanted| <= |s| && Extracted(out, s, wanted, |wanted|)
    ensures |out| == |wanted| && forall i :: 0 <= i < |wanted| ==> out[i] == if wanted[i] then s[i] else null
  {
  }

  lemma {:induction false} GetAt(s: seq<Ast>, i: nat)
    requires i < |s|
    ensures Get(s, i) == s[i]
  {
  }

  lemma {:induction false} ExtractStart(s: seq<Ast>, wanted: seq<bool>)
    requires |wanted| <= |s|
    ensures Remaining(s, wanted, 0) == s && LastKept(s, wanted, 0) == null
  {
  }

  lemma {:induction false} BeforeWithin(f: Forest, g: Forest, p: Ast, list: seq<Ast>, k: nat)
    requires Relisted(f, g, p, list) && k < |list|
    ensures Before(list, k) <= Elements(f.kids[p]) && list[k] in f.kids[p]
  {
  }

  /** Unlinks one child, given the one before it. */
  method TakeOut(ghost f: Forest, parent: Ast, ghost k: nat, p: Ast, last: Ast?) returns (ghost g: Forest)
    requires WellFormed(f) && Linked(f, {}) && parent in Nodes(f) && k < |f.kids[parent]|
    requires f.kids[parent][k] == p && last == if k == 0 then null else f.kids[parent][k - 1]
    modifies parent`child, p`sibling, p`orphan, Before(f.kids[parent], k)`sibling
    ensures p.orphan && g == Remove(f, parent, k) && WellFormed(g) && Linked(g, {})
  {
    hide Total, Distinct, Below, ListedAt, Listed, Falling, Hanging, WellFormed, LinkedAt, Linked, NextOf, DownAt, UpAt;
    hide Downs, Ups, Remove, Get, Before;
    PlaceFacts(f, parent, k);
    Apart(f, {parent}, {p} + Before(f.kids[parent], k));
    if last != null {
      last.sibling := p.sibling;
    } else {
      parent.child := p.sibling;
    }
    p.orphan := true;
    p.sibling := null;
    RemoveLinked(f, parent, k);
    g := Remove(f, parent, k);
  }

  // ------------------------------------------------------------------- reordering

  lemma {:induction false} OneMore(s: seq<nat>, i: nat)
    requires i < |s|
    ensures s[..i + 1] == s[..i] + [s[i]]
  {
  }

  /** Takes the children out one by one. */
  method TakeChildren(ghost f: Forest, ast: Ast, count: nat, shuffleSpace: array<Ast?>) returns (ghost g: Forest)
    requires WellFormed(f) && Linked(f, {}) && ast in Nodes(f) && count == |f.kids[ast]| <= shuffleSpace.Length
    modifies shuffleSpace, ast`child, Elements(f.kids[ast])
    ensures Relisted(f, g, ast, []) && WellFormed(g) && Linked(g, {})
    ensures forall j :: 0 <= j < count ==> shuffleSpace[j] == f.kids[ast][j]
  {
    hide Total, Distinct, Below, ListedAt, Listed, Falling, Hanging, WellFormed, LinkedAt, Linked, Relisted, Remove,
         Insert, InTree, Ready;
    ghost var s := f.kids[ast];
    RelistedAtFirst(f, ast);
    g := f;
    assert s[0..] == s;
    for i := 0 to count
      invariant Relisted(f, g, ast, s[i..]) && WellFormed(g) && Linked(g, {})
      invariant forall j :: 0 <= j < i ==> shuffleSpace[j] == s[j]
    {
      RelistedFacts(f, g, ast, s[i..]);
      assert s[i..][0] == s[i];
      ghost var was := g;
      var child;
      child, g := Pop(g, ast);
      assert forall x: object :: x in Nodes(g) ==> x != shuffleSpace;
      shuffleSpace[i] := child;
      RelistedRemove(f, was, ast, s[i..], 0);
      assert s[i..][..0] + s[i..][1..] == s[i + 1..];
    }
    assert s[count..] == [];
  }

  /** Puts the children in the given order: child `i` is the one that was at place `newOrder[i]`. */
  method ReorderChildren(ghost f: Forest, ast: Ast, newOrder: seq<nat>,
          shuffleSpace: array<Ast?>) returns (ghost g: Forest)
    requires WellFormed(f) && Linked(f, {}) && ast in Nodes(f)
    requires Permutes(newOrder, f.kids[ast]) && |f.kids[ast]| <= shuffleSpace.Length
    modifies shuffleSpace, ast`child, Elements(f.kids[ast])
    ensures Relisted(f, g, ast, Picked(f.kids[ast], newOrder, |newOrder|)) && Linked(g, {})
  {
    hide Total, Distinct, Below, ListedAt, Listed, Falling, Hanging, WellFormed, LinkedAt, Linked, Relisted, Remove,
         Insert, InTree, Ready;
    ghost var s := f.kids[ast];
    var count := ChildCount(f, ast);
    g := TakeChildren(f, ast, count, shuffleSpace);
    assert Picked(s, newOrder, 0) == [];
    for i := 0 to count
      invariant Relisted(f, g, ast, Picked(s, newOrder, i)) && WellFormed(g) && Linked(g, {})
      invariant forall j :: 0 <= j < count && j !in newOrder[..i] ==> shuffleSpace[j] == s[j]
    {
      StillToCome(f, g, ast, newOrder, i);
      var index := newOrder[i];
      var t := shuffleSpace[index];
      var r;
      ghost var was, f1 := g, g;
      r, f1, g := Append(g, ast, t);
      NoCopy(was, t, ast, f1, r);
      RelistedInsert(f, was, ast, Picked(s, newOrder, i), i, t);
      shuffleSpace[index] := null;
      OneMore(newOrder, i);
    }
  }

  lemma {:induction false} AtEnd(s: seq<Ast>, x: Ast)
    ensures s[..|s|] + [x] + s[|s|..] == s + [x]
  {
  }

  /** The child to be put back next is still detached. */
  lemma {:induction false} StillToCome(f: Forest, g: Forest, p: Ast, order: seq<nat>, i: nat)
    requires WellFormed(f) && p in Nodes(f) && Permutes(order, f.kids[p]) && i < |order|
    requires Relisted(f, g, p, Picked(f.kids[p], order, i))
    ensures order[i] < |f.kids[p]| && order[i] !in order[..i]
    ensures var s, list := f.kids[p], Picked(f.kids[p], order, i);
            var t := s[order[i]];
            && t in Nodes(g) && p in Nodes(g) && g.kids[p] == list && t != p && t in s && g.up[t] == null &&
               !InTree(g, t, p)
            && Before(list, |list|) <= Elements(s) && t in Elements(s)
            && Picked(s, order, i + 1) == list[..i] + [t] + list[i..]
  {
    var s, list := f.kids[p], Picked(f.kids[p], order, i);
    assert ListedAt(f, p);
    forall j | 0 <= j < i
      ensures list[j] != s[order[i]]
    {
      assert order[j] != order[i];
    }
    hide Falling, Hanging, Listed, InTree;
    Released(f, g, p, list, s[order[i]]);
    AtEnd(list, s[order[i]]);
  }
}
