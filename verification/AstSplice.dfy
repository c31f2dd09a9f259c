/** Finding the place of a node among its siblings, and taking nodes out, replacing and reordering them. */
module AstSplice {
  import opened AstForest
  import opened AstCopy
  import opened AstTree
  import opened AstEdit

  /** The child at a place, or null past the end. */
  method ChildIdx(ghost f: Forest, ast: Ast, idx: nat) returns (child: Ast?)
    requires WellFormed(f) && Linked(f, {}) && ast in Nodes(f)
    ensures child == Get(f.kids[ast], idx)
  {
    hide Listed, Falling, Hanging, Linked;
    ghost var s := f.kids[ast];
    ChildrenChain(f, ast);
    child := ast.child;
    var i := idx;
    ghost var k := 0;
    while child != null && i > 0
      invariant 0 <= i && k + i == idx && child == Get(s, k)
      invariant 0 <= k <= idx
      decreases i
    {
      child := child.sibling;
      i := i - 1;
      k := k + 1;
    }
  }

  method ChildCount(ghost f: Forest, ast: Ast) returns (count: nat)
    requires WellFormed(f) && Linked(f, {}) && ast in Nodes(f)
    ensures count == |f.kids[ast]|
  {
    hide Listed, Falling, Hanging, Linked;
    ghost var s := f.kids[ast];
    ChildrenChain(f, ast);
    var child := ast.child;
    count := 0;
    while child != null
      invariant count <= |s| && child == Get(s, count)
      decreases |s| - count
    {
      count := count + 1;
      child := child.sibling;
    }
  }

  /** The place of a child among its siblings. */
  method Index(ghost f: Forest, ast: Ast) returns (idx: nat)
    requires WellFormed(f) && Linked(f, {}) && IsChild(f, ast) && ast.HasParent()
    ensures idx == Place(f, ast) && idx < |f.kids[f.up[ast]]| && f.kids[f.up[ast]][idx] == ast
  {
    hide Listed, Falling, Hanging, Linked;
    ChildFacts(f, ast);
    ghost var s := f.kids[f.up[ast]];
    Pointers(f, ast);
    ChildrenChain(f, f.up[ast]);
    var child := ast.parent.child;
    idx := 0;
    while child != ast
      invariant idx <= Place(f, ast) && child == s[idx]
      decreases |s| - idx
    {
      IndexFirst(s, ast, idx);
      child := child.sibling;
      idx := idx + 1;
    }
    IndexFirst(s, ast, idx);
  }

  /** The sibling before a child of the list `s`, or null for the first one. */
  method Previous(ghost s: seq<Ast>, ast: Ast) returns (last: Ast?)
    requires ast.HasParent() && ast in s && Chain(ast.parent.child, s)
    ensures last == if IndexOf(s, ast) == 0 then null else s[IndexOf(s, ast) - 1]
  {
    last := null;
    var cur := ast.parent.child;
    ghost var k := 0;
    while cur != ast
      invariant k <= IndexOf(s, ast) && cur == s[k] && last == if k == 0 then null else s[k - 1]
      decreases |s| - k
    {
      IndexFirst(s, ast, k);
      last := cur;
      cur := cur.sibling;
      k := k + 1;
    }
    IndexFirst(s, ast, k);
  }

  lemma {:induction false} IndexFirst(s: seq<Ast>, x: Ast, k: nat)
    requires x in s && k <= IndexOf(s, x)
    ensures k == IndexOf(s, x) <==> s[k] == x
  {
    if k > 0 {
      IndexFirst(s[1..], x, k - 1);
    }
  }

  /** Looking up a place and asking for the place of a child undo each other. */
  lemma {:induction false} IndexInverse(f: Forest, p: Ast, i: nat)
    requires WellFormed(f) && p in Nodes(f) && i < |f.kids[p]|
    ensures IsChild(f, f.kids[p][i]) && f.up[f.kids[p][i]] == p && Place(f, f.kids[p][i]) == i
  {
    assert Below(f, p, f.kids[p][i]) && ListedAt(f, p);
    var k := IndexOf(f.kids[p], f.kids[p][i]);
    assert f.kids[p][k] == f.kids[p][i];
  }

  // ------------------------------------------------------------ taking out and replacing

  /** Takes a child out of its list for good. Its tree is then freed, which is left out here. */
  method RemoveChild(ghost f: Forest, ast: Ast) returns (ghost g: Forest)
    requires WellFormed(f) && Linked(f, {}) && IsChild(f, ast) && ast.HasParent()
    modifies ast`parent, ast`sibling, ast.parent`child, Before(f.kids[f.up[ast]], Place(f, ast))`sibling
    ensures g == Remove(f, f.up[ast], Place(f, ast)) && WellFormed(g) && Linked(g, {})
  {
    hide Total, Distinct, Below, ListedAt, Listed, Falling, Hanging, WellFormed, LinkedAt, Linked, NextOf, DownAt, UpAt;
    hide Chain, Downs, Ups, Remove, InTree, Get, Before, IndexOf, Place, IsChild;
    ChildFacts(f, ast);
    ghost var p, i := f.up[ast], Place(f, ast);
    PlaceFacts(f, p, i);
    Pointers(f, ast);
    var last := Previous(f.kids[p], ast);
    Apart(f, {p}, {ast} + Before(f.kids[p], i));
    if last != null {
      last.sibling := ast.sibling;
    } else {
      ast.parent.child := ast.sibling;
    }
    ast.parent := null;
    ast.sibling := null;
    RemoveLinked(f, p, i);
    g := Remove(f, p, i);
  }

  /** The pointers of a child and of the one before it. */
  lemma {:induction false} PlaceFacts(f: Forest, p: Ast, i: nat)
    requires WellFormed(f) && Linked(f, {}) && p in Nodes(f) && i < |f.kids[p]|
    ensures var s := f.kids[p];
            && Chain(p.child, s) && p.child == s[0] && s[i].HasParent() && p.typ == f.types[p] && s[i] in Nodes(f) &&
               s[i] != p && s[i].parent == p && !s[i].orphan
            && s[i].sibling == Get(s, i + 1) && (if i == 0 then Before(s, i) == {} else Before(s, i) == {s[i - 1]})
            && (i > 0 ==>
                  s[i - 1] in Nodes(f) && s[i - 1] != p && s[i - 1] != s[i] && s[i - 1].parent == p && !s[i - 1].orphan)
  {
    ChildrenChain(f, p);
    assert LinkedAt(f, p, {}) && ListedAt(f, p) && Below(f, p, f.kids[p][i]);
    if i > 0 {
      assert Below(f, p, f.kids[p][i - 1]);
    }
  }

  ghost function BeforeIn(f: Forest, c: Ast): set<Ast>
    requires WellFormed(f)
  {
    if IsChild(f, c) then ChildFacts(f, c); Before(f.kids[f.up[c]], Place(f, c)) else {}
  }

  /** `c` hangs from `p`, which is then known to be a node. */
  ghost predicate HangsFrom(f: Forest, p: Ast, c: Ast)
    requires WellFormed(f)
  {
    p in Nodes(f) && Below(f, p, c)
  }

  /** `r` in the place of `prev`. */
  ghost function Swapped(f: Forest, p: Ast, prev: Ast, r: Ast): Forest
    requires WellFormed(f) && HangsFrom(f, p, prev) && r in Nodes(f)
  {
    if f.types[p] == prev then
      UntypeWellFormed(f, p);
      Retype(Untype(f, p), p, r)
    else
      var i := IndexOf(f.kids[p], prev);
      RemoveWellFormed(f, p, i);
      Insert(Remove(f, p, i), p, i, r)
  }

  /** `next` put where `prev` is, as the type or as a child. `prev` becomes an orphan, and keeps its scope. */
  method Swap(ghost f: Forest, prev: Ast, next: Ast) returns (r: Ast, ghost f1: Forest, ghost g: Forest)
    requires WellFormed(f) && Linked(f, {}) && prev in Nodes(f) && next in Nodes(f) && prev != next
    requires prev.HasParent() && (next.HasParent() || !InTree(f, next, prev.parent))
    modifies prev.parent`child, prev.parent`typ, prev`sibling, prev`orphan, next`parent, next`orphan, next`sibling
    modifies BeforeIn(f, prev)`sibling
    ensures Ready(f, next, old(prev.parent), f1, r) && (r == next || fresh(r)) && HangsFrom(f1, old(prev.parent), prev)
    ensures g == Swapped(f1, old(prev.parent), prev, r) && WellFormed(g) && Linked(g, {})
    ensures forall x :: x in Nodes(g) && x !in Nodes(f) ==> fresh(x)
  {
    hide *;
    Attached(f, prev);
    var parent := prev.parent;
    Pointers(f, next);
    r, f1 := Detached(f, next);
    ReadyFor(f, next, parent, f1, r);
    StillHangs(f, f1, parent, prev);
    g := Swapped(f1, parent, prev, r);
    PutInPlace(f1, parent, prev, r);
  }

  method PutInPlace(ghost f: Forest, parent: Ast, prev: Ast, next: Ast)
    requires WellFormed(f) && Linked(f, {}) && HangsFrom(f, parent, prev) && prev in Nodes(f) && prev.HasParent() &&
             prev.parent == parent
    requires next in Nodes(f) && f.up[next] == null && !InTree(f, next, parent)
    modifies parent`child, parent`typ, prev`sibling, prev`orphan, next`parent, next`orphan, next`sibling
    modifies BeforeIn(f, prev)`sibling
    ensures WellFormed(Swapped(f, parent, prev, next)) && Linked(Swapped(f, parent, prev, next), {})
    ensures Nodes(Swapped(f, parent, prev, next)) == Nodes(f)
  {
    hide *;
    SwappedNodes(f, parent, prev, next);
    NewcomerFacts(f, parent, prev, next);
    if parent.typ == prev {
      PutAsType(f, parent, prev, next);
    } else {
      PutAsChild(f, parent, prev, next);
    }
  }

  method PutAsType(ghost f: Forest, parent: Ast, prev: Ast, next: Ast)
    requires WellFormed(f) && Linked(f, {}) && HangsFrom(f, parent, prev) && prev in Nodes(f) && parent.typ == prev
    requires next in Nodes(f) && f.up[next] == null && !InTree(f, next, parent)
    modifies parent`typ, prev`sibling, prev`orphan, next`parent, next`orphan
    ensures WellFormed(Swapped(f, parent, prev, next)) && Linked(Swapped(f, parent, prev, next), {})
  {
    hide Total, Distinct, Below, ListedAt, Listed, Falling, Hanging, WellFormed, LinkedAt, Linked, NextOf, DownAt, UpAt;
    hide Chain, Downs, Ups, Swapped, InTree, Get, Before, BeforeIn, IndexOf, HangsFrom, Shape, Extends;
    NewcomerFacts(f, parent, prev, next);
    TypeFacts(f, parent, prev);
    Apart(f, {parent}, {next, prev} + BeforeIn(f, prev));
    next.parent := parent;
    next.orphan := false;
    parent.typ := next;
    prev.sibling := null;
    prev.orphan := true;
    SwapTypeLinked(f, parent, prev, next);
  }

  method PutAsChild(ghost f: Forest, parent: Ast, prev: Ast, next: Ast)
    requires WellFormed(f) && Linked(f, {}) && HangsFrom(f, parent, prev) && prev in Nodes(f) && parent.typ != prev
    requires next in Nodes(f) && f.up[next] == null && !InTree(f, next, parent)
    modifies parent`child, prev`sibling, prev`orphan, next`parent, next`orphan, next`sibling
    modifies BeforeIn(f, prev)`sibling
    ensures WellFormed(Swapped(f, parent, prev, next)) && Linked(Swapped(f, parent, prev, next), {})
  {
    hide Total, Distinct, Below, ListedAt, Listed, Falling, Hanging, WellFormed, LinkedAt, Linked, NextOf, DownAt, UpAt;
    hide Chain, Downs, Ups, Swapped, InTree, Get, Before, BeforeIn, IndexOf, HangsFrom, Shape, Extends;
    NewcomerFacts(f, parent, prev, next);
    KidFacts(f, parent, prev);
    Apart(f, {parent}, {next, prev} + BeforeIn(f, prev));
    next.parent := parent;
    next.orphan := false;
    var last := Previous(f.kids[parent], prev);
    if last != null {
      last.sibling := next;
    } else {
      parent.child := next;
    }
    next.sibling := prev.sibling;
    prev.sibling := null;
    prev.orphan := true;
    SwapChildLinked(f, parent, prev, next);
  }

  lemma {:induction false} SwappedNodes(f: Forest, p: Ast, c: Ast, r: Ast)
    requires WellFormed(f) && HangsFrom(f, p, c) && r in Nodes(f)
    ensures Nodes(Swapped(f, p, c, r)) == Nodes(f)
  {
  }

  lemma {:induction false} NewcomerFacts(f: Forest, p: Ast, c: Ast, r: Ast)
    requires WellFormed(f) && Linked(f, {}) && HangsFrom(f, p, c) && c in Nodes(f)
    requires r in Nodes(f) && f.up[r] == null && !InTree(f, r, p)
    ensures r != p && r != c && r !in f.kids[p] && r.sibling == null && p in Nodes(f) && p in f.kids && p in f.types
    ensures p.typ == f.types[p] && (c == f.types[p] || c in f.kids[p])
  {
    hide Falling;
    assert LinkedAt(f, r, {}) && LinkedAt(f, p, {}) && ListedAt(f, p) && !Below(f, p, r);
  }

  /** A node is where it was when another has been copied. */
  lemma {:induction false} StillHangs(f: Forest, g: Forest, p: Ast, c: Ast)
    requires WellFormed(f) && WellFormed(g) && Extends(g, f, {}) && HangsFrom(f, p, c) && c in Nodes(f)
    ensures HangsFrom(g, p, c) && c in Nodes(g) && BeforeIn(g, c) == BeforeIn(f, c)
  {
    hide Listed, Falling;
    assert g.kids[p] == f.kids[p] && g.types[p] == f.types[p] && g.up[c] == p && f.up[c] == p;
    hide Hanging, Extends;
  }

  /** The pointers around a node that is to be replaced. */
  lemma {:induction false} TypeFacts(f: Forest, p: Ast, c: Ast)
    requires WellFormed(f) && Linked(f, {}) && p in Nodes(f) && c == f.types[p] && c in Nodes(f)
    ensures p.child == Get(f.kids[p], 0) && p.typ == c && c.sibling == null && p != c && BeforeIn(f, c) == {}
  {
    assert LinkedAt(f, p, {}) && LinkedAt(f, c, {}) && Below(f, p, c) && ListedAt(f, p);
  }

  lemma {:induction false} KidFacts(f: Forest, p: Ast, c: Ast)
    requires WellFormed(f) && Linked(f, {}) && p in Nodes(f) && c in f.kids[p]
    ensures p.typ == f.types[p] && p.typ != c && p != c && c in Nodes(f) && c.HasParent() && c.parent == p
    ensures var s, i := f.kids[p], IndexOf(f.kids[p], c);
              && Chain(p.child, s) && p.child == s[0] && c.sibling == Get(s, i + 1)
              && BeforeIn(f, c) == Before(s, i)
              && (if i == 0 then BeforeIn(f, c) == {} else
                    var b := s[i - 1];
                    BeforeIn(f, c) == {b} && b != c && b != p && b in Nodes(f) && b.parent == p && !b.orphan)
  {
    hide Falling;
    assert ListedAt(f, p) && Below(f, p, c) && LinkedAt(f, p, {});
    hide Hanging, ListedAt, Below, LinkedAt, Linked;
    PlaceFacts(f, p, IndexOf(f.kids[p], c));
  }

  lemma {:induction false} SwapTypeLinked(f: Forest, p: Ast, c: Ast, r: Ast)
    requires WellFormed(f) && HangsFrom(f, p, c) && c in Nodes(f) && r in Nodes(f) && f.up[r] == null &&
             !InTree(f, r, p)
    requires Downs(f, {p}) && Ups(f, {r, c} + BeforeIn(f, c)) && BeforeIn(f, c) == {} &&
             (c.orphan || c.parent == null) && c.sibling == null
    requires f.types[p] == c && p.typ == r && p.child == Get(f.kids[p], 0)
    requires r.parent == p && !r.orphan && r.sibling == null
    ensures WellFormed(Swapped(f, p, c, r)) && Linked(Swapped(f, p, c, r), {})
  {
    hide InTree, Raised, Listed, Falling, Hanging, NextOf, NextKept, Downs, Ups, Linked;
    var f', g := Untype(f, p), Swapped(f, p, c, r);
    UntypeNext(f, p);
    NotInUntyped(f, p, r);
    RetypeNext(f', p, r);
    DownsOf(f, g, p);
    assert {r, c} + BeforeIn(f, c) == {r, c};
    NextKeptTwice(f, f', g, {c}, {r}, {r, c});
    UpsOf(f, g, {r, c});
    Together(g);
  }

  lemma {:induction false} NotInUntyped(f: Forest, p: Ast, r: Ast)
    requires WellFormed(f) && p in Nodes(f) && f.types[p] != null && r in Nodes(f) && f.up[r] == null &&
             !InTree(f, r, p)
    ensures var g := Untype(f, p); WellFormed(g) && Nodes(g) == Nodes(f) && g.up[r] == null && !InTree(g, r, p)
  {
    var g := Untype(f, p);
    UntypeWellFormed(f, p);
    if InTree(g, r, p) {
      InTreeShrinks(f, g, r, p);
    }
  }

  lemma {:induction false} NotInRemoved(f: Forest, p: Ast, i: nat, r: Ast)
    requires WellFormed(f) && p in Nodes(f) && i < |f.kids[p]| && r in Nodes(f) && f.up[r] == null && !InTree(f, r, p)
    ensures var g := Remove(f, p, i); WellFormed(g) && Nodes(g) == Nodes(f) && g.up[r] == null && !InTree(g, r, p)
  {
    var g := Remove(f, p, i);
    RemoveWellFormed(f, p, i);
    RemoveListed(f, p, i);
    if InTree(g, r, p) {
      InTreeShrinks(f, g, r, p);
    }
  }

  lemma {:induction false} SwapChildLinked(f: Forest, p: Ast, c: Ast, r: Ast)
    requires WellFormed(f) && HangsFrom(f, p, c) && c in Nodes(f) && r in Nodes(f) && f.up[r] == null &&
             !InTree(f, r, p)
    requires f.types[p] != c && c in f.kids[p] && p.typ == f.types[p]
    requires Downs(f, {p}) && Ups(f, {r, c} + Before(f.kids[p], IndexOf(f.kids[p], c))) &&
             (c.orphan || c.parent == null) && c.sibling == null
    requires var s, i := f.kids[p], IndexOf(f.kids[p], c);
             && r.parent == p && !r.orphan && r.sibling == Get(s, i + 1) && p.child == (if i == 0 then r else s[0])
             && (i > 0 ==> s[i - 1].parent == p && !s[i - 1].orphan && s[i - 1].sibling == r)
    ensures WellFormed(Swapped(f, p, c, r)) && Linked(Swapped(f, p, c, r), {})
  {
    hide InTree, Raised, Listed, Falling, Hanging, NextOf, NextKept, Downs, Ups, UpAt, Linked, Distinct;
    var s, i := f.kids[p], IndexOf(f.kids[p], c);
    var g := Swapped(f, p, c, r);
    SwapNext(f, p, c, r);
    SwappedIs(f, p, c, r);
    DownsOf(f, g, p);
    SwapUpAt(g, p, s, i, c, r);
    hide Before;
    UpsOf(f, g, {r, c} + Before(s, i));
    Together(g);
  }

  /** Who comes next after a child is replaced: only the nodes around the place notice. */
  lemma {:induction false} SwapNext(f: Forest, p: Ast, c: Ast, r: Ast)
    requires WellFormed(f) && HangsFrom(f, p, c) && c in Nodes(f) && r in Nodes(f) && f.up[r] == null &&
             !InTree(f, r, p)
    requires f.types[p] != c && c in f.kids[p]
    ensures var g, s, i := Swapped(f, p, c, r), f.kids[p], IndexOf(f.kids[p], c);
            && WellFormed(g) && Nodes(g) == Nodes(f) && NextKept(f, g, {r, c} + Before(s, i)) && Refilled(g, p, s, i, r)
            && g.up[c] == null
  {
    assert f.up[c] == p && c != r;
    hide InTree, Raised, Listed, Falling, Hanging, NextOf, NextKept, Distinct, Remove, Insert, Refilled;
    var s, i := f.kids[p], IndexOf(f.kids[p], c);
    var f' := Remove(f, p, i);
    RemoveNext(f, p, i);
    NotInRemoved(f, p, i, r);
    Refills(f, p, i, r);
    hide WellFormed;
    InsertNext(f', p, i, r);
    assert Swapped(f, p, c, r) == Insert(f', p, i, r);
    hide Swapped, IndexOf, Get;
    NextKeptTwice(f, f', Insert(f', p, i, r), {c} + Before(s, i), {r} + Before(f'.kids[p], i), {r, c} + Before(s, i));
  }

  /** Putting `r` where a child has been taken out. */
  lemma {:induction false} Refills(f: Forest, p: Ast, i: nat, r: Ast)
    requires WellFormed(f) && p in Nodes(f) && i < |f.kids[p]| && r in Nodes(f) && f.up[r] == null && !InTree(f, r, p)
    requires WellFormed(Remove(f, p, i)) && r != f.kids[p][i]
    ensures var g := Insert(Remove(f, p, i), p, i, r);
            && WellFormed(g) && Refilled(g, p, f.kids[p], i, r)
            && f.kids[p][i] in Nodes(g) && g.up[f.kids[p][i]] == null
  {
    hide InTree, Raised, Listed, Falling, Hanging, NextOf, NextKept, Distinct, Remove;
    var f' := Remove(f, p, i);
    RemoveNext(f, p, i);
    NotInRemoved(f, p, i, r);
    GapIs(f, p, i);
    InsertNext(f', p, i, r);
    hide WellFormed, Get;
  }

  /** `r` is at place `i` among the children of `p`, which are else those of `s`. */
  ghost predicate Refilled(g: Forest, p: Ast, s: seq<Ast>, i: nat, r: Ast)
    requires WellFormed(g) && i < |s|
  {
    && r in Nodes(g) && g.up[r] == p && NextOf(g, r) == Get(s, i + 1)
    && (i > 0 ==> s[i - 1] in Nodes(g) && g.up[s[i - 1]] == p && NextOf(g, s[i - 1]) == r)
  }

  lemma {:induction false} NextKeptTwice(f: Forest, g: Forest, h: Forest, s: set<Ast>, t: set<Ast>, u: set<Ast>)
    requires WellFormed(f) && WellFormed(g) && WellFormed(h) && Nodes(g) == Nodes(f) && Nodes(h) == Nodes(f)
    requires NextKept(f, g, s) && NextKept(g, h, t) && s <= u && t <= u
    ensures NextKept(f, h, u)
  {
    hide Listed, Falling, Hanging, NextOf;
  }

  lemma {:induction false} GapIs(f: Forest, p: Ast, i: nat)
    requires WellFormed(f) && p in Nodes(f) && i < |f.kids[p]|
    ensures var t, s := Remove(f, p, i).kids[p], f.kids[p];
            && Remove(f, p, i).up[s[i]] == null
            && |t| == |s| - 1 && Get(t, i) == Get(s, i + 1) && (i > 0 ==> t[i - 1] == s[i - 1])
  {
    hide Listed, Falling, Hanging, Distinct;
  }

  lemma {:induction false} SwapUpAt(g: Forest, p: Ast, s: seq<Ast>, i: nat, c: Ast, r: Ast)
    requires WellFormed(g) && i < |s| && c in Nodes(g) && g.up[c] == null && Refilled(g, p, s, i, r)
    requires (c.orphan || c.parent == null) && c.sibling == null
    requires r.parent == p && !r.orphan && r.sibling == Get(s, i + 1)
    requires i > 0 ==> s[i - 1].parent == p && !s[i - 1].orphan && s[i - 1].sibling == r
    ensures forall n | n in {r, c} + Before(s, i) :: n in Nodes(g) && UpAt(g, n)
  {
    hide InTree, Listed, Falling, Hanging, NextOf;
  }

  lemma {:induction false} RefillIs(s: seq<Ast>, i: nat, r: Ast)
    requires i < |s|
    ensures var t := s[..i] + s[i + 1..]; t[..i] + [r] + t[i..] == s[i := r]
  {
  }

  /** A replacement keeps every list but for the one node. */
  lemma {:induction false} SwappedIs(f: Forest, p: Ast, c: Ast, r: Ast)
    requires WellFormed(f) && HangsFrom(f, p, c) && r in Nodes(f)
    ensures var g := Swapped(f, p, c, r);
            if f.types[p] == c then g.kids == f.kids && g.types == f.types[p := r]
            else g.types == f.types && g.kids == f.kids[p := f.kids[p][IndexOf(f.kids[p], c) := r]]
  {
    hide Listed, Falling, Hanging, Raised, InTree, Distinct;
    if f.types[p] != c {
      RefillIs(f.kids[p], IndexOf(f.kids[p], c), r);
    }
  }

  /** Replaces `prev`, which is then freed and which is left out here, if it is attached; answers what stands for it
    * now.
    */
  method Replace(ghost f: Forest, prev: Ast, next: Ast) returns (r: Ast, ghost f1: Forest, ghost g: Forest)
    requires WellFormed(f) && Linked(f, {}) && prev in Nodes(f) && next in Nodes(f)
    requires next.HasParent() || !prev.HasParent() || !InTree(f, next, prev.parent)
    modifies ParentOf(prev)`child, ParentOf(prev)`typ, prev`sibling, prev`orphan, next`parent, next`orphan, next`sibling
    modifies BeforeIn(f, prev)`sibling
    ensures prev == next ==> r == prev && f1 == f && g == f
    ensures prev != next && !old(prev.HasParent()) ==> g == f1 && Detachment(f, next, f1, r)
    ensures prev != next && old(prev.HasParent()) ==>
              && Ready(f, next, old(prev.parent), f1, r) && HangsFrom(f1, old(prev.parent), prev)
              && g == Swapped(f1, old(prev.parent), prev, r)
    ensures WellFormed(g) && Linked(g, {}) && (forall x :: x in Nodes(g) && x !in Nodes(f) ==> fresh(x))
  {
    hide Total, Distinct, Below, ListedAt, Listed, Falling, Hanging, WellFormed, LinkedAt, Linked, Ready, Extends;
    hide HangsFrom, BeforeIn, ParentOf, Swapped, InTree, IsChild, Copy;
    if prev == next {
      return next, f, f;
    }
    Pointers(f, next);
    if prev.HasParent() {
      Attached(f, prev);
    }
    r, f1 := Detached(f, next);
    g := f1;
    if prev.HasParent() {
      ReadyFor(f, next, prev.parent, f1, r);
      Pointers(f1, r);
      StillHangs(f, f1, prev.parent, prev);
      Held(prev);
      ghost var p, f2 := prev.parent, f1;
      var r2;
      r2, f2, g := Swap(f1, prev, r);
      NoCopy(f1, r, p, f2, r2);
    }
  }

  lemma {:induction false} Held(c: Ast)
    ensures c.parent != null ==> c.parent in ParentOf(c)
  {
  }

  lemma {:induction false} NoCopy(f: Forest, c: Ast, p: Ast, g: Forest, r: Ast)
    requires Ready(f, c, p, g, r) && f.up[c] == null
    ensures g == f && r == c
  {
  }

  ghost function ParentOf(c: Ast): set<Ast>
    reads c`parent
  {
    if c.parent == null then {} else {c.parent}
  }

  /** An attached node is below its parent. */
  lemma {:induction false} Attached(f: Forest, c: Ast)
    requires WellFormed(f) && Linked(f, {}) && c in Nodes(f) && c.HasParent()
    ensures c.parent != null && HangsFrom(f, c.parent, c) && c.parent in Nodes(f)
    ensures c.parent.typ == f.types[c.parent]
    ensures if c.parent.typ == c then !IsChild(f, c) else IsChild(f, c)
  {
    assert LinkedAt(f, c, {});
    assert LinkedAt(f, c.parent, {}) && ListedAt(f, c.parent);
  }
}
