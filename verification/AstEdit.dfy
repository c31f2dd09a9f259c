/** Editing the syntax tree through its pointers. Every routine takes the forest the pointers stand for before
  * it and returns the one they stand for after it.
  */
module AstEdit {
  import opened AstForest
  import opened AstCopy
  import opened AstTree

  /** Every run of the routines starts from a forest without nodes. */
  lemma {:induction false} StartsWell()
    ensures WellFormed(NONE) && Linked(NONE, {})
  {
  }

  /** A new node, attached to nothing, in no scope. */
  method NewAst(ghost f: Forest, token: int) returns (n: Ast, ghost g: Forest)
    requires WellFormed(f) && Linked(f, {})
    ensures fresh(n) && n.token == token && n.parent == null && n !in Nodes(f)
    ensures g == WithNode(f, n, 0) && WellFormed(g) && Linked(g, {})
  {
    hide Distinct, Below, ListedAt, Listed, Falling, Hanging, LinkedAt, Linked, WithNode, Extends;
    NothingLoose(f);
    n := new Ast(token);
    g := WithNode(f, n, 0);
    NodeAdded(f, n, 0, {});
    assert {} + {n} == {n};
    Settled(g, n);
  }

  /** A new node that is an orphan in the scope of `ast`. */
  method From(ghost f: Forest, ast: Ast, token: int) returns (n: Ast, ghost g: Forest)
    requires WellFormed(f) && Linked(f, {}) && ast in Nodes(f)
    ensures fresh(n) && n.token == token && n.orphan && n.parent == ast.parent && n !in Nodes(f)
    ensures g == WithNode(f, n, 0) && WellFormed(g) && Linked(g, {})
  {
    hide Distinct, Below, ListedAt, Listed, Falling, Hanging, LinkedAt, Linked, WithNode, Extends;
    NothingLoose(f);
    n := new Ast(token);
    n.parent := ast.parent;
    n.orphan := true;
    g := WithNode(f, n, 0);
    NodeAdded(f, n, 0, {});
    assert {} + {n} == {n};
    Settled(g, n);
  }

  /** `r`, in `f1`, is what is attached when `c` is to be: `c` itself if it hangs from nothing, a copy if not. */
  ghost predicate Detachment(f: Forest, c: Ast, f1: Forest, r: Ast) {
    && WellFormed(f) && WellFormed(f1) && Extends(f1, f, {}) && c in Nodes(f) && r in Nodes(f1) && f1.up[r] == null
    && (if f.up[c] == null then f1 == f && r == c else Copy(f, c, f1, r))
  }

  /** It can be hung below `p`. */
  ghost predicate Ready(f: Forest, c: Ast, p: Ast, f1: Forest, r: Ast) {
    Detachment(f, c, f1, r) && p in Nodes(f) && p in Nodes(f1) && !InTree(f1, r, p)
  }

  /** A node that is attached is copied before it is attached elsewhere. */
  method Detached(ghost f: Forest, c: Ast) returns (r: Ast, ghost f1: Forest)
    requires WellFormed(f) && Linked(f, {}) && c in Nodes(f)
    ensures Detachment(f, c, f1, r) && Linked(f1, {}) && (r == c || fresh(r))
    ensures forall x :: x in Nodes(f1) && x !in Nodes(f) ==> fresh(x)
  {
    hide Listed, Falling, Hanging, Shape, NextOf;
    r, f1 := c, f;
    assert LinkedAt(f, c, {});
    if c.HasParent() {
      r, f1 := Dup(f, c);
    }
  }

  /** Only a node that hangs from nothing could hold the node it is to hang from. */
  lemma {:induction false} ReadyFor(f: Forest, c: Ast, p: Ast, f1: Forest, r: Ast)
    requires Detachment(f, c, f1, r) && p in Nodes(f) && (f.up[c] != null || !InTree(f, c, p))
    ensures Ready(f, c, p, f1, r)
    ensures WellFormed(f1) && Extends(f1, f, {}) && p in Nodes(f1) && p in f1.kids && p in f1.types &&
            r in Nodes(f1) && r in f1.up
    ensures f1.kids[p] == f.kids[p] && f1.types[p] == f.types[p] && f1.up[r] == null && !InTree(f1, r, p)
  {
    hide Listed, Falling, Hanging, Shape, InTree;
    if f.up[c] != null && InTree(f1, r, p) {
      CopyIsApart(f, c, f1, r, p);
    }
  }

  /** Puts `child` in front of the children of `parent`. */
  method Add(ghost f: Forest, parent: Ast, child: Ast) returns (r: Ast, ghost f1: Forest, ghost g: Forest)
    requires WellFormed(f) && Linked(f, {}) && parent in Nodes(f) && child in Nodes(f)
    requires parent != child && parent.child != child && (child.HasParent() || !InTree(f, child, parent))
    modifies parent`child, child`parent, child`orphan, child`sibling
    ensures Ready(f, child, parent, f1, r) && (r == child || fresh(r))
    ensures g == Insert(f1, parent, 0, r) && WellFormed(g) && Linked(g, {})
    ensures parent.child == r && r.sibling == old(parent.child)
    ensures forall x :: x in Nodes(g) && x !in Nodes(f) ==> fresh(x)
  {
    hide *;
    Pointers(f, child);
    r, f1 := Detached(f, child);
    ReadyFor(f, child, parent, f1, r);
    Pointers(f1, parent);
    Apart(f1, {parent}, {r});
    r.parent := parent;
    r.orphan := false;
    r.sibling := parent.child;
    parent.child := r;
    InsertFirstLinked(f1, parent, r);
    g := Insert(f1, parent, 0, r);
  }

  /** Puts `newSibling` right after `olderSibling`, which must be in a list of children. */
  method AddSibling(ghost f: Forest, olderSibling: Ast, newSibling: Ast) returns (r: Ast, ghost f1: Forest,
          ghost g: Forest)
    requires WellFormed(f) && Linked(f, {}) && newSibling in Nodes(f) && olderSibling != newSibling &&
             IsChild(f, olderSibling)
    requires newSibling.HasParent() || !InTree(f, newSibling, f.up[olderSibling])
    modifies olderSibling`sibling, newSibling`parent, newSibling`orphan, newSibling`sibling
    ensures Ready(f, newSibling, f.up[olderSibling], f1, r) && (r == newSibling || fresh(r))
    ensures g == Insert(f1, f.up[olderSibling], Place(f, olderSibling) + 1, r) && WellFormed(g) && Linked(g, {})
    ensures olderSibling.sibling == r && r.sibling == old(olderSibling.sibling)
    ensures forall x :: x in Nodes(g) && x !in Nodes(f) ==> fresh(x)
  {
    hide *;
    ChildFacts(f, olderSibling);
    ghost var p, i := f.up[olderSibling], Place(f, olderSibling);
    Pointers(f, newSibling);
    r, f1 := Detached(f, newSibling);
    ReadyFor(f, newSibling, p, f1, r);
    Pointers(f1, p);
    Pointers(f1, r);
    InList(f1, p, i);
    assert r.sibling == null;
    Apart(f1, {p}, {r, olderSibling});
    r.parent := olderSibling.parent;
    r.orphan := false;
    r.sibling := olderSibling.sibling;
    olderSibling.sibling := r;
    InsertAfterLinked(f1, p, i, r);
    g := Insert(f1, p, i + 1, r);
  }

  /** Takes the first child out, if there is one. It becomes an orphan, and keeps its scope. */
  method Pop(ghost f: Forest, parent: Ast) returns (child: Ast?, ghost g: Forest)
    requires WellFormed(f) && Linked(f, {}) && parent in Nodes(f)
    modifies parent`child, First(f.kids[parent])`sibling, First(f.kids[parent])`orphan
    ensures child == Get(f.kids[parent], 0)
    ensures g == if f.kids[parent] == [] then f else Remove(f, parent, 0)
    ensures child == old(parent.child)
    ensures child != null ==> child.sibling == null && parent.child == old(child.sibling)
    ensures WellFormed(g) && Linked(g, {})
  {
    hide Listed, Falling, Hanging, NextOf, Linked, Downs, Ups;
    Pointers(f, parent);
    child := parent.child;
    g := f;
    if child != null {
      InList(f, parent, 0);
      Apart(f, {parent}, {child});
      parent.child := child.sibling;
      child.sibling := null;
      child.orphan := true;
      assert {child} + Before(f.kids[parent], 0) == {child};
      RemoveLinked(f, parent, 0);
      g := Remove(f, parent, 0);
    }
  }

  /** Walks to the end of a list of siblings. */
  method LastOf(first: Ast, ghost s: seq<Ast>) returns (ast: Ast)
    requires Chain(first, s)
    ensures s != [] && ast == s[|s| - 1]
  {
    ast := first;
    ghost var k := 0;
    while ast.sibling != null
      invariant k < |s| && ast == s[k]
      decreases |s| - k
    {
      ast := ast.sibling;
      k := k + 1;
    }
  }

  /** Puts `child` after the children of `parent`. */
  method Append(ghost f: Forest, parent: Ast, child: Ast) returns (r: Ast, ghost f1: Forest, ghost g: Forest)
    requires WellFormed(f) && Linked(f, {}) && parent in Nodes(f) && child in Nodes(f)
    requires parent != child && (child.HasParent() || !InTree(f, child, parent))
    modifies parent`child, child`parent, child`orphan, Before(f.kids[parent], |f.kids[parent]|)`sibling
    ensures Ready(f, child, parent, f1, r) && (r == child || fresh(r))
    ensures g == Insert(f1, parent, |f.kids[parent]|, r) && WellFormed(g) && Linked(g, {})
    ensures (if f.kids[parent] == [] then parent.child else f.kids[parent][|f.kids[parent]| - 1].sibling) == r
    ensures r.sibling == null
    ensures forall x :: x in Nodes(g) && x !in Nodes(f) ==> fresh(x)
  {
    hide *;
    Pointers(f, child);
    r, f1 := Detached(f, child);
    ReadyFor(f, child, parent, f1, r);
    g := AttachLast(f1, parent, r);
  }

  method AttachLast(ghost f: Forest, parent: Ast, child: Ast) returns (ghost g: Forest)
    requires WellFormed(f) && Linked(f, {}) && parent in Nodes(f) && child in Nodes(f)
    requires f.up[child] == null && !InTree(f, child, parent)
    modifies parent`child, child`parent, child`orphan, Before(f.kids[parent], |f.kids[parent]|)`sibling
    ensures g == Insert(f, parent, |f.kids[parent]|, child) && WellFormed(g) && Linked(g, {}) && Nodes(g) == Nodes(f)
    ensures (if f.kids[parent] == [] then parent.child else f.kids[parent][|f.kids[parent]| - 1].sibling) == child
    ensures child.sibling == null
  {
    hide Total, Distinct, Below, ListedAt, Listed, Falling, Hanging, WellFormed, LinkedAt, Linked, NextOf, DownAt, UpAt;
    hide Chain, Downs, Ups, Insert, Ready, InTree, Copy, Extends, Get, Before;
    ghost var s := f.kids[parent];
    g := Insert(f, parent, |s|, child);
    Pointers(f, parent);
    Pointers(f, child);
    ChainOf(f, parent, child);
    ChainHead(parent.child, s);
    LastIn(s, child);
    Apart(f, {parent}, {child} + Before(s, |s|));
    child.parent := parent;
    child.orphan := false;
    if parent.child == null {
      parent.child := child;
      InsertFirstLinked(f, parent, child);
      return;
    }
    var ast := LastOf(parent.child, s);
    ast.sibling := child;
    InsertAfterLinked(f, parent, |s| - 1, child);
  }

  lemma {:induction false} InsertFirstLinked(f: Forest, p: Ast, c: Ast)
    requires WellFormed(f) && p in Nodes(f) && c in Nodes(f) && f.up[c] == null && !InTree(f, c, p)
    requires Downs(f, {p}) && p.typ == f.types[p] && p.child == c
    requires Ups(f, {c}) && c.parent == p && !c.orphan && c.sibling == Get(f.kids[p], 0)
    ensures var g := Insert(f, p, 0, c); WellFormed(g) && Linked(g, {}) && Nodes(g) == Nodes(f)
  {
    hide Listed, Falling, Hanging, NextOf, InTree, Raised, Linked, Downs, Ups;
    assert {c} + Before(f.kids[p], 0) == {c};
    InsertLinked(f, p, 0, c);
  }

  /** The pointers of a node, read off. */
  lemma {:induction false} Pointers(f: Forest, n: Ast)
    requires WellFormed(f) && Linked(f, {}) && n in Nodes(f)
    ensures n.child == Get(f.kids[n], 0) && n.typ == f.types[n]
    ensures n.HasParent() <==> f.up[n] != null
    ensures f.up[n] != null ==> n.parent == f.up[n]
    ensures f.up[n] == null ==> n.sibling == null
  {
    assert LinkedAt(f, n, {});
  }

  /** `c` is in the list of children of the node it hangs from. */
  ghost predicate IsChild(f: Forest, c: Ast)
    requires WellFormed(f)
  {
    c in Nodes(f) && f.up[c] != null && c in f.kids[f.up[c]]
  }

  ghost function IndexOf(s: seq<Ast>, x: Ast): (i: nat)
    requires x in s
    ensures i < |s| && s[i] == x
  {
    if s[0] == x then 0 else 1 + IndexOf(s[1..], x)
  }

  /** The place of `c` among its siblings. */
  ghost function Place(f: Forest, c: Ast): (i: nat)
    requires WellFormed(f) && IsChild(f, c)
  {
    IndexOf(f.kids[f.up[c]], c)
  }

  ghost function First(s: seq<Ast>): set<Ast> {
    if s == [] then {} else {s[0]}
  }

  lemma {:induction false} ChildFacts(f: Forest, c: Ast)
    requires WellFormed(f) && IsChild(f, c)
    ensures c in f.up && f.up[c] != null && f.up[c] in Nodes(f) && f.up[c] in f.kids
    ensures c in f.kids[f.up[c]] && Place(f, c) == IndexOf(f.kids[f.up[c]], c)
    ensures Place(f, c) < |f.kids[f.up[c]]| && f.kids[f.up[c]][Place(f, c)] == c
  {
  }

  /** The pointers of a child in its list. */
  lemma {:induction false} InList(f: Forest, p: Ast, i: nat)
    requires WellFormed(f) && Linked(f, {}) && p in Nodes(f) && i < |f.kids[p]|
    ensures var c := f.kids[p][i];
            p.child == f.kids[p][0] && c in Nodes(f) && c != p && f.up[c] == p && c.parent == p && !c.orphan &&
              c.sibling == Get(f.kids[p], i + 1)
  {
    ChildrenChain(f, p);
    assert ListedAt(f, p) && Below(f, p, f.kids[p][i]);
  }

  lemma {:induction false} InsertAfterLinked(f: Forest, p: Ast, i: nat, c: Ast)
    requires WellFormed(f) && p in Nodes(f) && c in Nodes(f) && f.up[c] == null && !InTree(f, c, p) && i < |f.kids[p]|
    requires Downs(f, {p}) && p.typ == f.types[p] && p.child == f.kids[p][0]
    requires Ups(f, {c, f.kids[p][i]}) && c.parent == p && !c.orphan && c.sibling == Get(f.kids[p], i + 1)
    requires var b := f.kids[p][i]; b.parent == p && !b.orphan && b.sibling == c
    ensures var g := Insert(f, p, i + 1, c); WellFormed(g) && Linked(g, {}) && Nodes(g) == Nodes(f)
  {
    hide Listed, Falling, Hanging, NextOf, InTree, Raised, Linked, Downs, Ups;
    assert {c} + Before(f.kids[p], i + 1) == {c, f.kids[p][i]};
    InsertLinked(f, p, i + 1, c);
  }

  lemma {:induction false} ChainOf(f: Forest, p: Ast, r: Ast)
    requires WellFormed(f) && Linked(f, {}) && p in Nodes(f) && r in Nodes(f) && f.up[r] == null
    ensures Chain(p.child, f.kids[p]) && r !in f.kids[p]
    ensures |f.kids[p]| > 0 ==> var b := f.kids[p][|f.kids[p]| - 1]; b.parent == p && !b.orphan && b in Nodes(f)
  {
    ChildrenChain(f, p);
    assert ListedAt(f, p) && !Below(f, p, r);
  }

  lemma {:induction false} LastIn(s: seq<Ast>, r: Ast)
    ensures s == [] ==> {r} + Before(s, |s|) == {r} && Get(s, 0) == null
    ensures s != [] ==>
              {r} + Before(s, |s|) == {r, s[|s| - 1]} && Get(s, |s| - 1 + 1) == null && s[|s| - 1] in Before(s, |s|)
    ensures s != [] ==> Get(s, 0) == s[0]
  {
  }

  // ------------------------------------------------ what every run of the routines keeps

  /** No node is at two places: not in two lists, not twice in one, not both a child and a type. */
  lemma {:induction false} OnePlace(f: Forest, p: Ast, q: Ast, i: nat, j: nat)
    requires WellFormed(f) && p in Nodes(f) && q in Nodes(f) && i < |f.kids[p]| && j < |f.kids[q]|
    ensures f.kids[p][i] == f.kids[q][j] ==> p == q && i == j
    ensures f.kids[p][i] != f.types[q]
  {
    assert ListedAt(f, p) && ListedAt(f, q) && Below(f, p, f.kids[p][i]) && Below(f, q, f.kids[q][j]);
    if f.types[q] != null {
      assert Below(f, q, f.types[q]);
    }
  }

  /** Nothing is below itself. */
  lemma {:induction false} NoCycle(f: Forest, a: Ast, k: Ast)
    requires WellFormed(f) && a in Nodes(f) && k in Nodes(f) && Below(f, a, k)
    ensures !InTree(f, k, a)
  {
    if InTree(f, k, a) {
      RankInTree(f, k, a);
    }
  }

  lemma {:induction false} RankInTree(f: Forest, a: Ast, x: Ast)
    requires WellFormed(f) && a in Nodes(f) && x in Nodes(f) && InTree(f, a, x)
    ensures f.rank[x] <= f.rank[a]
    decreases f.rank[a]
  {
    if x != a {
      var k :| k in Nodes(f) && Below(f, a, k) && InTree(f, k, x);
      RankInTree(f, k, x);
    }
  }
}
