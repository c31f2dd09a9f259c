/** Copying a tree: nodes that are already attached are never attached again, a copy of them is. */
module AstCopy {
  import opened AstForest

  /** `g` is `f` and some new nodes, and its pointers are in order but for the loose nodes. */
  ghost predicate Grown(f: Forest, g: Forest, changed: set<Ast>, loose: set<Ast>)
    reads Nodes(g)
  {
    WellFormed(f) && WellFormed(g) && Extends(g, f, changed) && Linked(g, loose)
  }

  /** The node `n` of `g` is new, hangs from nothing, and its tree looks like that of `a` in `f`. */
  ghost predicate Copy(f: Forest, a: Ast, g: Forest, n: Ast)
    requires WellFormed(f) && WellFormed(g)
  {
    && a in Nodes(f) && n in Nodes(g) && n !in Nodes(f)
    && g.up[n] == null && g.rank[n] == f.rank[a] && Shape(g, n) == Shape(f, a)
  }

  ghost predicate Copies(f: Forest, olds: seq<Ast>, g: Forest, news: seq<Ast>)
    requires WellFormed(f) && WellFormed(g)
  {
    |news| == |olds| && Distinct(news) && forall i :: 0 <= i < |news| ==> Copy(f, olds[i], g, news[i])
  }

  /** The nodes are marked as the children of `p`, in this order. */
  ghost predicate Marked(news: seq<Ast>, p: Ast)
    reads news
  {
    forall i :: 0 <= i < |news| ==> news[i].parent == p && !news[i].orphan && news[i].sibling == Get(news, i + 1)
  }

  ghost function Elements(s: seq<Ast>): set<Ast> {
    set x | x in s
  }

  /** The loose nodes hang from nothing. */
  ghost predicate Loose(f: Forest, loose: set<Ast>)
    requires Total(f)
  {
    forall x | x in loose :: x in Nodes(f) && f.up[x] == null
  }

  /** `n` has nothing below it and hangs from nothing. */
  ghost predicate Blank(f: Forest, n: Ast)
    requires Total(f) && n in Nodes(f)
  {
    f.kids[n] == [] && f.types[n] == null && f.up[n] == null
  }

  /** What holds of a list and a bound for its ranks when it is copied. */
  ghost predicate Source(f: Forest, olds: seq<Ast>, bound: nat)
    requires Total(f)
  {
    forall x :: x in olds ==> x in Nodes(f) && f.rank[x] < bound
  }

  /** Copies the list of trees `a`, `a.sibling`, ..., as children of the new node `p`. */
  method DuplicateList(ghost f: Forest, ghost loose: set<Ast>, ghost olds: seq<Ast>, ghost bound: nat, p: Ast, a: Ast?)
    returns (first: Ast?, ghost g: Forest, ghost news: seq<Ast>)
    requires WellFormed(f) && Linked(f, loose) && Chain(a, olds) && Source(f, olds, bound) && Loose(f, loose)
    ensures Grown(f, g, {}, loose + Elements(news)) && (forall x :: x in Nodes(g) && x !in Nodes(f) ==> fresh(x))
    ensures first == Get(news, 0) && Copies(f, olds, g, news) && Marked(news, p)
    decreases bound, 1, |olds|
  {
    hide Nodes, Total, Distinct, Below, ListedAt, Listed, Falling, Hanging, WellFormed, LinkedAt, Linked;
    hide Chain, Shape, Extends, Copy, Copies, Source, Blank, Elements, Marked, Get, Loose;
    ChainHead(a, olds);
    if a == null {
      NothingCopied(f, loose);
      EmptyMarked(p);
      return null, f, [];
    }
    SourceHead(f, olds, bound);
    var n, f1 := NewNode(f, loose, a, p);
    ghost var f2 := CopyBelow(f1, loose + {n}, n, a);
    TailSource(f, f1, f2, olds, bound, a.sibling, n);
    var s, f3, rest := DuplicateList(f2, loose + {n}, olds[1..], bound, p, a.sibling);
    LooseWith(loose, n, rest);
    CopiesNew(f2, olds[1..], f3, rest, n);
    SetSibling(f3, loose + {n} + Elements(rest), n, s);
    ConsCopied(f, f1, f2, f3, olds, bound, n, rest);
    MarkedCons(n, rest, p);
    first, g, news := n, f3, [n] + rest;
  }

  lemma {:induction false} CopiesNew(f: Forest, olds: seq<Ast>, g: Forest, news: seq<Ast>, n: Ast)
    requires WellFormed(f) && WellFormed(g) && Copies(f, olds, g, news) && n in Nodes(f)
    ensures n !in news
  {
    forall i | 0 <= i < |news|
      ensures news[i] != n
    {
      assert Copy(f, olds[i], g, news[i]);
    }
  }

  lemma {:induction false} ChainHead(a: Ast?, olds: seq<Ast>)
    requires Chain(a, olds)
    ensures if a == null then olds == [] else olds != [] && a == olds[0]
  {
  }

  lemma {:induction false} EmptyMarked(p: Ast)
    ensures Marked([], p) && Get([], 0) == null
  {
  }

  lemma {:induction false} SourceHead(f: Forest, olds: seq<Ast>, bound: nat)
    requires WellFormed(f) && Source(f, olds, bound) && olds != []
    ensures olds[0] in Nodes(f) && olds[0] in f.rank && f.rank[olds[0]] < bound
  {
    assert olds[0] in olds;
  }

  lemma {:induction false} LooseWith(loose: set<Ast>, n: Ast, rest: seq<Ast>)
    ensures n in loose + {n} + Elements(rest)
    ensures loose + {n} + Elements(rest) == loose + Elements([n] + rest)
  {
  }

  /** A new node for the copy of `a`: a child of `p`, or else an orphan in the scope of `a`. */
  method NewNode(ghost f: Forest, ghost loose: set<Ast>, a: Ast, p: Ast?) returns (n: Ast, ghost g: Forest)
    requires WellFormed(f) && Linked(f, loose) && a in Nodes(f) && Loose(f, loose)
    ensures fresh(n) && n.token == a.token && n.sibling == null
    ensures if p == null then n.parent == a.parent && n.orphan else n.parent == p && !n.orphan
    ensures Grown(f, g, {}, loose + {n}) && Nodes(g) == Nodes(f) + {n} && Loose(g, loose + {n})
    ensures a in Nodes(g) && n !in Nodes(f) && a != n && Blank(g, n) && g.rank[n] == g.rank[a] == f.rank[a]
  {
    hide Distinct, Below, ListedAt, Listed, Falling, Hanging, LinkedAt, Linked, WithNode, Extends, Loose, Blank;
    assert a in f.rank;
    hide Total, WellFormed;
    n := new Ast(a.token);
    if p == null {
      n.parent := a.parent;
      n.orphan := true;
    } else {
      n.parent := p;
      n.orphan := false;
    }
    g := WithNode(f, n, f.rank[a]);
    NodeAdded(f, n, f.rank[a], loose);
  }

  /** Links a node that is not attached yet. */
  method SetSibling(ghost f: Forest, ghost loose: set<Ast>, n: Ast, s: Ast?)
    requires WellFormed(f) && Linked(f, loose) && n in loose
    modifies n`sibling
    ensures n.sibling == s && Linked(f, loose)
  {
    hide Listed, Falling, Hanging, NextOf;
    n.sibling := s;
    forall x | x in Nodes(f)
      ensures LinkedAt(f, x, loose)
    {
      assert old(LinkedAt(f, x, loose));
    }
  }

  /** Copies the children and the type of `a` to the new node `n`. */
  method CopyBelow(ghost f: Forest, ghost loose: set<Ast>, n: Ast, a: Ast) returns (ghost g: Forest)
    requires WellFormed(f) && Linked(f, loose) && n in Nodes(f) && n in loose && a in Nodes(f) && a != n &&
             Loose(f, loose)
    requires Blank(f, n) && f.rank[n] == f.rank[a] && n.token == a.token
    modifies n`child, n`typ
    ensures Grown(f, g, {n}, loose) && (forall x :: x in Nodes(g) && x !in Nodes(f) ==> fresh(x))
    ensures g.up[n] == null && g.rank[n] == f.rank[n] && Shape(g, n) == Shape(f, a) && Loose(g, loose)
    decreases f.rank[a], 3
  {
    hide Total, Distinct, Below, ListedAt, Listed, Falling, Hanging, LinkedAt, Linked, Chain, Shape, Extends, Source,
         Blank, Loose;
    ghost var g1 := CopyKids(f, loose, n, a);
    StillBelow(f, g1, loose, n, a);
    g := CopyType(g1, loose, n, a);
    CopiedBelow(f, g1, g, loose, n, a);
  }

  method CopyKids(ghost f: Forest, ghost loose: set<Ast>, n: Ast, a: Ast) returns (ghost g: Forest)
    requires WellFormed(f) && Linked(f, loose) && n in Nodes(f) && n in loose && a in Nodes(f) && a != n &&
             Loose(f, loose)
    requires Blank(f, n) && f.rank[n] == f.rank[a]
    modifies n`child
    ensures Grown(f, g, {n}, loose) && (forall x :: x in Nodes(g) && x !in Nodes(f) ==> fresh(x)) && Loose(g, loose)
    ensures n in Nodes(g) && g.types[n] == null && g.rank[n] == f.rank[n] && KidsLike(f, a, g, n)
    decreases f.rank[a], 2
  {
    hide Distinct, Below, ListedAt, Listed, Falling, Hanging, LinkedAt, Linked, LinkedBut;
    hide Chain, Shape, Extends, Copy, Copies, Source, Blank, Elements, Marked, Loose, LooseList, WithKids, KidsLike;
    KidsSource(f, loose, a);
    var first, f1, news := DuplicateList(f, loose, f.kids[a], f.rank[a], n, a.child);
    AllButOne(f, f1, loose + Elements(news), n);
    CopiesNew(f, f.kids[a], f1, news, n);
    n.child := first;
    g := WithKids(f1, n, news);
    KidsHung(f, f1, loose, n, a, news);
  }

  method CopyType(ghost f: Forest, ghost loose: set<Ast>, n: Ast, a: Ast) returns (ghost g: Forest)
    requires WellFormed(f) && Linked(f, loose) && n in Nodes(f) && n in loose && a in Nodes(f) && a != n &&
             Loose(f, loose)
    requires f.types[n] == null && f.rank[n] == f.rank[a]
    modifies n`typ
    ensures Grown(f, g, {n}, loose) && (forall x :: x in Nodes(g) && x !in Nodes(f) ==> fresh(x)) && Loose(g, loose)
    ensures n in Nodes(g) && g.kids[n] == f.kids[n] && g.rank[n] == f.rank[n] && TypeLike(f, a, g, n)
    decreases f.rank[a], 2
  {
    hide Distinct, Below, ListedAt, Listed, Falling, Hanging, LinkedAt, Linked, LinkedBut;
    hide Chain, Shape, Extends, Copy, Copies, Source, Elements, Marked, Loose, LooseList, WithType, TypeLike;
    TypeSource(f, loose, a);
    var first, f1, news := DuplicateList(f, loose, TypeList(f, a), f.rank[a], n, a.typ);
    AllButOne(f, f1, loose + Elements(news), n);
    CopiesNew(f, TypeList(f, a), f1, news, n);
    n.typ := first;
    g := WithType(f1, n, first);
    TypeHung(f, f1, loose, n, a, first, news);
  }

  /** Copies a tree. The copy is an orphan. */
  method Dup(ghost f: Forest, a: Ast) returns (n: Ast, ghost g: Forest)
    requires WellFormed(f) && Linked(f, {}) && a in Nodes(f)
    ensures Grown(f, g, {}, {}) && Copy(f, a, g, n) && (forall x :: x in Nodes(g) && x !in Nodes(f) ==> fresh(x))
    ensures n.orphan && n.parent == a.parent
  {
    hide Total, Distinct, Below, ListedAt, Listed, Falling, Hanging, LinkedAt, Linked, Shape, Extends, Blank, Loose,
         Copy;
    NothingLoose(f);
    ghost var f1;
    n, f1 := NewNode(f, {}, a, null);
    assert {} + {n} == {n};
    g := CopyBelow(f1, {n}, n, a);
    RootCopied(f, f1, g, a, n);
    Settled(g, n);
  }

  lemma {:induction false} NothingLoose(f: Forest)
    requires Total(f)
    ensures Loose(f, {})
  {
  }

  lemma {:induction false} RootCopied(f: Forest, f1: Forest, g: Forest, a: Ast, n: Ast)
    requires WellFormed(f) && WellFormed(f1) && WellFormed(g) && Extends(f1, f, {}) && Extends(g, f1, {n})
    requires a in Nodes(f) && a in Nodes(f1) && n in Nodes(f1) && n !in Nodes(f)
    requires f1.rank[n] == f.rank[a] && g.rank[n] == f1.rank[n] && g.up[n] == null && Shape(g, n) == Shape(f1, a)
    ensures Extends(g, f, {}) && n in Nodes(g) && Copy(f, a, g, n)
  {
    hide Listed, Falling, Hanging, Shape;
    ShapeExtends(f1, f, {}, a);
  }

  lemma {:induction false} Settled(f: Forest, n: Ast)
    requires WellFormed(f) && Linked(f, {n}) && n in Nodes(f) && f.up[n] == null && (n.orphan || n.parent == null) &&
             n.sibling == null
    ensures Linked(f, {})
  {
    hide Listed, Falling, Hanging;
    forall x | x in Nodes(f)
      ensures LinkedAt(f, x, {})
    {
      assert LinkedAt(f, x, {n});
    }
  }

  /** What is below a new node is new: a copy shares nothing with what was there before. */
  lemma {:induction false} CopyIsApart(f: Forest, a: Ast, g: Forest, n: Ast, x: Ast)
    requires WellFormed(f) && WellFormed(g) && Extends(g, f, {}) && Copy(f, a, g, n) && InTree(g, n, x)
    ensures x !in Nodes(f)
  {
    hide Listed, Falling, Shape;
    var news := Nodes(g) - Nodes(f);
    forall m, k | m in Nodes(g) && k in Nodes(g) && m in news && Below(g, m, k)
      ensures k in news
    {
      assert g.up[k] == m;
    }
    StaysWithin(g, news, n, x);
  }

  // --------------------------------------------------- hanging the copies below their node

  ghost predicate LinkedBut(f: Forest, n: Ast, loose: set<Ast>)
    reads Nodes(f) - {n}
    requires WellFormed(f)
  {
    forall x | x in Nodes(f) && x != n :: LinkedAt(f, x, loose)
  }

  lemma {:induction false} AllButOne(f: Forest, g: Forest, loose: set<Ast>, n: Ast)
    requires WellFormed(f) && WellFormed(g) && Extends(g, f, {}) && Linked(g, loose) && n in Nodes(f)
    ensures LinkedBut(g, n, loose) && n.child == Get(f.kids[n], 0) && n.typ == f.types[n]
  {
    assert LinkedAt(g, n, loose);
    hide Listed, Falling, Hanging, NextOf;
  }

  lemma {:induction false} KidsSource(f: Forest, loose: set<Ast>, a: Ast)
    requires WellFormed(f) && Linked(f, loose) && Loose(f, loose) && a in Nodes(f)
    ensures Chain(a.child, f.kids[a]) && Source(f, f.kids[a], f.rank[a])
  {
    var s := f.kids[a];
    assert ListedAt(f, a) && LinkedAt(f, a, loose);
    assert forall x :: x in s ==> Below(f, a, x);
    forall i | 0 <= i < |s|
      ensures s[i].sibling == Get(s, i + 1)
    {
      assert Below(f, a, s[i]) && LinkedAt(f, s[i], loose);
      AfterAt(s, i);
    }
  }

  ghost function TypeList(f: Forest, a: Ast): seq<Ast>
    requires Total(f) && a in Nodes(f)
  {
    if f.types[a] == null then [] else [f.types[a]]
  }

  lemma {:induction false} TypeSource(f: Forest, loose: set<Ast>, a: Ast)
    requires WellFormed(f) && Linked(f, loose) && Loose(f, loose) && a in Nodes(f)
    ensures Chain(a.typ, TypeList(f, a)) && Source(f, TypeList(f, a), f.rank[a])
  {
    var t := f.types[a];
    assert ListedAt(f, a) && LinkedAt(f, a, loose);
    if t != null {
      assert Below(f, a, t) && LinkedAt(f, t, loose);
    }
  }

  /** The children of `n` look like those of `a`. */
  ghost predicate KidsLike(f: Forest, a: Ast, g: Forest, n: Ast)
    requires WellFormed(f) && WellFormed(g) && a in Nodes(f) && n in Nodes(g)
  {
    && |g.kids[n]| == |f.kids[a]|
    && forall i :: 0 <= i < |f.kids[a]| ==>
         f.kids[a][i] in Nodes(f) && g.kids[n][i] in Nodes(g) && Shape(f, f.kids[a][i]) == Shape(g, g.kids[n][i])
  }

  /** The type of `n` looks like that of `a`. */
  ghost predicate TypeLike(f: Forest, a: Ast, g: Forest, n: Ast)
    requires WellFormed(f) && WellFormed(g) && a in Nodes(f) && n in Nodes(g)
  {
    && (f.types[a] == null <==> g.types[n] == null)
    && (f.types[a] != null ==>
          f.types[a] in Nodes(f) && g.types[n] in Nodes(g) && Shape(f, f.types[a]) == Shape(g, g.types[n]))
  }

  /** Nothing but what is directly below `n` has changed. */
  ghost predicate OnlyAt(f: Forest, g: Forest, n: Ast) {
    && Total(f) && Total(g) && Nodes(f) <= Nodes(g)
    && forall x | x in Nodes(f) && x != n :: g.kids[x] == f.kids[x] && g.types[x] == f.types[x]
  }

  lemma {:induction false} ExtendsOnlyAt(f: Forest, g: Forest, n: Ast)
    requires Extends(g, f, {n})
    ensures OnlyAt(f, g, n)
  {
  }

  lemma {:induction false} ShapeOnly(f: Forest, g: Forest, n: Ast, a: Ast)
    requires WellFormed(f) && WellFormed(g) && OnlyAt(f, g, n)
    requires n in Nodes(f) && a in Nodes(f) && a != n && f.up[n] == null
    ensures Shape(g, a) == Shape(f, a)
  {
    RootInNoTree(f, a, n);
    hide Listed, Falling, Hanging;
    ShapeKept(g, f, a);
  }

  lemma {:induction false} StillBelow(f: Forest, g: Forest, loose: set<Ast>, n: Ast, a: Ast)
    requires WellFormed(f) && WellFormed(g) && Extends(g, f, {n}) && a in Nodes(f) && a != n && n in loose &&
             Loose(g, loose)
    ensures a in Nodes(g) && g.rank[a] == f.rank[a] && n in Nodes(g) && g.up[n] == null
  {
  }

  /** Copying the children and then the type has copied the tree. */
  lemma {:induction false} CopiedBelow(f: Forest, f1: Forest, g: Forest, loose: set<Ast>, n: Ast, a: Ast)
    requires WellFormed(f) && WellFormed(f1) && WellFormed(g) && Extends(f1, f, {n}) && Extends(g, f1, {n})
    requires n in Nodes(f) && a in Nodes(f) && a in Nodes(f1) && n in Nodes(f1) && n in Nodes(g) && a != n &&
             n.token == a.token
    requires Blank(f, n) && f1.up[n] == null && g.kids[n] == f1.kids[n] && n in loose && Loose(g, loose)
    requires KidsLike(f, a, f1, n) && TypeLike(f1, a, g, n)
    ensures Extends(g, f, {n}) && Shape(g, n) == Shape(f, a) && g.up[n] == null
  {
    hide Listed, Falling, Hanging, Shape, KidsLike, TypeLike;
    KidsStayAlike(f, f1, g, n, a);
    TypeWasAlike(f, f1, g, n, a);
    AlikeShape(f, a, g, n);
  }

  lemma {:induction false} AlikeShape(f: Forest, a: Ast, g: Forest, n: Ast)
    requires WellFormed(f) && WellFormed(g) && a in Nodes(f) && n in Nodes(g) && n.token == a.token
    requires KidsLike(f, a, g, n) && TypeLike(f, a, g, n)
    ensures Shape(g, n) == Shape(f, a)
  {
    hide Listed, Falling, Hanging, Shape;
    SameShape(f, a, g, n);
  }

  lemma {:induction false} OnlyAtNodes(f: Forest, g: Forest, n: Ast, k: Ast)
    requires WellFormed(f) && WellFormed(g) && OnlyAt(f, g, n) && n in Nodes(f) && k in Nodes(f) && Below(f, n, k)
    ensures k in Nodes(g) && k != n
  {
  }

  lemma {:induction false} KidShapeStays(f: Forest, g: Forest, n: Ast, i: nat)
    requires WellFormed(f) && WellFormed(g) && OnlyAt(f, g, n) && n in Nodes(f) && f.up[n] == null && i < |f.kids[n]|
    ensures var k := f.kids[n][i]; k in Nodes(f) && k in Nodes(g) && Shape(g, k) == Shape(f, k)
  {
    var k := f.kids[n][i];
    assert ListedAt(f, n) && k in f.kids[n] && Below(f, n, k);
    hide Listed, Falling, Hanging, Shape, OnlyAt;
    OnlyAtNodes(f, g, n, k);
    ShapeOnly(f, g, n, k);
  }

  lemma {:induction false} KidsStayAlike(f: Forest, f1: Forest, g: Forest, n: Ast, a: Ast)
    requires WellFormed(f) && WellFormed(f1) && WellFormed(g) && Extends(g, f1, {n})
    requires a in Nodes(f) && n in Nodes(f1) && n in Nodes(g) && f1.up[n] == null && g.kids[n] == f1.kids[n]
    requires KidsLike(f, a, f1, n)
    ensures KidsLike(f, a, g, n)
  {
    hide WellFormed, Shape, OnlyAt, Extends;
    ExtendsOnlyAt(f1, g, n);
    forall i | 0 <= i < |g.kids[n]|
      ensures g.kids[n][i] in Nodes(g) && Shape(g, g.kids[n][i]) == Shape(f1, g.kids[n][i])
    {
      KidShapeStays(f1, g, n, i);
    }
  }

  lemma {:induction false} TypeWasAlike(f: Forest, f1: Forest, g: Forest, n: Ast, a: Ast)
    requires WellFormed(f) && WellFormed(f1) && WellFormed(g) && Extends(f1, f, {n})
    requires n in Nodes(f) && a in Nodes(f) && a in Nodes(f1) && n in Nodes(g) && f.up[n] == null && a != n
    requires TypeLike(f1, a, g, n)
    ensures TypeLike(f, a, g, n)
  {
    ExtendsOnlyAt(f, f1, n);
    hide Falling, Shape, OnlyAt;
    assert ListedAt(f, a);
    if f.types[a] != null {
      assert Below(f, a, f.types[a]);
      ShapeOnly(f, f1, n, f.types[a]);
    }
  }

  lemma {:induction false} CopiesLoose(f: Forest, f1: Forest, n: Ast, a: Ast, olds: seq<Ast>, news: seq<Ast>)
    requires WellFormed(f) && WellFormed(f1) && Extends(f1, f, {}) && n in Nodes(f) && a in Nodes(f)
    requires Source(f, olds, f.rank[a]) && Copies(f, olds, f1, news) && f.rank[n] == f.rank[a]
    ensures LooseList(f1, n, news) && (forall x :: x in news ==> x !in Nodes(f))
  {
    hide Listed, Falling, Hanging, Shape, Distinct;
    forall x | x in news
      ensures x in Nodes(f1) && x !in Nodes(f) && f1.up[x] == null && f1.rank[x] < f1.rank[n]
    {
      var i :| 0 <= i < |news| && news[i] == x;
      assert Copy(f, olds[i], f1, news[i]) && olds[i] in olds;
    }
  }

  lemma {:induction false} KidsHung(f: Forest, f1: Forest, loose: set<Ast>, n: Ast, a: Ast, news: seq<Ast>)
    requires WellFormed(f) && WellFormed(f1) && Extends(f1, f, {}) && n in Nodes(f) && a in Nodes(f) && a != n
    requires Loose(f, loose) && n in loose && Blank(f, n) && f.rank[n] == f.rank[a] && Source(f, f.kids[a], f.rank[a])
    requires Copies(f, f.kids[a], f1, news) && Marked(news, n)
    requires LinkedBut(f1, n, loose + Elements(news)) && n.typ == f.types[n] && n.child == Get(news, 0)
    ensures var g := WithKids(f1, n, news);
            && Grown(f, g, {n}, loose) && Nodes(g) == Nodes(f1) && Loose(g, loose)
            && n in Nodes(g) && g.types[n] == null && g.rank[n] == f.rank[n] && KidsLike(f, a, g, n)
  {
    hide Distinct, Below, ListedAt, Listed, Falling, Hanging, LinkedAt, Linked, LinkedBut;
    hide Chain, Shape, Copy, Copies, Source, Elements, Marked, Loose, LooseList, WithKids, KidsLike;
    CopiesLoose(f, f1, n, a, f.kids[a], news);
    WithKidsWellFormed(f1, n, news);
    KidsLinked(f1, loose, n, news);
    KidsExtend(f, f1, loose, n, news);
    KidsAlike(f, f1, n, a, news);
  }

  lemma {:induction false} KidsLinked(f1: Forest, loose: set<Ast>, n: Ast, news: seq<Ast>)
    requires WellFormed(f1) && LooseList(f1, n, news) && n in loose && f1.kids[n] == [] && f1.types[n] == null
    requires WellFormed(WithKids(f1, n, news)) && Marked(news, n)
    requires LinkedBut(f1, n, loose + Elements(news)) && n.typ == null && n.child == Get(news, 0)
    ensures Linked(WithKids(f1, n, news), loose)
  {
    var g := WithKids(f1, n, news);
    hide Listed, Falling, UpAt, LooseList, Marked;
    forall x | x in Nodes(g)
      ensures LinkedAt(g, x, loose)
    {
      KidLinkedAt(f1, loose, n, news, x);
    }
  }

  lemma {:induction false} KidLinkedAt(f1: Forest, loose: set<Ast>, n: Ast, news: seq<Ast>, x: Ast)
    requires WellFormed(f1) && LooseList(f1, n, news) && n in loose && f1.kids[n] == [] && f1.types[n] == null
    requires WellFormed(WithKids(f1, n, news)) && Marked(news, n) && x in Nodes(WithKids(f1, n, news))
    requires LinkedBut(f1, n, loose + Elements(news)) && n.typ == null && n.child == Get(news, 0)
    ensures LinkedAt(WithKids(f1, n, news), x, loose)
  {
    hide Listed, Falling, UpAt, LooseList, Marked;
    if x != n {
      assert LinkedAt(f1, x, loose + Elements(news));
      KidsUp(f1, n, news, x);
    }
  }

  lemma {:induction false} KidsUp(f1: Forest, n: Ast, news: seq<Ast>, x: Ast)
    requires WellFormed(f1) && LooseList(f1, n, news) && f1.kids[n] == [] && f1.types[n] == null
    requires WellFormed(WithKids(f1, n, news)) && Marked(news, n) && x in Nodes(f1) && x in WithKids(f1, n, news).kids
    ensures x in news || UpAt(f1, x) ==> UpAt(WithKids(f1, n, news), x)
  {
    hide Listed, Falling;
    if x in news {
      var i :| 0 <= i < |news| && news[i] == x;
      AfterAt(news, i);
    } else if f1.up[x] != null {
      assert Below(f1, f1.up[x], x);
    }
  }

  lemma {:induction false} KidsExtend(f: Forest, f1: Forest, loose: set<Ast>, n: Ast, news: seq<Ast>)
    requires WellFormed(f) && WellFormed(f1) && Extends(f1, f, {}) && n in Nodes(f) && Loose(f, loose)
    requires forall x :: x in news ==> x !in Nodes(f)
    ensures var g := WithKids(f1, n, news);
            Total(g) && Extends(g, f, {n}) && Loose(g, loose) && OnlyAt(f1, g, n) && Nodes(g) == Nodes(f1) &&
            g.kids[n] == news && g.types[n] == f.types[n] && g.rank[n] == f.rank[n]
  {
    hide Listed, Falling, Hanging;
  }

  lemma {:induction false} KidsAlike(f: Forest, f1: Forest, n: Ast, a: Ast, news: seq<Ast>)
    requires WellFormed(f) && WellFormed(f1) && a in Nodes(f) && LooseList(f1, n, news) && f1.up[n] == null
    requires Copies(f, f.kids[a], f1, news)
    requires var g := WithKids(f1, n, news);
             WellFormed(g) && OnlyAt(f1, g, n) && Nodes(g) == Nodes(f1) && g.kids[n] == news
    ensures KidsLike(f, a, WithKids(f1, n, news), n)
  {
    hide Listed, Falling, Hanging, Shape, OnlyAt, WithKids;
    forall i | 0 <= i < |news|
      ensures Copy(f, f.kids[a][i], f1, news[i]) && Shape(WithKids(f1, n, news), news[i]) == Shape(f1, news[i])
    {
      assert Copy(f, f.kids[a][i], f1, news[i]) && news[i] in news;
      ShapeOnly(f1, WithKids(f1, n, news), n, news[i]);
    }
  }

  lemma {:induction false} TypeHung(f: Forest, f1: Forest, loose: set<Ast>, n: Ast, a: Ast, t: Ast?, news: seq<Ast>)
    requires WellFormed(f) && WellFormed(f1) && Extends(f1, f, {}) && n in Nodes(f) && a in Nodes(f) && a != n
    requires Loose(f, loose) && n in loose && f.types[n] == null && f.rank[n] == f.rank[a] &&
             Source(f, TypeList(f, a), f.rank[a])
    requires Copies(f, TypeList(f, a), f1, news) && Marked(news, n) && t == Get(news, 0)
    requires LinkedBut(f1, n, loose + Elements(news)) && n.typ == t && n.child == Get(f.kids[n], 0)
    ensures var g := WithType(f1, n, t);
            && Grown(f, g, {n}, loose) && Nodes(g) == Nodes(f1) && Loose(g, loose)
            && n in Nodes(g) && g.kids[n] == f.kids[n] && g.rank[n] == f.rank[n] && TypeLike(f, a, g, n)
  {
    hide Distinct, Below, ListedAt, Listed, Falling, Hanging, LinkedAt, Linked, LinkedBut;
    hide Chain, Shape, Copy, Copies, Source, Elements, Marked, Loose, LooseList, WithType, TypeLike;
    CopiesLoose(f, f1, n, a, TypeList(f, a), news);
    if t == null {
      NoTypeHung(f, f1, loose, n, a, news);
    } else {
      OneCopy(f, f1, a, news);
      CopyOfNode(f, f.types[a], f1, t);
      LooseUp(f, f1, loose, n);
      WithTypeWellFormed(f1, n, t);
      TypeLinked(f1, loose, n, t);
      TypeExtend(f, f1, loose, n, t);
      TypeAlike(f, f1, n, a, t);
    }
  }

  lemma {:induction false} NoTypeHung(f: Forest, f1: Forest, loose: set<Ast>, n: Ast, a: Ast, news: seq<Ast>)
    requires WellFormed(f) && WellFormed(f1) && Extends(f1, f, {}) && n in Nodes(f) && a in Nodes(f)
    requires Loose(f, loose) && n in loose && f.types[n] == null
    requires Copies(f, TypeList(f, a), f1, news) && Get(news, 0) == null
    requires LinkedBut(f1, n, loose + Elements(news)) && n.typ == null && n.child == Get(f.kids[n], 0)
    ensures WithType(f1, n, null) == f1
    ensures Linked(f1, loose) && Loose(f1, loose) && TypeLike(f, a, f1, n) && Extends(f1, f, {n})
    ensures n in Nodes(f1) && f1.kids[n] == f.kids[n] && f1.rank[n] == f.rank[n]
  {
    hide Listed, Falling, Hanging, Shape, Copy;
    assert news == [] && loose + Elements([]) == loose;
    forall x | x in Nodes(f1)
      ensures LinkedAt(f1, x, loose)
    {
      assert x != n ==> LinkedAt(f1, x, loose);
    }
  }

  lemma {:induction false} OneCopy(f: Forest, f1: Forest, a: Ast, news: seq<Ast>)
    requires WellFormed(f) && WellFormed(f1) && a in Nodes(f) && Copies(f, TypeList(f, a), f1, news) &&
             Get(news, 0) != null
    ensures news == [Get(news, 0)] && f.types[a] != null && f.types[a] in Nodes(f) &&
            Copy(f, f.types[a], f1, Get(news, 0))
  {
    hide Listed, Falling, Hanging, Shape, Copy;
    assert Copy(f, TypeList(f, a)[0], f1, news[0]) && |news| <= 1;
    CopyOfNode(f, TypeList(f, a)[0], f1, news[0]);
  }

  lemma {:induction false} LooseUp(f: Forest, g: Forest, loose: set<Ast>, n: Ast)
    requires WellFormed(f) && WellFormed(g) && Extends(g, f, {}) && Loose(f, loose) && n in loose
    ensures n in Nodes(g) && g.up[n] == null
  {
    assert n in Nodes(f);
  }

  lemma {:induction false} CopyOfNode(f: Forest, a: Ast, g: Forest, n: Ast)
    requires WellFormed(f) && WellFormed(g) && Copy(f, a, g, n)
    ensures a in Nodes(f) && n in Nodes(g) && n !in Nodes(f)
  {
  }

  lemma {:induction false} TypeLinked(f1: Forest, loose: set<Ast>, n: Ast, t: Ast)
    requires WellFormed(f1) && LooseList(f1, n, [t]) && n in loose && f1.types[n] == null && Marked([t], n)
    requires WellFormed(WithType(f1, n, t))
    requires LinkedBut(f1, n, loose + Elements([t])) && n.typ == t && n.child == Get(f1.kids[n], 0)
    ensures Linked(WithType(f1, n, t), loose)
  {
    var g := WithType(f1, n, t);
    assert [t][0] == t && t in [t];
    hide Listed, Falling, UpAt, LooseList, Marked;
    forall x | x in Nodes(g)
      ensures LinkedAt(g, x, loose)
    {
      if x != n {
        assert LinkedAt(f1, x, loose + Elements([t]));
        TypeUp(f1, n, t, x);
      }
    }
  }

  lemma {:induction false} TypeUp(f1: Forest, n: Ast, t: Ast, x: Ast)
    requires WellFormed(f1) && LooseList(f1, n, [t]) && f1.types[n] == null && Marked([t], n)
    requires WellFormed(WithType(f1, n, t)) && x in Nodes(f1) && x in WithType(f1, n, t).kids
    ensures x == t || UpAt(f1, x) ==> UpAt(WithType(f1, n, t), x)
  {
    hide Listed, Falling;
    assert [t][0] == t && t in [t];
    if x != t && f1.up[x] != null {
      assert Below(f1, f1.up[x], x);
    }
  }

  lemma {:induction false} TypeExtend(f: Forest, f1: Forest, loose: set<Ast>, n: Ast, t: Ast)
    requires WellFormed(f) && WellFormed(f1) && Extends(f1, f, {}) && n in Nodes(f) && Loose(f, loose) &&
             t in Nodes(f1) && t !in Nodes(f)
    ensures var g := WithType(f1, n, t);
            Total(g) && Extends(g, f, {n}) && Loose(g, loose) && OnlyAt(f1, g, n) && Nodes(g) == Nodes(f1) &&
            g.kids[n] == f.kids[n] && g.types[n] == t && g.rank[n] == f.rank[n]
  {
    hide Listed, Falling, Hanging;
  }

  lemma {:induction false} TypeAlike(f: Forest, f1: Forest, n: Ast, a: Ast, t: Ast)
    requires WellFormed(f) && WellFormed(f1) && a in Nodes(f) && n in Nodes(f1) && f1.up[n] == null && t != n
    requires f.types[a] != null && f.types[a] in Nodes(f) && Copy(f, f.types[a], f1, t)
    requires var g := WithType(f1, n, t); WellFormed(g) && OnlyAt(f1, g, n) && Nodes(g) == Nodes(f1) && g.types[n] == t
    ensures TypeLike(f, a, WithType(f1, n, t), n)
  {
    hide Listed, Falling, Hanging, Shape, OnlyAt, WithType;
    ShapeOnly(f1, WithType(f1, n, t), n, t);
  }

  lemma {:induction false} NothingCopied(f: Forest, loose: set<Ast>)
    requires WellFormed(f) && Linked(f, loose)
    ensures Grown(f, f, {}, loose + Elements([])) && Copies(f, [], f, [])
    ensures Nodes(f) - Nodes(f) == {}
  {
    assert loose + Elements([]) == loose;
  }

  lemma {:induction false} NodeAdded(f: Forest, n: Ast, rank: nat, loose: set<Ast>)
    requires Total(f) && Loose(f, loose)
    requires WellFormed(f) && n !in Nodes(f) && Linked(f, loose) && n.child == null && n.typ == null
    ensures var g := WithNode(f, n, rank);
            && Grown(f, g, {}, loose + {n}) && Nodes(g) == Nodes(f) + {n} && Loose(g, loose + {n})
            && Blank(g, n) && g.rank[n] == rank && forall x | x in Nodes(f) :: g.rank[x] == f.rank[x]
  {
    hide Falling, Listed, Hanging, WithNode;
    WithNodeWellFormed(f, n, rank);
    WithNodeExtends(f, n, rank);
    WithNodeBlank(f, n, rank, loose);
    WithNodeLinked(f, n, rank, loose);
  }

  lemma {:induction false} WithNodeBlank(f: Forest, n: Ast, rank: nat, loose: set<Ast>)
    requires Total(f) && Loose(f, loose) && n !in Nodes(f) && Total(WithNode(f, n, rank))
    ensures var g := WithNode(f, n, rank);
            && Loose(g, loose + {n}) && n in Nodes(g) && Blank(g, n) && g.rank[n] == rank
            && forall x | x in Nodes(f) :: g.rank[x] == f.rank[x]
  {
  }

  lemma {:induction false} WithNodeLinked(f: Forest, n: Ast, rank: nat, loose: set<Ast>)
    requires WellFormed(f) && n !in Nodes(f) && Linked(f, loose) && n.child == null && n.typ == null
    requires WellFormed(WithNode(f, n, rank))
    ensures Linked(WithNode(f, n, rank), loose + {n})
  {
    var g := WithNode(f, n, rank);
    hide Falling, Listed;
    forall x | x in Nodes(g)
      ensures LinkedAt(g, x, loose + {n})
    {
      if x in Nodes(f) {
        assert LinkedAt(f, x, loose);
      }
    }
  }

  lemma {:induction false} TailSource(f: Forest, f1: Forest, g: Forest, olds: seq<Ast>, bound: nat, next: Ast?, n: Ast)
    requires WellFormed(f) && WellFormed(f1) && WellFormed(g) && Extends(f1, f, {}) && Extends(g, f1, {n})
    requires Source(f, olds, bound) && n !in Nodes(f)
    requires olds != [] && Chain(olds[0], olds) && next == olds[0].sibling
    ensures Source(g, olds[1..], bound) && Chain(next, olds[1..]) && olds[0] in Nodes(f1)
    ensures Nodes(f1) <= Nodes(g)
  {
    hide Listed, Falling, Hanging, Distinct, Chain, Extends;
    ChainTail(olds);
    assert olds[0] in olds;
    RankStays(f, f1, g, n, olds[0]);
    forall x | x in olds[1..]
      ensures x in Nodes(g) && g.rank[x] < bound
    {
      assert x in olds && x in Nodes(f);
      RankStays(f, f1, g, n, x);
    }
    hide WellFormed;
  }

  lemma {:induction false} RankStays(f: Forest, f1: Forest, g: Forest, n: Ast, x: Ast)
    requires Extends(f1, f, {}) && Extends(g, f1, {n}) && n !in Nodes(f) && x in Nodes(f)
    ensures Nodes(f1) <= Nodes(g) && x in Nodes(f1) && x in Nodes(g) && g.rank[x] == f.rank[x]
  {
  }

  lemma {:induction false} ChainTail(olds: seq<Ast>)
    requires olds != [] && Chain(olds[0], olds)
    ensures Chain(olds[0].sibling, olds[1..])
  {
    forall i | 0 <= i < |olds[1..]|
      ensures olds[1..][i].sibling == Get(olds[1..], i + 1)
    {
      assert olds[i + 1].sibling == Get(olds, i + 2);
    }
  }

  lemma {:induction false} MarkedCons(n: Ast, rest: seq<Ast>, p: Ast)
    requires Marked(rest, p) && n.parent == p && !n.orphan && n.sibling == Get(rest, 0)
    ensures Marked([n] + rest, p) && Get([n] + rest, 0) == n
  {
  }

  /** The copies of a list: the copy of its first tree, and those of the others. */
  lemma {:induction false} ConsCopied(f: Forest, f1: Forest, f2: Forest, g: Forest, olds: seq<Ast>, bound: nat, n: Ast,
          rest: seq<Ast>)
    requires WellFormed(f) && WellFormed(f1) && WellFormed(f2) && WellFormed(g)
    requires Extends(f1, f, {}) && Extends(f2, f1, {n}) && Extends(g, f2, {})
    requires n !in Nodes(f) && n in Nodes(f1) && Blank(f1, n) && n in Nodes(f2)
    requires olds != [] && Source(f, olds, bound)
    requires f2.up[n] == null && f2.rank[n] == f.rank[olds[0]] && Shape(f2, n) == Shape(f1, olds[0])
    requires Copies(f2, olds[1..], g, rest)
    ensures Extends(g, f, {}) && Copies(f, olds, g, [n] + rest)
  {
    hide WellFormed, Shape, Copy, Extends;
    var news := [n] + rest;
    GrownTwice(f, f1, f2, g, n);
    FirstCopied(f, f1, f2, g, olds[0], n);
    forall i | 0 <= i < |rest|
      ensures Copy(f, olds[i + 1], g, rest[i]) && rest[i] != n
    {
      assert olds[i + 1] == olds[1..][i] && olds[i + 1] in olds && Copy(f2, olds[i + 1], g, rest[i]);
      OtherCopied(f, f1, f2, g, olds[i + 1], n, rest[i]);
    }
    assert forall i :: 0 <= i < |news| ==> news[i] == if i == 0 then n else rest[i - 1];
  }

  lemma {:induction false} GrownTwice(f: Forest, f1: Forest, f2: Forest, g: Forest, n: Ast)
    requires Extends(f1, f, {}) && Extends(f2, f1, {n}) && Extends(g, f2, {}) && n !in Nodes(f)
    ensures Extends(g, f, {}) && Nodes(f) <= Nodes(f1) <= Nodes(f2) <= Nodes(g)
  {
  }

  lemma {:induction false} FirstCopied(f: Forest, f1: Forest, f2: Forest, g: Forest, a: Ast, n: Ast)
    requires WellFormed(f) && WellFormed(f1) && WellFormed(f2) && WellFormed(g)
    requires Extends(f1, f, {}) && Extends(g, f2, {}) && a in Nodes(f) && n !in Nodes(f) && n in Nodes(f2)
    requires a in Nodes(f1) && f2.up[n] == null && f2.rank[n] == f.rank[a] && Shape(f2, n) == Shape(f1, a)
    ensures Copy(f, a, g, n)
  {
    ShapeExtends(f1, f, {}, a);
    ShapeExtends(g, f2, {}, n);
    hide Listed, Falling, Hanging, Shape;
  }

  lemma {:induction false} OtherCopied(f: Forest, f1: Forest, f2: Forest, g: Forest, a: Ast, n: Ast, x: Ast)
    requires WellFormed(f) && WellFormed(f1) && WellFormed(f2) && WellFormed(g)
    requires Extends(f1, f, {}) && Extends(f2, f1, {n}) && Extends(g, f2, {}) && a in Nodes(f)
    requires n !in Nodes(f) && n in Nodes(f1) && f1.up[n] == null && Copy(f2, a, g, x)
    ensures Copy(f, a, g, x) && x != n
  {
    hide Listed, Falling, Hanging, Shape, Extends;
    StillThere(f, f1, f2, a, n);
  }

  lemma {:induction false} StillThere(f: Forest, f1: Forest, f2: Forest, a: Ast, n: Ast)
    requires WellFormed(f) && WellFormed(f1) && WellFormed(f2)
    requires Extends(f1, f, {}) && Extends(f2, f1, {n}) && a in Nodes(f)
    requires n !in Nodes(f) && n in Nodes(f1) && f1.up[n] == null
    ensures a in Nodes(f2) && n in Nodes(f2) && Nodes(f) <= Nodes(f2)
    ensures f2.rank[a] == f.rank[a] && Shape(f2, a) == Shape(f, a)
  {
    hide Listed, Falling, Hanging, Shape;
    ShapeExtends(f1, f, {}, a);
    ShapeExtends(f2, f1, {n}, a);
  }
}
