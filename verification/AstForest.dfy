/** The syntax tree as a forest: what the pointers of its nodes stand for. */
module AstForest {

  /** A node: its children are a list linked by `sibling`, starting at `child`. The parent field
    * of an orphan is the scope it is in; that of any other node is its parent.
    */
  class Ast {
    const token: int
    var parent: Ast?
    var child: Ast?
    var sibling: Ast?
    var typ: Ast?
    var orphan: bool

    constructor (token: int)
      ensures this.token == token
      ensures parent == null && child == null && sibling == null && typ == null && !orphan
    {
      this.token := token;
      parent, child, sibling, typ, orphan := null, null, null, null, false;
    }

    predicate HasParent()
      reads `orphan, `parent
    {
      !orphan && parent != null
    }
  }

  /** A forest: each node's children and type, the node it hangs from, and a rank that falls from parent to child. */
  datatype Forest = Forest(kids: map<Ast, seq<Ast>>, types: map<Ast, Ast?>, up: map<Ast, Ast?>, rank: map<Ast, nat>)

  ghost const NONE: Forest := Forest(map[], map[], map[], map[])

  ghost function Nodes(f: Forest): set<Ast> {
    f.kids.Keys
  }

  ghost predicate Total(f: Forest) {
    f.types.Keys == Nodes(f) && f.up.Keys == Nodes(f) && f.rank.Keys == Nodes(f)
  }

  ghost predicate Distinct(s: seq<Ast>) {
    forall i, j :: 0 <= i < j < |s| ==> s[i] != s[j]
  }

  /** Below `n`: one of its children, or its type. */
  ghost predicate Below(f: Forest, n: Ast, x: Ast)
    requires Total(f) && n in Nodes(f)
  {
    x in f.kids[n] || x == f.types[n]
  }

  /** The children and the type of `n` are nodes of the forest, and nothing occurs among them twice. */
  ghost predicate ListedAt(f: Forest, n: Ast)
    requires Total(f) && n in Nodes(f)
  {
    && (forall k | k in f.kids[n] :: k in Nodes(f))
    && Distinct(f.kids[n])
    && (f.types[n] != null ==> f.types[n] in Nodes(f) && f.types[n] !in f.kids[n])
  }

  ghost predicate Listed(f: Forest)
    requires Total(f)
  {
    forall n | n in Nodes(f) :: ListedAt(f, n)
  }

  /** Ranks fall from parent to child, so that nothing is below itself. */
  ghost predicate Falling(f: Forest)
    requires Total(f)
  {
    forall n, x | n in Nodes(f) && x in Nodes(f) && Below(f, n, x) :: f.rank[x] < f.rank[n]
  }

  /** A node hangs from the one node it is below, if it is below any. */
  ghost predicate Hanging(f: Forest)
    requires Total(f)
  {
    && (forall n, x | n in Nodes(f) && x in Nodes(f) && Below(f, n, x) :: f.up[x] == n)
    && (forall x | x in Nodes(f) && f.up[x] != null :: f.up[x] in Nodes(f) && Below(f, f.up[x], x))
  }

  /** Every node is in at most one place of at most one list, and nothing is below itself. */
  ghost predicate WellFormed(f: Forest) {
    Total(f) && Listed(f) && Falling(f) && Hanging(f)
  }

  /** `x` is `a` or below it. */
  ghost predicate InTree(f: Forest, a: Ast, x: Ast)
    requires WellFormed(f) && a in Nodes(f)
    decreases f.rank[a]
  {
    x == a || exists k :: k in Nodes(f) && Below(f, a, k) && InTree(f, k, x)
  }

  // ------------------------------------------------------------ the heap

  ghost function Get(s: seq<Ast>, i: nat): Ast? {
    if i < |s| then s[i] else null
  }

  /** The node after `x` in a list. */
  ghost function After(s: seq<Ast>, x: Ast): Ast? {
    if s == [] then null else if s[0] == x then Get(s, 1) else After(s[1..], x)
  }

  /** What the sibling field of an attached node must be: a type has no siblings. */
  ghost function NextOf(f: Forest, x: Ast): Ast?
    requires WellFormed(f) && x in Nodes(f) && f.up[x] != null
  {
    if x == f.types[f.up[x]] then null else After(f.kids[f.up[x]], x)
  }

  /** The pointers of `n` to what is below it are those of the forest. */
  ghost predicate DownAt(f: Forest, n: Ast)
    reads n`child, n`typ
    requires Total(f) && n in Nodes(f)
  {
    n.child == Get(f.kids[n], 0) && n.typ == f.types[n]
  }

  /** The pointers of `n` to where it hangs are those of the forest. */
  ghost predicate UpAt(f: Forest, n: Ast)
    reads n`parent, n`orphan, n`sibling
    requires WellFormed(f) && n in Nodes(f)
  {
    if f.up[n] == null then !n.HasParent() && n.sibling == null
    else n.parent == f.up[n] && !n.orphan && n.sibling == NextOf(f, n)
  }

  /** The pointers of `n` are those of the forest. A node in `loose` may hang from anything. */
  ghost predicate LinkedAt(f: Forest, n: Ast, loose: set<Ast>)
    reads n
    requires WellFormed(f) && n in Nodes(f)
  {
    DownAt(f, n) && (n !in loose ==> UpAt(f, n))
  }

  ghost predicate Linked(f: Forest, loose: set<Ast>)
    reads Nodes(f)
    requires WellFormed(f)
  {
    forall n | n in Nodes(f) :: LinkedAt(f, n, loose)
  }

  /** The list that starts at `first` and is linked by `sibling` is `s`, and ends with null. */
  ghost predicate Chain(first: Ast?, s: seq<Ast>)
    reads s
  {
    first == Get(s, 0) && forall i :: 0 <= i < |s| ==> s[i].sibling == Get(s, i + 1)
  }

  lemma {:induction false} AfterAt(s: seq<Ast>, i: nat)
    requires Distinct(s) && i < |s|
    ensures After(s, s[i]) == Get(s, i + 1)
  {
    if i > 0 {
      assert s[0] != s[i];
      AfterAt(s[1..], i - 1);
    }
  }

  /** The children of a node are a list linked by `sibling`, and each knows its parent. */
  lemma {:induction false} ChildrenChain(f: Forest, p: Ast)
    requires WellFormed(f) && Linked(f, {}) && p in Nodes(f)
    ensures Chain(p.child, f.kids[p])
    ensures forall i :: 0 <= i < |f.kids[p]| ==> f.kids[p][i].parent == p && f.kids[p][i].HasParent()
  {
    var s := f.kids[p];
    assert ListedAt(f, p) && LinkedAt(f, p, {});
    forall i | 0 <= i < |s|
      ensures s[i].sibling == Get(s, i + 1) && s[i].parent == p && s[i].HasParent()
    {
      assert Below(f, p, s[i]) && LinkedAt(f, s[i], {});
      AfterAt(s, i);
    }
  }

  // ------------------------------------------------- what a tree looks like

  datatype Tree = Tree(token: int, kids: seq<Tree>, types: seq<Tree>)

  /** A node's tokens and structure, forgetting which objects it is made of. */
  ghost function Shape(f: Forest, n: Ast): Tree
    requires WellFormed(f) && n in Nodes(f)
    decreases f.rank[n], 1
  {
    assert forall x :: x in f.kids[n] ==> x in Nodes(f) && Below(f, n, x);
    Tree(n.token, Shapes(f, f.kids[n], f.rank[n]),
         if f.types[n] == null then [] else assert Below(f, n, f.types[n]); [Shape(f, f.types[n])])
  }

  ghost function Shapes(f: Forest, s: seq<Ast>, bound: nat): (r: seq<Tree>)
    requires WellFormed(f)
    requires forall x :: x in s ==> x in Nodes(f) && f.rank[x] < bound
    ensures |r| == |s|
    decreases bound, 0, |s|
  {
    if s == [] then [] else
      assert s[0] in s;
      [Shape(f, s[0])] + Shapes(f, s[1..], bound)
  }

  /** `g` has the nodes of `f`, those in `changed` apart as they were, and maybe more. */
  ghost predicate Extends(g: Forest, f: Forest, changed: set<Ast>) {
    && Total(f) && Total(g) && Nodes(f) <= Nodes(g)
    && forall n | n in Nodes(f) && n !in changed ::
         g.kids[n] == f.kids[n] && g.types[n] == f.types[n] && g.up[n] == f.up[n] && g.rank[n] == f.rank[n]
  }

  /** Everything in the tree of `n` hangs in `g` as it does in `f`. */
  ghost predicate SameTree(g: Forest, f: Forest, n: Ast)
    requires WellFormed(f) && Total(g) && n in Nodes(f) && Nodes(f) <= Nodes(g)
  {
    forall x | x in Nodes(f) && InTree(f, n, x) :: g.kids[x] == f.kids[x] && g.types[x] == f.types[x]
  }

  lemma {:induction false} SameBelow(g: Forest, f: Forest, n: Ast, k: Ast)
    requires WellFormed(f) && Total(g) && n in Nodes(f) && k in Nodes(f) && Nodes(f) <= Nodes(g)
    requires SameTree(g, f, n) && Below(f, n, k)
    ensures SameTree(g, f, k)
  {
    forall x | x in Nodes(f) && InTree(f, k, x)
      ensures InTree(f, n, x)
    {
    }
  }

  /** The shape of a tree depends on that tree only. */
  lemma {:induction false} ShapeKept(g: Forest, f: Forest, n: Ast)
    requires WellFormed(f) && WellFormed(g) && n in Nodes(f) && Nodes(f) <= Nodes(g)
    requires SameTree(g, f, n)
    ensures Shape(g, n) == Shape(f, n)
    decreases f.rank[n], 1
  {
    assert g.kids[n] == f.kids[n] && g.types[n] == f.types[n] by { assert InTree(f, n, n); }
    assert forall x :: x in f.kids[n] ==> x in Nodes(f) && Below(f, n, x) && Below(g, n, x);
    ShapesKept(g, f, n, f.kids[n], f.rank[n], g.rank[n]);
    var t := f.types[n];
    if t != null {
      assert Below(f, n, t) && t in Nodes(f);
      SameBelow(g, f, n, t);
      ShapeKept(g, f, t);
    }
  }

  lemma {:induction false} ShapesKept(g: Forest, f: Forest, n: Ast, s: seq<Ast>, bound: nat, bound': nat)
    requires WellFormed(f) && WellFormed(g) && n in Nodes(f) && Nodes(f) <= Nodes(g)
    requires forall x :: x in s ==> x in Nodes(f) && Below(f, n, x) && f.rank[x] < bound && g.rank[x] < bound'
    requires SameTree(g, f, n) && bound <= f.rank[n]
    ensures Shapes(g, s, bound') == Shapes(f, s, bound)
    decreases f.rank[n], 0, |s|
  {
    hide SameTree;
    if s != [] {
      assert s[0] in s;
      SameBelow(g, f, n, s[0]);
      ShapeKept(g, f, s[0]);
      assert forall x :: x in s[1..] ==> x in s;
      ShapesKept(g, f, n, s[1..], bound, bound');
    }
  }

  // ------------------------------------------------------- editing a forest

  /** Ranks after `c` is hung below `p`: those of `p` and of everything above it rise over that of `c`. */
  ghost function Raised(f: Forest, p: Ast, c: Ast): (ranks: map<Ast, nat>)
    requires WellFormed(f) && p in Nodes(f) && c in Nodes(f)
    ensures ranks.Keys == Nodes(f)
  {
    map y | y in Nodes(f) :: if InTree(f, y, p) then f.rank[y] + f.rank[c] + 1 else f.rank[y]
  }

  /** `c` put in at place `i` among the children of `p`. */
  ghost function Insert(f: Forest, p: Ast, i: nat, c: Ast): Forest
    requires WellFormed(f) && p in Nodes(f) && c in Nodes(f) && i <= |f.kids[p]|
  {
    Forest(f.kids[p := f.kids[p][..i] + [c] + f.kids[p][i..]], f.types, f.up[c := p], Raised(f, p, c))
  }

  /** The child at place `i` of `p` taken out. */
  ghost function Remove(f: Forest, p: Ast, i: nat): Forest
    requires WellFormed(f) && p in Nodes(f) && i < |f.kids[p]|
  {
    Forest(f.kids[p := f.kids[p][..i] + f.kids[p][i + 1..]], f.types, f.up[f.kids[p][i] := null], f.rank)
  }

  /** The type of `p` taken off. */
  ghost function Untype(f: Forest, p: Ast): Forest
    requires WellFormed(f) && p in Nodes(f) && f.types[p] != null
  {
    Forest(f.kids, f.types[p := null], f.up[f.types[p] := null], f.rank)
  }

  /** `c` made the type of `p`. */
  ghost function Retype(f: Forest, p: Ast, c: Ast): Forest
    requires WellFormed(f) && p in Nodes(f) && c in Nodes(f)
  {
    Forest(f.kids, f.types[p := c], f.up[c := p], Raised(f, p, c))
  }

  lemma {:induction false} RanksRise(f: Forest, p: Ast, c: Ast)
    requires WellFormed(f) && p in Nodes(f) && c in Nodes(f) && !InTree(f, c, p)
    ensures var r := Raised(f, p, c);
            && r[c] < r[p]
            && forall n, x | n in Nodes(f) && x in Nodes(f) && Below(f, n, x) :: r[x] < r[n]
  {
    var r := Raised(f, p, c);
    assert InTree(f, p, p);
    forall n, x | n in Nodes(f) && x in Nodes(f) && Below(f, n, x)
      ensures r[x] < r[n]
    {
      assert InTree(f, x, p) ==> InTree(f, n, p);
    }
  }

  lemma {:induction false} InsertDistinct(s: seq<Ast>, i: nat, c: Ast)
    requires i <= |s| && Distinct(s) && c !in s
    ensures Distinct(s[..i] + [c] + s[i..])
    ensures forall x :: x in s[..i] + [c] + s[i..] <==> x in s || x == c
  {
    var t := s[..i] + [c] + s[i..];
    assert forall k :: 0 <= k < |t| ==> t[k] == if k < i then s[k] else if k == i then c else s[k - 1];
    assert forall k :: 0 <= k < |s| ==> s[k] == t[if k < i then k else k + 1];
    assert t[i] == c;
  }

  lemma {:induction false} RemoveDistinct(s: seq<Ast>, i: nat)
    requires i < |s| && Distinct(s)
    ensures Distinct(s[..i] + s[i + 1..])
    ensures forall x :: x in s[..i] + s[i + 1..] <==> x in s && x != s[i]
  {
    var t := s[..i] + s[i + 1..];
    assert forall k :: 0 <= k < |t| ==> t[k] == if k < i then s[k] else s[k + 1];
    assert forall k :: 0 <= k < |s| && k != i ==> s[k] == t[if k < i then k else k - 1];
  }

  /** A loose node `c` has come to be below `p`, and nothing else has changed. */
  lemma {:induction false} HungOne(f: Forest, g: Forest, p: Ast, c: Ast)
    requires WellFormed(f) && p in Nodes(f) && c in Nodes(f) && f.up[c] == null && !InTree(f, c, p)
    requires Total(g) && Listed(g) && Nodes(g) == Nodes(f) && g.up == f.up[c := p] && g.rank == Raised(f, p, c)
    requires forall n, x | n in Nodes(f) && x in Nodes(f) :: Below(g, n, x) <==> Below(f, n, x) || (n == p && x == c)
    ensures WellFormed(g)
  {
    hide Raised, InTree, Below;
    RanksRise(f, p, c);
    HungFalling(f, g, p, c);
    HungHanging(f, g, p, c);
  }

  lemma {:induction false} HungFalling(f: Forest, g: Forest, p: Ast, c: Ast)
    requires Total(f) && Total(g) && Nodes(g) == Nodes(f) && p in Nodes(f) && c in Nodes(f)
    requires g.rank[c] < g.rank[p]
    requires forall n, x | n in Nodes(f) && x in Nodes(f) && Below(f, n, x) :: g.rank[x] < g.rank[n]
    requires forall n, x | n in Nodes(f) && x in Nodes(f) :: Below(g, n, x) <==> Below(f, n, x) || (n == p && x == c)
    ensures Falling(g)
  {
    hide Below;
  }

  lemma {:induction false} HungHanging(f: Forest, g: Forest, p: Ast, c: Ast)
    requires Total(f) && Total(g) && Nodes(g) == Nodes(f) && p in Nodes(f) && c in Nodes(f)
    requires Hanging(f) && f.up[c] == null && g.up == f.up[c := p]
    requires forall n, x | n in Nodes(f) && x in Nodes(f) :: Below(g, n, x) <==> Below(f, n, x) || (n == p && x == c)
    ensures Hanging(g)
  {
    hide Below;
  }

  /** `c` is no longer below `p`, and nothing else has changed. */
  lemma {:induction false} UnhungOne(f: Forest, g: Forest, p: Ast, c: Ast)
    requires WellFormed(f) && p in Nodes(f) && c in Nodes(f) && Below(f, p, c)
    requires Total(g) && Listed(g) && Nodes(g) == Nodes(f) && g.up == f.up[c := null] && g.rank == f.rank
    requires forall n, x | n in Nodes(f) && x in Nodes(f) :: Below(g, n, x) <==> Below(f, n, x) && !(n == p && x == c)
    ensures WellFormed(g)
  {
  }

  /** A loose node that does not hold `p` can be hung below `p`. */
  lemma {:induction false} InsertWellFormed(f: Forest, p: Ast, i: nat, c: Ast)
    requires WellFormed(f) && p in Nodes(f) && c in Nodes(f) && i <= |f.kids[p]|
    requires f.up[c] == null && !InTree(f, c, p)
    ensures WellFormed(Insert(f, p, i, c))
  {
    InsertListed(f, p, i, c);
    InsertBelow(f, p, i, c);
    hide Insert;
    HungOne(f, Insert(f, p, i, c), p, c);
  }

  lemma {:induction false} InsertListed(f: Forest, p: Ast, i: nat, c: Ast)
    requires WellFormed(f) && p in Nodes(f) && c in Nodes(f) && i <= |f.kids[p]| && f.up[c] == null
    ensures var g := Insert(f, p, i, c);
            Total(g) && Listed(g) && Nodes(g) == Nodes(f) && g.up == f.up[c := p] && g.rank == Raised(f, p, c)
  {
    hide Falling, InTree, Distinct, Raised;
    var g := Insert(f, p, i, c);
    assert !Below(f, p, c) && ListedAt(f, p);
    hide Hanging, Below;
    InsertDistinct(f.kids[p], i, c);
    forall n | n in Nodes(f)
      ensures ListedAt(g, n)
    {
      if n != p {
        assert g.kids[n] == f.kids[n] && ListedAt(f, n);
      }
    }
  }

  lemma {:induction false} InsertBelow(f: Forest, p: Ast, i: nat, c: Ast)
    requires WellFormed(f) && p in Nodes(f) && c in Nodes(f) && i <= |f.kids[p]| && f.up[c] == null
    ensures var g := Insert(f, p, i, c);
            Total(g) && Nodes(g) == Nodes(f) &&
            forall n, x | n in Nodes(f) && x in Nodes(f) :: Below(g, n, x) <==> Below(f, n, x) || (n == p && x == c)
  {
    InsertKids(f, p, i, c);
    hide Falling, InTree, Distinct, Raised, Listed, Hanging, ListedAt, Insert;
  }

  lemma {:induction false} InsertKids(f: Forest, p: Ast, i: nat, c: Ast)
    requires WellFormed(f) && p in Nodes(f) && c in Nodes(f) && i <= |f.kids[p]| && f.up[c] == null
    ensures var g := Insert(f, p, i, c);
            && Total(g) && Nodes(g) == Nodes(f) && g.types == f.types
            && (forall n | n in Nodes(f) && n != p :: g.kids[n] == f.kids[n])
            && (forall x :: x in g.kids[p] <==> x in f.kids[p] || x == c)
  {
    hide Falling, InTree, Raised;
    assert !Below(f, p, c) && ListedAt(f, p);
    InsertDistinct(f.kids[p], i, c);
    hide WellFormed, ListedAt, Distinct, Below;
    assert Insert(f, p, i, c).kids[p] == f.kids[p][..i] + [c] + f.kids[p][i..];
  }

  lemma {:induction false} RemoveWellFormed(f: Forest, p: Ast, i: nat)
    requires WellFormed(f) && p in Nodes(f) && i < |f.kids[p]|
    ensures WellFormed(Remove(f, p, i))
  {
    RemoveListed(f, p, i);
    assert Below(f, p, f.kids[p][i]);
    hide Remove;
    UnhungOne(f, Remove(f, p, i), p, f.kids[p][i]);
  }

  lemma {:induction false} RemoveListed(f: Forest, p: Ast, i: nat)
    requires WellFormed(f) && p in Nodes(f) && i < |f.kids[p]|
    ensures var g, c := Remove(f, p, i), f.kids[p][i];
            && Total(g) && Listed(g) && Nodes(g) == Nodes(f) && g.up == f.up[c := null] && g.rank == f.rank
            && forall n, x | n in Nodes(f) && x in Nodes(f) :: Below(g, n, x) <==> Below(f, n, x) && !(n == p && x == c)
  {
    hide Distinct, Falling, Hanging;
    var g := Remove(f, p, i);
    assert ListedAt(f, p) && f.kids[p][i] in f.kids[p];
    forall n | n in Nodes(f)
      ensures ListedAt(g, n)
    {
      RemoveListedAt(f, p, i, n);
    }
    RemoveDistinct(f.kids[p], i);
    hide ListedAt, Listed;
  }

  lemma {:induction false} RemoveListedAt(f: Forest, p: Ast, i: nat, n: Ast)
    requires WellFormed(f) && p in Nodes(f) && i < |f.kids[p]| && n in Nodes(f)
    ensures var g := Remove(f, p, i); Total(g) && Nodes(g) == Nodes(f) && ListedAt(g, n)
  {
    assert ListedAt(f, p) && f.kids[p][i] in f.kids[p];
    assert ListedAt(f, n);
    RemoveDistinct(f.kids[p], i);
    var g := Remove(f, p, i);
    assert g.kids[n] == (if n == p then f.kids[p][..i] + f.kids[p][i + 1..] else f.kids[n]) && g.types == f.types;
    assert Total(g) && Nodes(g) == Nodes(f);
    hide WellFormed, Distinct;
  }

  lemma {:induction false} UntypeWellFormed(f: Forest, p: Ast)
    requires WellFormed(f) && p in Nodes(f) && f.types[p] != null
    ensures WellFormed(Untype(f, p))
  {
    assert Below(f, p, f.types[p]);
    UntypeListed(f, p);
    hide Untype;
    UnhungOne(f, Untype(f, p), p, f.types[p]);
  }

  lemma {:induction false} UntypeListed(f: Forest, p: Ast)
    requires WellFormed(f) && p in Nodes(f) && f.types[p] != null
    ensures var g, c := Untype(f, p), f.types[p];
            && c in Nodes(f)
            && Total(g) && Listed(g) && Nodes(g) == Nodes(f) && g.up == f.up[c := null] && g.rank == f.rank
            && forall n, x | n in Nodes(f) && x in Nodes(f) :: Below(g, n, x) <==> Below(f, n, x) && !(n == p && x == c)
  {
    hide Distinct, Falling, Hanging;
    assert ListedAt(f, p);
    var g := Untype(f, p);
    forall n | n in Nodes(f)
      ensures ListedAt(g, n)
    {
      assert ListedAt(f, n) && g.kids[n] == f.kids[n];
    }
    hide ListedAt, Listed;
  }

  lemma {:induction false} RetypeWellFormed(f: Forest, p: Ast, c: Ast)
    requires WellFormed(f) && p in Nodes(f) && c in Nodes(f) && f.types[p] == null
    requires f.up[c] == null && !InTree(f, c, p)
    ensures WellFormed(Retype(f, p, c))
  {
    RetypeListed(f, p, c);
    hide Retype;
    HungOne(f, Retype(f, p, c), p, c);
  }

  lemma {:induction false} RetypeListedAt(f: Forest, p: Ast, c: Ast, n: Ast)
    requires WellFormed(f) && p in Nodes(f) && c in Nodes(f) && f.types[p] == null && f.up[c] == null && n in Nodes(f)
    ensures var g := Retype(f, p, c); Total(g) && Nodes(g) == Nodes(f) && ListedAt(g, n)
  {
    hide Falling, InTree, Distinct, Raised;
    assert ListedAt(f, n) && !Below(f, n, c);
    hide Hanging, Listed;
    RetypeTotal(f, p, c);
    hide WellFormed;
    assert Retype(f, p, c).types[n] == if n == p then c else f.types[n];
  }

  lemma {:induction false} RetypeTotal(f: Forest, p: Ast, c: Ast)
    requires WellFormed(f) && p in Nodes(f) && c in Nodes(f)
    ensures var g := Retype(f, p, c); Total(g) && Nodes(g) == Nodes(f)
  {
    hide Falling, InTree, Hanging, Listed;
  }

  lemma {:induction false} RetypeListed(f: Forest, p: Ast, c: Ast)
    requires WellFormed(f) && p in Nodes(f) && c in Nodes(f) && f.types[p] == null && f.up[c] == null
    ensures var g := Retype(f, p, c);
            && Total(g) && Listed(g) && Nodes(g) == Nodes(f) && g.up == f.up[c := p] && g.rank == Raised(f, p, c)
            && forall n, x | n in Nodes(f) && x in Nodes(f) :: Below(g, n, x) <==> Below(f, n, x) || (n == p && x == c)
  {
    hide Falling, InTree, Distinct, Raised;
    var g := Retype(f, p, c);
    assert !Below(f, p, c) && ListedAt(f, p);
    hide Hanging;
    forall n | n in Nodes(f)
      ensures ListedAt(g, n)
    {
      RetypeListedAt(f, p, c, n);
    }
    RetypeBelow(f, p, c);
    RetypeTotal(f, p, c);
    hide ListedAt, Below;
  }

  lemma {:induction false} RetypeBelow(f: Forest, p: Ast, c: Ast)
    requires WellFormed(f) && p in Nodes(f) && c in Nodes(f) && f.types[p] == null
    ensures var g := Retype(f, p, c);
            && Total(g)
            && forall n, x | n in Nodes(f) && x in Nodes(f) :: Below(g, n, x) <==> Below(f, n, x) || (n == p && x == c)
  {
    hide Falling, InTree, Distinct, Raised, Listed, Hanging;
    var g := Retype(f, p, c);
    assert Total(g) && g.kids == f.kids && forall n | n in Nodes(f) :: g.types[n] == if n == p then c else f.types[n];
  }

  /** Taking things out of the forest leaves no new way down. */
  lemma {:induction false} InTreeShrinks(f: Forest, g: Forest, a: Ast, x: Ast)
    requires WellFormed(f) && WellFormed(g) && Nodes(f) == Nodes(g) && a in Nodes(f)
    requires forall n, k | n in Nodes(f) && k in Nodes(f) && Below(g, n, k) :: Below(f, n, k)
    requires InTree(g, a, x)
    ensures InTree(f, a, x)
    decreases f.rank[a]
  {
    if x != a {
      var k :| k in Nodes(g) && Below(g, a, k) && InTree(g, k, x);
      assert Below(f, a, k);
      InTreeShrinks(f, g, k, x);
    }
  }

  /** A set of nodes that nothing leads out of holds the trees of its members. */
  lemma {:induction false} StaysWithin(f: Forest, s: set<Ast>, a: Ast, x: Ast)
    requires WellFormed(f) && a in Nodes(f) && a in s
    requires forall n, k | n in Nodes(f) && k in Nodes(f) && n in s && Below(f, n, k) :: k in s
    requires InTree(f, a, x)
    ensures x in s
    decreases f.rank[a]
  {
    if x != a {
      var k :| k in Nodes(f) && Below(f, a, k) && InTree(f, k, x);
      StaysWithin(f, s, k, x);
    }
  }

  // ----------------------------------------------------------- copying trees

  /** A new node, hanging from nothing. */
  ghost function WithNode(f: Forest, n: Ast, rank: nat): Forest {
    Forest(f.kids[n := []], f.types[n := null], f.up[n := null], f.rank[n := rank])
  }

  lemma {:induction false} WithNodeWellFormed(f: Forest, n: Ast, rank: nat)
    requires WellFormed(f) && n !in Nodes(f)
    ensures var g := WithNode(f, n, rank);
            WellFormed(g) && Nodes(g) == Nodes(f) + {n} && Extends(g, f, {})
  {
    hide Below, ListedAt, Extends, WithNode;
    WithNodeExtends(f, n, rank);
    WithNodeListed(f, n, rank);
    WithNodeBelow(f, n, rank);
  }

  lemma {:induction false} WithNodeExtends(f: Forest, n: Ast, rank: nat)
    requires Total(f) && n !in Nodes(f)
    ensures var g := WithNode(f, n, rank);
            Total(g) && Nodes(g) == Nodes(f) + {n} && Extends(g, f, {}) &&
            g.up == f.up[n := null] && g.rank == f.rank[n := rank]
  {
  }

  lemma {:induction false} WithNodeListed(f: Forest, n: Ast, rank: nat)
    requires Total(f) && Listed(f) && n !in Nodes(f)
    ensures Total(WithNode(f, n, rank)) && Listed(WithNode(f, n, rank))
  {
    WithNodeExtends(f, n, rank);
    var g := WithNode(f, n, rank);
    forall m | m in Nodes(g)
      ensures ListedAt(g, m)
    {
      if m == n {
        assert g.kids[n] == [] && g.types[n] == null;
      } else {
        assert g.kids[m] == f.kids[m] && g.types[m] == f.types[m] && ListedAt(f, m);
      }
    }
  }

  lemma {:induction false} WithNodeBelow(f: Forest, n: Ast, rank: nat)
    requires Total(f) && Listed(f) && n !in Nodes(f)
    ensures var g := WithNode(f, n, rank);
            Total(g) && Nodes(g) == Nodes(f) + {n} &&
            forall m, x | m in Nodes(g) && x in Nodes(g) ::
              Below(g, m, x) <==> m in Nodes(f) && x in Nodes(f) && Below(f, m, x)
  {
    WithNodeExtends(f, n, rank);
    var g := WithNode(f, n, rank);
    assert g.kids[n] == [] && g.types[n] == null;
    forall m, x | m in Nodes(g) && x in Nodes(g)
      ensures Below(g, m, x) <==> m in Nodes(f) && x in Nodes(f) && Below(f, m, x)
    {
      if m != n {
        assert g.kids[m] == f.kids[m] && g.types[m] == f.types[m];
      }
    }
  }

  /** A list of loose nodes, all of lower rank, hung below `n`, which had no children. */
  ghost function WithKids(f: Forest, n: Ast, s: seq<Ast>): Forest
    requires WellFormed(f)
  {
    Forest(f.kids[n := s], f.types, map x | x in Nodes(f) :: if x in s then n else f.up[x], f.rank)
  }

  ghost predicate LooseList(f: Forest, n: Ast, s: seq<Ast>)
    requires WellFormed(f)
  {
    && n in Nodes(f) && n !in s && Distinct(s)
    && forall x :: x in s ==> x in Nodes(f) && f.up[x] == null && f.rank[x] < f.rank[n]
  }

  lemma {:induction false} WithKidsWellFormed(f: Forest, n: Ast, s: seq<Ast>)
    requires WellFormed(f) && LooseList(f, n, s) && f.kids[n] == []
    ensures var g := WithKids(f, n, s);
            WellFormed(g) && Nodes(g) == Nodes(f)
  {
    hide Below, ListedAt, Distinct;
    WithKidsListed(f, n, s);
    WithKidsHanging(f, n, s);
  }

  lemma {:induction false} WithKidsHanging(f: Forest, n: Ast, s: seq<Ast>)
    requires WellFormed(f) && LooseList(f, n, s)
    requires var g := WithKids(f, n, s);
             Total(g) &&
             forall m, x | m in Nodes(f) && x in Nodes(f) :: Below(g, m, x) <==> Below(f, m, x) || (m == n && x in s)
    ensures Hanging(WithKids(f, n, s))
  {
    hide Below, ListedAt, Distinct, Falling;
    var g := WithKids(f, n, s);
    assert forall x | x in Nodes(f) :: g.up[x] == if x in s then n else f.up[x];
    assert Nodes(g) == Nodes(f);
    hide WithKids;
  }

  lemma {:induction false} WithKidsListedAt(f: Forest, n: Ast, s: seq<Ast>, m: Ast)
    requires WellFormed(f) && LooseList(f, n, s) && f.kids[n] == [] && m in Nodes(f)
    ensures var g := WithKids(f, n, s); Total(g) && Nodes(g) == Nodes(f) && ListedAt(g, m)
  {
    hide Falling, Distinct;
    var g := WithKids(f, n, s);
    assert f.types[n] != null ==> Below(f, n, f.types[n]);
    assert ListedAt(f, m) && (m != n ==> g.kids[m] == f.kids[m]);
  }

  lemma {:induction false} WithKidsListed(f: Forest, n: Ast, s: seq<Ast>)
    requires WellFormed(f) && LooseList(f, n, s) && f.kids[n] == []
    ensures var g := WithKids(f, n, s);
            && Total(g) && Listed(g)
            && forall m, x | m in Nodes(f) && x in Nodes(f) :: Below(g, m, x) <==> Below(f, m, x) || (m == n && x in s)
  {
    hide Falling, Distinct;
    var g := WithKids(f, n, s);
    forall m | m in Nodes(f)
      ensures ListedAt(g, m)
    {
      WithKidsListedAt(f, n, s, m);
    }
    WithKidsBelow(f, n, s);
    hide ListedAt, Hanging, Below, LooseList, WithKids;
  }

  lemma {:induction false} WithKidsBelow(f: Forest, n: Ast, s: seq<Ast>)
    requires WellFormed(f) && n in Nodes(f) && f.kids[n] == []
    ensures var g := WithKids(f, n, s);
            && Total(g)
            && forall m, x | m in Nodes(f) && x in Nodes(f) :: Below(g, m, x) <==> Below(f, m, x) || (m == n && x in s)
  {
    hide Falling, Listed, Hanging;
    var g := WithKids(f, n, s);
    assert Total(g) && g.types == f.types && forall m | m in Nodes(f) :: g.kids[m] == if m == n then s else f.kids[m];
  }

  ghost function WithType(f: Forest, n: Ast, t: Ast?): Forest {
    if t == null then f else Forest(f.kids, f.types[n := t], f.up[t := n], f.rank)
  }

  lemma {:induction false} WithTypeWellFormed(f: Forest, n: Ast, t: Ast)
    requires WellFormed(f) && LooseList(f, n, [t]) && f.types[n] == null
    ensures var g := WithType(f, n, t);
            WellFormed(g) && Nodes(g) == Nodes(f)
  {
    assert t in [t];
    WithTypeListed(f, n, t);
    var g := WithType(f, n, t);
    hide Below, ListedAt, Distinct, Listed, WithType, Hanging;
    HungHanging(f, g, n, t);
    HungFalling(f, g, n, t);
  }

  lemma {:induction false} WithTypeListed(f: Forest, n: Ast, t: Ast)
    requires WellFormed(f) && LooseList(f, n, [t]) && f.types[n] == null
    ensures var g := WithType(f, n, t);
            && Total(g) && Listed(g) && Nodes(g) == Nodes(f) && g.up == f.up[t := n] && g.rank == f.rank
            && forall m, x | m in Nodes(f) && x in Nodes(f) :: Below(g, m, x) <==> Below(f, m, x) || (m == n && x == t)
  {
    hide Falling, Distinct;
    var g := WithType(f, n, t);
    assert t in [t];
    forall m | m in Nodes(f)
      ensures ListedAt(g, m)
    {
      WithTypeListedAt(f, n, t, m);
    }
    WithTypeBelow(f, n, t);
    hide ListedAt, Hanging, Below, LooseList;
  }

  lemma {:induction false} WithTypeListedAt(f: Forest, n: Ast, t: Ast, m: Ast)
    requires WellFormed(f) && LooseList(f, n, [t]) && f.types[n] == null && m in Nodes(f)
    ensures var g := WithType(f, n, t); Total(g) && Nodes(g) == Nodes(f) && ListedAt(g, m)
  {
    hide Falling, Distinct;
    assert t in [t] && !Below(f, n, t) && t in Nodes(f);
    assert ListedAt(f, m);
    var g := WithType(f, n, t);
    assert g.kids == f.kids && g.types[m] == (if m == n then t else f.types[m]) && f.up.Keys == Nodes(f);
    hide WellFormed, LooseList;
  }

  lemma {:induction false} WithTypeBelow(f: Forest, n: Ast, t: Ast)
    requires WellFormed(f) && n in Nodes(f) && t in Nodes(f) && f.types[n] == null
    ensures var g := WithType(f, n, t);
            && Total(g)
            && forall m, x | m in Nodes(f) && x in Nodes(f) :: Below(g, m, x) <==> Below(f, m, x) || (m == n && x == t)
  {
    hide Falling, Listed, Hanging;
    var g := WithType(f, n, t);
    assert Total(g) && g.kids == f.kids && forall m | m in Nodes(f) :: g.types[m] == if m == n then t else f.types[m];
  }

  /** A node that hangs from nothing is in no tree but its own. */
  lemma {:induction false} RootInNoTree(f: Forest, a: Ast, n: Ast)
    requires WellFormed(f) && a in Nodes(f) && n in Nodes(f) && f.up[n] == null && a != n
    ensures !InTree(f, a, n)
    decreases f.rank[a]
  {
    if k :| k in Nodes(f) && Below(f, a, k) && InTree(f, k, n) {
      if k == n {
        assert false;
      }
      RootInNoTree(f, k, n);
    }
  }

  /** Shapes survive changes that leave the trees alone. */
  lemma {:induction false} ShapeExtends(g: Forest, f: Forest, changed: set<Ast>, a: Ast)
    requires WellFormed(f) && WellFormed(g) && Extends(g, f, changed) && a in Nodes(f)
    requires forall n :: n in changed && n in Nodes(f) ==> n != a && f.up[n] == null
    ensures Shape(g, a) == Shape(f, a)
  {
    forall x | x in Nodes(f) && InTree(f, a, x)
      ensures g.kids[x] == f.kids[x] && g.types[x] == f.types[x]
    {
      if x in changed {
        RootInNoTree(f, a, x);
      }
    }
    ShapeKept(g, f, a);
  }

  /** Trees of one token whose children and types have the same shapes have the same shape. */
  lemma {:induction false} SameShape(f: Forest, a: Ast, g: Forest, b: Ast)
    requires WellFormed(f) && WellFormed(g) && a in Nodes(f) && b in Nodes(g) && a.token == b.token
    requires |f.kids[a]| == |g.kids[b]|
    requires forall i :: 0 <= i < |f.kids[a]| ==>
               f.kids[a][i] in Nodes(f) && g.kids[b][i] in Nodes(g) && Shape(f, f.kids[a][i]) == Shape(g, g.kids[b][i])
    requires f.types[a] == null <==> g.types[b] == null
    requires f.types[a] != null ==>
               f.types[a] in Nodes(f) && g.types[b] in Nodes(g) && Shape(f, f.types[a]) == Shape(g, g.types[b])
    ensures Shape(f, a) == Shape(g, b)
  {
    assert forall x :: x in f.kids[a] ==> x in Nodes(f) && Below(f, a, x);
    assert forall x :: x in g.kids[b] ==> x in Nodes(g) && Below(g, b, x);
    SameShapes(f, f.kids[a], f.rank[a], g, g.kids[b], g.rank[b]);
    hide Shapes, Below, ListedAt, Hanging;
  }

  lemma {:induction false} SameShapes(f: Forest, s: seq<Ast>, bound: nat, g: Forest, t: seq<Ast>, bound': nat)
    requires WellFormed(f) && WellFormed(g) && |s| == |t|
    requires forall x :: x in s ==> x in Nodes(f) && f.rank[x] < bound
    requires forall x :: x in t ==> x in Nodes(g) && g.rank[x] < bound'
    requires forall i :: 0 <= i < |s| ==> s[i] in Nodes(f) && t[i] in Nodes(g) && Shape(f, s[i]) == Shape(g, t[i])
    ensures Shapes(f, s, bound) == Shapes(g, t, bound')
  {
    hide Shape;
    if s != [] {
      SameShapes(f, s[1..], bound, g, t[1..], bound');
    }
  }
}
