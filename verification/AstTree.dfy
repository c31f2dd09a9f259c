/** Which pointers have to change when a node is put in or taken out, and that no others have to. */
module AstTree {
  import opened AstForest

  // --------------------------------------------- lists with an element put in or taken out

  lemma {:induction false} AfterInsert(s: seq<Ast>, i: nat, c: Ast)
    requires Distinct(s) && c !in s && i <= |s|
    ensures var t := s[..i] + [c] + s[i..];
            && After(t, c) == Get(s, i)
            && (i > 0 ==> After(t, s[i - 1]) == c)
            && forall x :: x in s && (i == 0 || x != s[i - 1]) ==> After(t, x) == After(s, x)
  {
    var t := s[..i] + [c] + s[i..];
    InsertDistinct(s, i, c);
    AfterAt(t, i);
    if i > 0 { AfterAt(t, i - 1); }
    forall x | x in s && (i == 0 || x != s[i - 1])
      ensures After(t, x) == After(s, x)
    {
      var k :| 0 <= k < |s| && s[k] == x;
      AfterAt(s, k);
      assert t[if k < i then k else k + 1] == x;
      AfterAt(t, if k < i then k else k + 1);
    }
  }

  lemma {:induction false} AfterRemove(s: seq<Ast>, i: nat)
    requires Distinct(s) && i < |s|
    ensures var t := s[..i] + s[i + 1..];
            && (i > 0 ==> After(t, s[i - 1]) == Get(s, i + 1))
            && forall x :: x in s && x != s[i] && (i == 0 || x != s[i - 1]) ==> After(t, x) == After(s, x)
  {
    var t := s[..i] + s[i + 1..];
    RemoveDistinct(s, i);
    if i > 0 { AfterAt(t, i - 1); }
    forall x | x in s && x != s[i] && (i == 0 || x != s[i - 1])
      ensures After(t, x) == After(s, x)
    {
      var k :| 0 <= k < |s| && s[k] == x;
      AfterAt(s, k);
      assert t[if k < i then k else k - 1] == x;
      AfterAt(t, if k < i then k else k - 1);
    }
  }

  /** The nodes outside `apart` hang where they did, and have the next node they had. */
  ghost predicate NextKept(f: Forest, g: Forest, apart: set<Ast>)
    requires WellFormed(f) && WellFormed(g) && Nodes(g) == Nodes(f)
  {
    forall n | n in Nodes(f) && n !in apart ::
      g.up[n] == f.up[n] && (f.up[n] != null ==> NextOf(g, n) == NextOf(f, n))
  }

  /** The node before place `i` of a list, if there is one. */
  ghost function Before(s: seq<Ast>, i: nat): set<Ast>
    requires i <= |s|
  {
    if i == 0 then {} else {s[i - 1]}
  }

  /** After an insertion only the new node and the one before it have a new next node. */
  lemma {:induction false} InsertNext(f: Forest, p: Ast, i: nat, c: Ast)
    requires WellFormed(f) && p in Nodes(f) && c in Nodes(f) && i <= |f.kids[p]|
    requires f.up[c] == null && !InTree(f, c, p)
    ensures var g, s := Insert(f, p, i, c), f.kids[p];
            && WellFormed(g) && Nodes(g) == Nodes(f)
            && NextOf(g, c) == Get(s, i)
            && (i > 0 ==> s[i - 1] in Nodes(f) && g.up[s[i - 1]] == p && NextOf(g, s[i - 1]) == c)
            && g.up[c] == p && NextKept(f, g, {c} + Before(s, i))
  {
    var g, s := Insert(f, p, i, c), f.kids[p];
    InsertWellFormed(f, p, i, c);
    assert ListedAt(f, p) && !Below(f, p, c);
    AfterInsert(s, i, c);
    if i > 0 { assert Below(f, p, s[i - 1]); }
    forall n | n in Nodes(f) && n !in {c} + Before(s, i)
      ensures g.up[n] == f.up[n] && (f.up[n] != null ==> NextOf(g, n) == NextOf(f, n))
    {
      if f.up[n] != null { assert Below(f, f.up[n], n); }
    }
  }

  lemma {:induction false} RemoveNext(f: Forest, p: Ast, i: nat)
    requires WellFormed(f) && p in Nodes(f) && i < |f.kids[p]|
    ensures var g, s := Remove(f, p, i), f.kids[p];
            && WellFormed(g) && Nodes(g) == Nodes(f) && s[i] in Nodes(f)
            && (i > 0 ==>
                  && s[i - 1] in Nodes(f) && g.up[s[i - 1]] == p && s[i - 1] != s[i]
                  && NextOf(g, s[i - 1]) == Get(s, i + 1))
            && g.up[s[i]] == null && NextKept(f, g, {s[i]} + Before(s, i))
  {
    var g, s := Remove(f, p, i), f.kids[p];
    RemoveWellFormed(f, p, i);
    assert ListedAt(f, p) && Below(f, p, s[i]);
    AfterRemove(s, i);
    if i > 0 { assert Below(f, p, s[i - 1]); }
    forall n | n in Nodes(f) && n !in {s[i]} + Before(s, i)
      ensures g.up[n] == f.up[n] && (f.up[n] != null ==> NextOf(g, n) == NextOf(f, n))
    {
      assert f.up[n] != null ==> Below(f, f.up[n], n);
    }
  }

  /** The types of nodes other than `p` may be set, and only `p` and `c` change. */
  lemma {:induction false} RetypeNext(f: Forest, p: Ast, c: Ast)
    requires WellFormed(f) && p in Nodes(f) && c in Nodes(f) && f.types[p] == null
    requires f.up[c] == null && !InTree(f, c, p)
    ensures var g := Retype(f, p, c);
            && WellFormed(g) && Nodes(g) == Nodes(f) && g.up[c] == p && NextOf(g, c) == null && NextKept(f, g, {c})
  {
    var g := Retype(f, p, c);
    RetypeWellFormed(f, p, c);
    forall n | n in Nodes(f) && n != c && f.up[n] != null
      ensures NextOf(g, n) == NextOf(f, n)
    {
      assert Below(f, f.up[n], n);
    }
  }

  lemma {:induction false} UntypeNext(f: Forest, p: Ast)
    requires WellFormed(f) && p in Nodes(f) && f.types[p] != null
    ensures var g, t := Untype(f, p), f.types[p];
            && WellFormed(g) && Nodes(g) == Nodes(f) && t in Nodes(f) && g.up[t] == null && NextKept(f, g, {t})
  {
    var g, t := Untype(f, p), f.types[p];
    UntypeWellFormed(f, p);
    assert ListedAt(f, p) && Below(f, p, t);
    forall n | n in Nodes(f) && n != t && f.up[n] != null
      ensures NextOf(g, n) == NextOf(f, n)
    {
      assert Below(f, f.up[n], n);
    }
  }

  // ------------------------------------------------ what stays linked while a few nodes change

  ghost predicate Downs(f: Forest, apart: set<Ast>)
    reads (Nodes(f) - apart)`child, (Nodes(f) - apart)`typ
    requires Total(f)
  {
    forall x | x in Nodes(f) && x !in apart :: DownAt(f, x)
  }

  ghost predicate Ups(f: Forest, apart: set<Ast>)
    reads (Nodes(f) - apart)`parent, (Nodes(f) - apart)`orphan, (Nodes(f) - apart)`sibling
    requires WellFormed(f)
  {
    forall x | x in Nodes(f) && x !in apart :: UpAt(f, x)
  }

  lemma {:induction false} Apart(f: Forest, downs: set<Ast>, ups: set<Ast>)
    requires WellFormed(f) && Linked(f, {})
    ensures Downs(f, downs) && Ups(f, ups)
  {
    hide Listed, Falling, Hanging, DownAt, UpAt;
    assert forall x | x in Nodes(f) :: LinkedAt(f, x, {});
  }

  lemma {:induction false} Together(f: Forest)
    requires WellFormed(f) && Downs(f, {}) && Ups(f, {})
    ensures Linked(f, {})
  {
    hide Listed, Falling, Hanging, DownAt, UpAt;
    forall x | x in Nodes(f)
      ensures LinkedAt(f, x, {})
    {
      assert DownAt(f, x) && UpAt(f, x);
    }
  }

  /** `p` points to the first child and to the type it has in the forest; so do all others already. */
  lemma {:induction false} DownsOf(f: Forest, g: Forest, p: Ast)
    requires Total(f) && Total(g) && Nodes(g) == Nodes(f) && p in Nodes(f) && Downs(f, {p}) && DownAt(g, p)
    requires forall n | n in Nodes(f) && n != p :: g.kids[n] == f.kids[n] && g.types[n] == f.types[n]
    ensures Downs(g, {})
  {
    forall n | n in Nodes(f)
      ensures DownAt(g, n)
    {
      if n != p {
        assert DownAt(f, n);
      }
    }
  }

  lemma {:induction false} UpsOf(f: Forest, g: Forest, apart: set<Ast>)
    requires WellFormed(f) && WellFormed(g) && Nodes(g) == Nodes(f) && Ups(f, apart)
    requires NextKept(f, g, apart) && forall n | n in Nodes(f) && n in apart :: UpAt(g, n)
    ensures Ups(g, {})
  {
    hide Listed, Falling, Hanging, NextOf;
    forall n | n in Nodes(f)
      ensures UpAt(g, n)
    {
      if n !in apart {
        assert UpAt(f, n);
      }
    }
  }

  /** The pointers that put `c` at place `i` among the children of `p`. */
  lemma {:induction false} InsertLinked(f: Forest, p: Ast, i: nat, c: Ast)
    requires WellFormed(f) && p in Nodes(f) && c in Nodes(f) && i <= |f.kids[p]|
    requires f.up[c] == null && !InTree(f, c, p)
    requires Downs(f, {p}) && p.typ == f.types[p] && p.child == (if i == 0 then c else f.kids[p][0])
    requires Ups(f, {c} + Before(f.kids[p], i)) && c.parent == p && !c.orphan && c.sibling == Get(f.kids[p], i)
    requires i > 0 ==> var b := f.kids[p][i - 1]; b.parent == p && !b.orphan && b.sibling == c
    ensures WellFormed(Insert(f, p, i, c)) && Linked(Insert(f, p, i, c), {})
  {
    hide InTree, Raised, Listed, Falling, Hanging, NextOf, NextKept, Downs, Ups, Linked;
    var g := Insert(f, p, i, c);
    InsertNext(f, p, i, c);
    DownsOf(f, g, p);
    UpsOf(f, g, {c} + Before(f.kids[p], i));
    Together(g);
  }

  /** The pointers that take the child at place `i` of `p` out. */
  lemma {:induction false} RemoveLinked(f: Forest, p: Ast, i: nat)
    requires WellFormed(f) && p in Nodes(f) && i < |f.kids[p]|
    requires Downs(f, {p}) && p.typ == f.types[p] && p.child == (if i == 0 then Get(f.kids[p], 1) else f.kids[p][0])
    requires var c := f.kids[p][i];
             Ups(f, {c} + Before(f.kids[p], i)) && (c.orphan || c.parent == null) && c.sibling == null
    requires i > 0 ==> var b := f.kids[p][i - 1]; b.parent == p && !b.orphan && b.sibling == Get(f.kids[p], i + 1)
    ensures WellFormed(Remove(f, p, i)) && Linked(Remove(f, p, i), {})
  {
    hide InTree, Listed, Falling, Hanging, NextOf, NextKept, Downs, Ups, Linked;
    var g := Remove(f, p, i);
    RemoveNext(f, p, i);
    DownsOf(f, g, p);
    UpsOf(f, g, {f.kids[p][i]} + Before(f.kids[p], i));
    Together(g);
  }
}
