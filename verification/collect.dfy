/**
  Gathering the declared parameters of a scope and all scopes below it
  (`collectParams` in package `mcfg`). The parameters a scope declared are
  kept beside the tree, in `locals`, keyed by the scope's handle.
 */
module Collect {
  import opened Basics
  import opened Params
  import opened Scope
  import opened ParamOrder

  type Locals = map<Handle, seq<Param>>

  /** A visitor that always descends: `Reached` with it is "in the subtree". */
  function Always(h: Handle): bool
  {
    true
  }

  /** `h` is `n` or lies below it. */
  predicate InSubtree<K, V>(t: Tree<K, V>, n: Handle, h: Handle)
  {
    Reached(t, Always, n, h)
  }

  /** The parameters declared at `h`, each paired with `h`'s path. */
  function LocalDecls<K, V>(t: Tree<K, V>, locals: Locals, h: Handle): (r: seq<Decl>)
    ensures forall d :: d in r <==> d.path == Path(t, h) && h in locals && d.param in locals[h]
  {
    var ps := if h in locals then locals[h] else [];
    var r := seq(|ps|, i requires 0 <= i < |ps| => Decl(Path(t, h), ps[i]));
    assert forall d: Decl :: d.path == Path(t, h) && d.param in ps ==> d in r by {
      forall d: Decl | d.path == Path(t, h) && d.param in ps
        ensures d in r
      {
        var i :| 0 <= i < |ps| && ps[i] == d.param;
        assert r[i] == d;
      }
    }
    r
  }

  /** The declarations of the handles in `hs`, one handle after the other. */
  function DeclsOf<K, V>(t: Tree<K, V>, locals: Locals, hs: seq<Handle>): seq<Decl>
  {
    if |hs| == 0 then [] else LocalDecls(t, locals, hs[0]) + DeclsOf(t, locals, hs[1..])
  }

  lemma {:induction false} DeclsOfAppend<K, V>(t: Tree<K, V>, locals: Locals, u: seq<Handle>, v: seq<Handle>)
    ensures DeclsOf(t, locals, u + v) == DeclsOf(t, locals, u) + DeclsOf(t, locals, v)
    decreases |u|
  {
    if |u| == 0 {
      assert u + v == v;
    } else {
      assert (u + v)[1..] == u[1..] + v;
      DeclsOfAppend(t, locals, u[1..], v);
    }
  }

  // ---------------------------------------------------------------------
  // The recursive walk

  lemma ChildrenAfterParent<K, V>(t: Tree<K, V>, p: Handle)
    requires Valid(t) && p < |t.nodes|
    ensures forall c :: c in ChildList(t, p) ==> p < c < |t.nodes|
  {
    forall c | c in ChildList(t, p)
      ensures p < c
    {
      assert c != 0;
      assert ParentLinked(t, c);
    }
  }

  /**
    The handles in the order `collectParams`'s inner `visit` enters them: a
    scope, then each child's subtree in turn. Go walks the children in map
    order; this walks them in creation order.
   */
  function Walk<K, V>(t: Tree<K, V>, n: Handle): seq<Handle>
    requires Valid(t) && n < |t.nodes|
    decreases |t.nodes| - n, 1
  {
    ChildrenAfterParent(t, n);
    [n] + WalkAll(t, n, ChildList(t, n))
  }

  function WalkAll<K, V>(t: Tree<K, V>, p: Handle, kids: seq<Handle>): seq<Handle>
    requires Valid(t) && p < |t.nodes|
    requires forall c :: c in kids ==> p < c < |t.nodes|
    decreases |t.nodes| - p, 0, |kids|
  {
    if |kids| == 0 then []
    else
      KidsAfterParent(p, kids);
      Walk(t, kids[0]) + WalkAll(t, p, kids[1..])
  }

  lemma KidsAfterParent(p: Handle, kids: seq<Handle>)
    requires |kids| > 0
    ensures kids[0] in kids
    ensures forall c :: c in kids[1..] ==> c in kids
  {
  }

  /** `visit` itself: the scope's own parameters, then each child's, recursively. */
  function Gather<K, V>(t: Tree<K, V>, locals: Locals, n: Handle): seq<Decl>
    requires Valid(t) && n < |t.nodes|
    decreases |t.nodes| - n, 1
  {
    ChildrenAfterParent(t, n);
    LocalDecls(t, locals, n) + GatherAll(t, locals, n, ChildList(t, n))
  }

  function GatherAll<K, V>(t: Tree<K, V>, locals: Locals, p: Handle, kids: seq<Handle>): seq<Decl>
    requires Valid(t) && p < |t.nodes|
    requires forall c :: c in kids ==> p < c < |t.nodes|
    decreases |t.nodes| - p, 0, |kids|
  {
    if |kids| == 0 then []
    else
      KidsAfterParent(p, kids);
      Gather(t, locals, kids[0]) + GatherAll(t, locals, p, kids[1..])
  }

  /** What the walk appends is each entered scope's parameters, in the order entered. */
  lemma {:induction false} GatherFollowsWalk<K, V>(t: Tree<K, V>, locals: Locals, n: Handle)
    requires Valid(t) && n < |t.nodes|
    ensures Gather(t, locals, n) == DeclsOf(t, locals, Walk(t, n))
    decreases |t.nodes| - n, 1
  {
    ChildrenAfterParent(t, n);
    var kids := ChildList(t, n);
    GatherAllFollowsWalk(t, locals, n, kids);
    DeclsOfAppend(t, locals, [n], WalkAll(t, n, kids));
    assert DeclsOf(t, locals, [n]) == LocalDecls(t, locals, n) by {
      assert [n][1..] == [];
    }
  }

  lemma {:induction false} GatherAllFollowsWalk<K, V>(t: Tree<K, V>, locals: Locals, p: Handle, kids: seq<Handle>)
    requires Valid(t) && p < |t.nodes|
    requires forall c :: c in kids ==> p < c < |t.nodes|
    ensures GatherAll(t, locals, p, kids) == DeclsOf(t, locals, WalkAll(t, p, kids))
    decreases |t.nodes| - p, 0, |kids|
  {
    if |kids| > 0 {
      KidsAfterParent(p, kids);
      GatherFollowsWalk(t, locals, kids[0]);
      GatherAllFollowsWalk(t, locals, p, kids[1..]);
      DeclsOfAppend(t, locals, Walk(t, kids[0]), WalkAll(t, p, kids[1..]));
    }
  }

  // ---------------------------------------------------------------------
  // The walk enters every scope of the subtree exactly once

  lemma {:induction false} SubtreeAfterTop<K, V>(t: Tree<K, V>, n: Handle, h: Handle)
    requires Valid(t) && InSubtree(t, n, h)
    ensures n <= h
    decreases h
  {
    if h != n {
      SubtreeAfterTop(t, n, t.nodes[h].parent.value);
    }
  }

  /** A scope below a child of `p` is below `p`. */
  lemma {:induction false} SubtreeOfChild<K, V>(t: Tree<K, V>, p: Handle, c: Handle, h: Handle)
    requires Valid(t) && c < |t.nodes| && t.nodes[c].parent == Some(p)
    requires InSubtree(t, c, h)
    ensures InSubtree(t, p, h)
    decreases h
  {
    if h == c {
      assert c != 0;
      assert ParentLinked(t, c);
    } else {
      SubtreeOfChild(t, p, c, t.nodes[h].parent.value);
    }
  }

  /** A scope strictly below `n` is below exactly one child of `n`. */
  lemma {:induction false} BelowSomeChild<K, V>(t: Tree<K, V>, n: Handle, h: Handle) returns (c: Handle)
    requires Valid(t) && InSubtree(t, n, h) && h != n
    ensures c < |t.nodes| && t.nodes[c].parent == Some(n) && InSubtree(t, c, h)
    decreases h
  {
    var p := t.nodes[h].parent.value;
    if p == n {
      c := h;
    } else {
      c := BelowSomeChild(t, n, p);
    }
  }

  /** Two scopes at the same depth that both have `h` below them are the same scope. */
  lemma {:induction false} AncestorAtDepth<K, V>(t: Tree<K, V>, a: Handle, b: Handle, h: Handle)
    requires Valid(t) && InSubtree(t, a, h) && InSubtree(t, b, h)
    requires Depth(t, a) == Depth(t, b)
    ensures a == b
    decreases h
  {
    ReachedIsBelow(t, Always, a, h);
    ReachedIsBelow(t, Always, b, h);
    if h != a {
      AncestorAtDepth(t, a, b, t.nodes[h].parent.value);
    }
  }

  /** Siblings have disjoint subtrees. */
  lemma SiblingsDisjoint<K, V>(t: Tree<K, V>, p: Handle, c1: Handle, c2: Handle, h: Handle)
    requires Valid(t) && c1 < |t.nodes| && c2 < |t.nodes|
    requires t.nodes[c1].parent == Some(p) && t.nodes[c2].parent == Some(p)
    requires InSubtree(t, c1, h) && InSubtree(t, c2, h)
    ensures c1 == c2
  {
    assert c1 != 0 && c2 != 0;
    DepthOfChild(t, c1);
    DepthOfChild(t, c2);
    AncestorAtDepth(t, c1, c2, h);
  }

  lemma {:induction false} WalkCovers<K, V>(t: Tree<K, V>, n: Handle)
    requires Valid(t) && n < |t.nodes|
    ensures Distinct(Walk(t, n))
    ensures forall h :: h in Walk(t, n) <==> InSubtree(t, n, h)
    decreases |t.nodes| - n, 1
  {
    ChildrenAfterParent(t, n);
    var kids := ChildList(t, n);
    WalkAllCovers(t, n, kids);
    var w := Walk(t, n);
    assert w == [n] + WalkAll(t, n, kids);
    forall h
      ensures h in w <==> InSubtree(t, n, h)
    {
      if h in WalkAll(t, n, kids) {
        var c :| c in kids && InSubtree(t, c, h);
        SubtreeOfChild(t, n, c, h);
      }
      if InSubtree(t, n, h) && h != n {
        var c := BelowSomeChild(t, n, h);
        assert c in kids;
      }
    }
    forall i, j | 0 <= i < j < |w|
      ensures w[i] != w[j]
    {
      if i == 0 {
        assert w[j] in WalkAll(t, n, kids);
        var c :| c in kids && InSubtree(t, c, w[j]);
        SubtreeAfterTop(t, c, w[j]);
      } else {
        assert w[i] == WalkAll(t, n, kids)[i - 1] && w[j] == WalkAll(t, n, kids)[j - 1];
      }
    }
  }

  lemma {:induction false} WalkAllCovers<K, V>(t: Tree<K, V>, p: Handle, kids: seq<Handle>)
    requires Valid(t) && p < |t.nodes|
    requires forall c :: c in kids ==> p < c < |t.nodes| && t.nodes[c].parent == Some(p)
    requires Distinct(kids)
    ensures Distinct(WalkAll(t, p, kids))
    ensures forall h :: h in WalkAll(t, p, kids) <==> exists c :: c in kids && InSubtree(t, c, h)
    decreases |t.nodes| - p, 0, |kids|
  {
    if |kids| > 0 {
      var c0 := kids[0];
      var rest := kids[1..];
      KidsAfterParent(p, kids);
      WalkCovers(t, c0);
      WalkAllCovers(t, p, rest);
      var u, v := Walk(t, c0), WalkAll(t, p, rest);
      assert kids == [c0] + rest;
      forall h
        ensures h in u + v <==> exists c :: c in kids && InSubtree(t, c, h)
      {
        if InSubtree(t, c0, h) {
          assert h in u;
        }
      }
      forall i, j | 0 <= i < |u| && 0 <= j < |v|
        ensures u[i] != v[j]
      {
        assert u[i] in u && v[j] in v;
        var c :| c in rest && InSubtree(t, c, v[j]);
        assert c != c0 by {
          var k :| 0 <= k < |rest| && rest[k] == c;
          assert kids[k + 1] == c;
        }
        if u[i] == v[j] {
          SiblingsDisjoint(t, p, c0, c, v[j]);
        }
      }
      DistinctAppend(u, v);
    }
  }

  lemma DistinctAppend(u: seq<Handle>, v: seq<Handle>)
    requires Distinct(u) && Distinct(v)
    requires forall i, j :: 0 <= i < |u| && 0 <= j < |v| ==> u[i] != v[j]
    ensures Distinct(u + v)
  {
    forall i, j | 0 <= i < j < |u + v|
      ensures (u + v)[i] != (u + v)[j]
    {
      if j >= |u| && i < |u| {
        assert (u + v)[j] == v[j - |u|];
      }
    }
  }

  // ---------------------------------------------------------------------
  // An order-free description of what is collected

  /** The handles `i..` that lie below `n`, in increasing order. */
  function SubtreeFrom<K, V>(t: Tree<K, V>, n: Handle, i: nat): (r: seq<Handle>)
    ensures Distinct(r)
    ensures forall h :: h in r <==> i <= h && InSubtree(t, n, h)
    decreases |t.nodes| - i
  {
    if i >= |t.nodes| then []
    else
      var rest := SubtreeFrom(t, n, i + 1);
      if InSubtree(t, n, i) then
        assert i !in rest;
        [i] + rest
      else rest
  }

  /**
    Every parameter declared in the subtree of `n`, listed handle by handle
    in creation order: the reference against which `collectParams` is
    judged.
   */
  function DeclaredBelow<K, V>(t: Tree<K, V>, locals: Locals, n: Handle): seq<Decl>
  {
    DeclsOf(t, locals, SubtreeFrom(t, n, 0))
  }

  /** Two lists of distinct handles with the same members list the same declarations, up to order. */
  lemma SameHandlesSameDecls<K, V>(t: Tree<K, V>, locals: Locals, a: seq<Handle>, b: seq<Handle>)
    requires Distinct(a) && Distinct(b)
    requires forall h :: h in a <==> h in b
    ensures multiset(DeclsOf(t, locals, a)) == multiset(DeclsOf(t, locals, b))
  {
    DistinctMultiset(a, b);
    PermutedDecls(t, locals, a, b);
  }

  lemma DistinctMultiset(a: seq<Handle>, b: seq<Handle>)
    requires Distinct(a) && Distinct(b)
    requires forall h :: h in a <==> h in b
    ensures multiset(a) == multiset(b)
  {
    forall h
      ensures multiset(a)[h] == multiset(b)[h]
    {
      DistinctCount(a, h);
      DistinctCount(b, h);
    }
  }

  lemma {:induction false} DistinctCount(a: seq<Handle>, h: Handle)
    requires Distinct(a)
    ensures multiset(a)[h] == if h in a then 1 else 0
    decreases |a|
  {
    if |a| > 0 {
      assert a == [a[0]] + a[1..];
      DistinctCount(a[1..], h);
      assert a[0] !in a[1..] by {
        forall k | 0 <= k < |a| - 1
          ensures a[1..][k] != a[0]
        {
          assert a[k + 1] != a[0];
        }
      }
    }
  }

  lemma {:induction false} PermutedDecls<K, V>(t: Tree<K, V>, locals: Locals, a: seq<Handle>, b: seq<Handle>)
    requires multiset(a) == multiset(b)
    ensures multiset(DeclsOf(t, locals, a)) == multiset(DeclsOf(t, locals, b))
    decreases |a|
  {
    assert |a| == |multiset(a)| == |multiset(b)| == |b|;
    if |a| > 0 {
      var x := a[0];
      assert x in multiset(b);
      var i :| 0 <= i < |b| && b[i] == x;
      var b' := b[..i] + b[i + 1..];
      RemoveAt(b, i);
      assert multiset(a[1..]) == multiset(b') by {
        assert a == [x] + a[1..];
      }
      PermutedDecls(t, locals, a[1..], b');
      DeclsOfRemoveAt(t, locals, b, i);
    }
  }

  lemma RemoveAt(b: seq<Handle>, i: nat)
    requires i < |b|
    ensures multiset(b[..i] + b[i + 1..]) == multiset(b) - multiset{b[i]}
  {
    assert b == b[..i] + [b[i]] + b[i + 1..];
  }

  /** The declarations of one handle of a list, and those of the others. */
  lemma DeclsOfRemoveAt<K, V>(t: Tree<K, V>, locals: Locals, b: seq<Handle>, i: nat)
    requires i < |b|
    ensures multiset(DeclsOf(t, locals, b))
      == multiset(LocalDecls(t, locals, b[i])) + multiset(DeclsOf(t, locals, b[..i] + b[i + 1..]))
  {
    var x := b[i];
    assert b == b[..i] + ([x] + b[i + 1..]);
    var pre, post := DeclsOf(t, locals, b[..i]), DeclsOf(t, locals, b[i + 1..]);
    var mid := LocalDecls(t, locals, x);
    DeclsOfAppend(t, locals, b[..i], [x] + b[i + 1..]);
    DeclsOfAppend(t, locals, [x], b[i + 1..]);
    DeclsOfAppend(t, locals, b[..i], b[i + 1..]);
    assert DeclsOf(t, locals, [x]) == mid by {
      assert [x][1..] == [];
    }
    assert DeclsOf(t, locals, b) == pre + (mid + post);
  }

  /**
    `collectParams`: the parameters of the subtree of `n`, sorted. They are
    exactly the parameters declared at `n` and at every scope below it,
    each as often as it was declared (a permutation of `DeclaredBelow`),
    in `sortParams` order.
   */
  function CollectParams<K, V>(t: Tree<K, V>, locals: Locals, n: Handle): (r: seq<Decl>)
    requires Valid(t) && n < |t.nodes|
    ensures Sorted(r)
    ensures multiset(r) == multiset(DeclaredBelow(t, locals, n))
  {
    GatherFollowsWalk(t, locals, n);
    WalkCovers(t, n);
    SameHandlesSameDecls(t, locals, Walk(t, n), SubtreeFrom(t, n, 0));
    SortParams(Gather(t, locals, n))
  }

  /** Membership in plain words: a declaration is collected exactly when some scope of the subtree declared it. */
  lemma CollectedMembers<K, V>(t: Tree<K, V>, locals: Locals, n: Handle, d: Decl)
    requires Valid(t) && n < |t.nodes|
    ensures d in CollectParams(t, locals, n) <==>
      exists h :: InSubtree(t, n, h) && d in LocalDecls(t, locals, h)
  {
    var r := CollectParams(t, locals, n);
    var hs := SubtreeFrom(t, n, 0);
    assert d in r <==> d in multiset(DeclaredBelow(t, locals, n));
    DeclsOfMembers(t, locals, hs, d);
  }

  lemma {:induction false} DeclsOfMembers<K, V>(t: Tree<K, V>, locals: Locals, hs: seq<Handle>, d: Decl)
    ensures d in DeclsOf(t, locals, hs) <==> exists h :: h in hs && d in LocalDecls(t, locals, h)
    decreases |hs|
  {
    if |hs| > 0 {
      DeclsOfMembers(t, locals, hs[1..], d);
      assert hs == [hs[0]] + hs[1..];
    }
  }
}
