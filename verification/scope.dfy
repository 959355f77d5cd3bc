/**
  The scope tree and its per-node value store (package `mctx`).

  Nodes live in an arena and are named by their index, which plays the part
  of Go's object identity: two nodes with the same name under different
  parents are different handles. The root is handle 0. A child is always
  appended after its parent, so every parent handle is smaller than the
  handles of its children; that is what makes the recursive queries below
  terminate.
 */
module Scope {
  import opened Basics

  type Handle = nat

  /** One scope node: its parent, its name, its named children and its store. */
  datatype Node<K, V> = Node(
    parent: Option<Handle>,
    name: string,
    children: map<string, Handle>,
    values: map<K, V>)

  datatype Tree<K, V> = Tree(nodes: seq<Node<K, V>>)

  const RootHandle: Handle := 0

  /** Node `i` points to an earlier parent, which lists it under its name. */
  predicate ParentLinked<K, V>(t: Tree<K, V>, i: Handle)
    requires i < |t.nodes|
  {
    var n := t.nodes[i];
    && n.parent.Some?
    && n.parent.value < i
    && n.name in t.nodes[n.parent.value].children
    && t.nodes[n.parent.value].children[n.name] == i
  }

  /** The child registered under `x` at node `i` points back to `i` and carries the name `x`. */
  predicate ChildLinked<K, V>(t: Tree<K, V>, i: Handle, x: string)
    requires i < |t.nodes| && x in t.nodes[i].children
  {
    var c := t.nodes[i].children[x];
    && 0 < c < |t.nodes|
    && t.nodes[c].parent == Some(i)
    && t.nodes[c].name == x
  }

  /** The shape every tree built by `New` and `ChildOf` has. */
  predicate Valid<K, V>(t: Tree<K, V>)
  {
    && |t.nodes| > 0
    && t.nodes[0].parent.None?
    && (forall i :: 0 < i < |t.nodes| ==> ParentLinked(t, i))
    && (forall i, x :: 0 <= i < |t.nodes| && x in t.nodes[i].children ==> ChildLinked(t, i, x))
  }

  /** `New`: a tree holding only the root. */
  function New<K(!new), V>(): (t: Tree<K, V>)
    ensures Valid(t) && |t.nodes| == 1
    ensures Path(t, RootHandle) == []
    ensures Parent(t, RootHandle) == None
    ensures Children(t, RootHandle) == map[]
    ensures forall k :: MutableValue(t, RootHandle, k) == None
  {
    Tree([Node(None, "", map[], map[])])
  }

  /** `Path`: the names from the root down to `n`; empty for the root. */
  function Path<K, V>(t: Tree<K, V>, n: Handle): seq<string>
    decreases n
  {
    if n >= |t.nodes| then []
    else match t.nodes[n].parent
      case None => []
      case Some(p) => if p < n then Path(t, p) + [t.nodes[n].name] else []
  }

  /** How many names `Path` has. */
  function Depth<K, V>(t: Tree<K, V>, n: Handle): nat
  {
    |Path(t, n)|
  }

  /** `Parent`: nil for the root. */
  function Parent<K, V>(t: Tree<K, V>, n: Handle): Option<Handle>
  {
    if n < |t.nodes| then t.nodes[n].parent else None
  }

  /** `Children`: the name-to-node map of `n`'s direct children. */
  function Children<K, V>(t: Tree<K, V>, n: Handle): map<string, Handle>
  {
    if n < |t.nodes| then t.nodes[n].children else map[]
  }

  /** `Root`: follow parent links until there are none. */
  function Root<K, V>(t: Tree<K, V>, n: Handle): Handle
    decreases n
  {
    if n >= |t.nodes| then n
    else match t.nodes[n].parent
      case None => n
      case Some(p) => if p < n then Root(t, p) else n
  }

  /**
    `ChildOf`: a new, empty node named `x` under `n`; returns the grown tree
    and the new handle. Earlier nodes keep their path, parent and store; only
    `n`'s children map gains the entry for `x`.
   */
  function ChildOf<K(!new), V>(t: Tree<K, V>, n: Handle, x: string): (r: (Tree<K, V>, Handle))
    requires Valid(t) && n < |t.nodes|
    requires x !in Children(t, n)
    ensures Valid(r.0)
    ensures r.1 == |t.nodes| && |r.0.nodes| == |t.nodes| + 1
    ensures Path(r.0, r.1) == Path(t, n) + [x]
    ensures Parent(r.0, r.1) == Some(n)
    ensures Children(r.0, r.1) == map[]
    ensures Children(r.0, n) == Children(t, n)[x := r.1]
    ensures forall k :: MutableValue(r.0, r.1, k) == None
    ensures forall m: Handle :: m < |t.nodes| ==> Path(r.0, m) == Path(t, m)
    ensures forall m: Handle :: m < |t.nodes| ==> Parent(r.0, m) == Parent(t, m)
    ensures forall m: Handle :: m < |t.nodes| && m != n ==> Children(r.0, m) == Children(t, m)
    ensures forall m: Handle, k :: m < |t.nodes| ==> MutableValue(r.0, m, k) == MutableValue(t, m, k)
  {
    var c := |t.nodes|;
    var pn := t.nodes[n];
    var nodes' := t.nodes[n := pn.(children := pn.children[x := c])] + [Node(Some(n), x, map[], map[])];
    var t' := Tree(nodes');
    assert Valid(t') by {
      forall i | 0 < i < |t'.nodes|
        ensures ParentLinked(t', i)
      {
        if i < c {
          assert ParentLinked(t, i);
        }
      }
      forall i, y | 0 <= i < |t'.nodes| && y in t'.nodes[i].children
        ensures ChildLinked(t', i, y)
      {
        if i != n || y != x {
          assert ChildLinked(t, i, y);
        }
      }
    }
    PathsKept(t, t', c);
    (t', c)
  }

  /** Replacing the children maps or stores of nodes never changes a path. */
  lemma {:induction false} PathsKept<K, V>(t: Tree<K, V>, t': Tree<K, V>, bound: nat)
    requires bound <= |t.nodes| && bound <= |t'.nodes|
    requires forall m: Handle :: m < bound ==> t'.nodes[m].parent == t.nodes[m].parent && t'.nodes[m].name == t.nodes[m].name
    ensures forall m: Handle :: m < bound ==> Path(t', m) == Path(t, m)
  {
    forall m: Handle | m < bound
      ensures Path(t', m) == Path(t, m)
    {
      PathKept(t, t', bound, m);
    }
  }

  lemma {:induction false} PathKept<K, V>(t: Tree<K, V>, t': Tree<K, V>, bound: nat, m: Handle)
    requires bound <= |t.nodes| && bound <= |t'.nodes| && m < bound
    requires forall j: Handle :: j < bound ==> t'.nodes[j].parent == t.nodes[j].parent && t'.nodes[j].name == t.nodes[j].name
    ensures Path(t', m) == Path(t, m)
    decreases m
  {
    match t.nodes[m].parent
    case None =>
    case Some(p) =>
      if p < m {
        PathKept(t, t', bound, p);
      }
  }

  /** The root has depth zero and every child is one deeper than its parent. */
  lemma DepthOfChild<K, V>(t: Tree<K, V>, c: Handle)
    requires Valid(t) && 0 < c < |t.nodes|
    ensures t.nodes[c].parent.Some?
    ensures Depth(t, c) == Depth(t, t.nodes[c].parent.value) + 1
  {
    assert ParentLinked(t, c);
  }

  /** Only the root has depth zero. */
  lemma PositiveDepth<K, V>(t: Tree<K, V>, n: Handle)
    requires Valid(t) && n < |t.nodes|
    ensures n > 0 <==> Depth(t, n) > 0
  {
    if n > 0 {
      DepthOfChild(t, n);
    }
  }

  /** A node is never deeper than its handle. */
  lemma {:induction false} DepthBound<K, V>(t: Tree<K, V>, n: Handle)
    requires Valid(t) && n < |t.nodes|
    ensures Depth(t, n) <= n
    decreases n
  {
    if n > 0 {
      assert ParentLinked(t, n);
      DepthBound(t, t.nodes[n].parent.value);
    }
  }

  /** Every node of a tree has the tree's root as its `Root`. */
  lemma {:induction false} RootOfEveryNode<K, V>(t: Tree<K, V>, n: Handle)
    requires Valid(t) && n < |t.nodes|
    ensures Root(t, n) == RootHandle
    ensures Parent(t, Root(t, n)) == None
    decreases n
  {
    if n > 0 {
      assert ParentLinked(t, n);
      RootOfEveryNode(t, t.nodes[n].parent.value);
    }
  }

  /**
    `Children` and `Parent` describe the same links: `c` is listed under
    name `x` at `n` exactly when `n` is the parent of `c` and `x` its name.
   */
  lemma ChildrenMatchParents<K, V>(t: Tree<K, V>, n: Handle, c: Handle, x: string)
    requires Valid(t) && n < |t.nodes| && c < |t.nodes|
    ensures (x in Children(t, n) && Children(t, n)[x] == c)
        <==> (Parent(t, c) == Some(n) && t.nodes[c].name == x)
  {
    if x in Children(t, n) && Children(t, n)[x] == c {
      assert ChildLinked(t, n, x);
    }
    if Parent(t, c) == Some(n) {
      assert c != 0;
      assert ParentLinked(t, c);
    }
  }

  /**
    Since sibling names are unique, a path names at most one node: the path
    is as good an identity as the handle.
   */
  lemma {:induction false} PathIdentifies<K, V>(t: Tree<K, V>, a: Handle, b: Handle)
    requires Valid(t) && a < |t.nodes| && b < |t.nodes|
    requires Path(t, a) == Path(t, b)
    ensures a == b
    decreases a + b
  {
    PositiveDepth(t, a);
    PositiveDepth(t, b);
    if a > 0 && b > 0 {
      assert ParentLinked(t, a) && ParentLinked(t, b);
      var pa, pb := t.nodes[a].parent.value, t.nodes[b].parent.value;
      assert Path(t, a) == Path(t, pa) + [t.nodes[a].name];
      assert Path(t, b) == Path(t, pb) + [t.nodes[b].name];
      assert Path(t, pa) == Path(t, a)[..|Path(t, a)| - 1];
      assert Path(t, pb) == Path(t, b)[..|Path(t, b)| - 1];
      PathIdentifies(t, pa, pb);
    }
  }

  // ---------------------------------------------------------------------
  // Breadth-first visit

  /** The direct children of `p` among handles `i..`, in creation order. */
  function ChildrenFrom<K, V>(t: Tree<K, V>, p: Handle, i: nat): (r: seq<Handle>)
    ensures forall c: Handle :: c in r <==> i <= c < |t.nodes| && t.nodes[c].parent == Some(p)
    ensures forall j, k :: 0 <= j < k < |r| ==> r[j] < r[k]
    decreases |t.nodes| - i
  {
    if i >= |t.nodes| then []
    else
      var rest := ChildrenFrom(t, p, i + 1);
      assert forall j :: 0 <= j < |rest| ==> i < rest[j] by {
        forall j | 0 <= j < |rest|
          ensures i < rest[j]
        {
          assert rest[j] in rest;
        }
      }
      if t.nodes[i].parent == Some(p) then [i] + rest else rest
  }

  /** The children of `p` as a sequence; any order would do, this is creation order. */
  function ChildList<K, V>(t: Tree<K, V>, p: Handle): (r: seq<Handle>)
    ensures forall c: Handle :: c in r <==> c < |t.nodes| && t.nodes[c].parent == Some(p)
    ensures forall j, k :: 0 <= j < k < |r| ==> r[j] != r[k]
  {
    ChildrenFrom(t, p, 0)
  }

  /**
    The nodes a visit from `s` reaches: `s` itself, and every child of a
    reached node on which `visit` answered true.
   */
  predicate Reached<K, V>(t: Tree<K, V>, visit: Handle -> bool, s: Handle, n: Handle)
    decreases n
  {
    && n < |t.nodes|
    && (n == s
        || (&& t.nodes[n].parent.Some?
            && t.nodes[n].parent.value < n
            && Reached(t, visit, s, t.nodes[n].parent.value)
            && visit(t.nodes[n].parent.value)))
  }

  lemma {:induction false} ReachedIsBelow<K, V>(t: Tree<K, V>, visit: Handle -> bool, s: Handle, n: Handle)
    requires Valid(t) && Reached(t, visit, s, n)
    ensures Depth(t, s) <= Depth(t, n)
    ensures n != s ==> Depth(t, s) < Depth(t, n)
    decreases n
  {
    if n != s {
      var p := t.nodes[n].parent.value;
      ReachedIsBelow(t, visit, s, p);
      DepthOfChild(t, n);
    }
  }

  predicate Distinct(s: seq<Handle>)
  {
    forall i, j :: 0 <= i < j < |s| ==> s[i] != s[j]
  }

  /** The children of those nodes of `level` on which `visit` answers true. */
  method NextLevel<K, V>(t: Tree<K, V>, level: seq<Handle>, visit: Handle -> bool) returns (next: seq<Handle>)
    requires Distinct(level)
    ensures Distinct(next)
    ensures forall c: Handle :: c in next <==>
      c < |t.nodes| && t.nodes[c].parent.Some? && t.nodes[c].parent.value in level && visit(t.nodes[c].parent.value)
  {
    next := [];
    var i := 0;
    while i < |level|
      invariant 0 <= i <= |level|
      invariant Distinct(next)
      invariant forall c: Handle :: c in next <==>
        c < |t.nodes| && t.nodes[c].parent.Some? && t.nodes[c].parent.value in level[..i] && visit(t.nodes[c].parent.value)
    {
      if visit(level[i]) {
        var kids := ChildList(t, level[i]);
        forall a, b | 0 <= a < |next| && 0 <= b < |kids|
          ensures next[a] != kids[b]
        {
          assert next[a] in next;
          assert t.nodes[next[a]].parent.value in level[..i];
          assert level[i] !in level[..i];
        }
        next := next + kids;
      }
      assert level[..i + 1] == level[..i] + [level[i]];
      i := i + 1;
    }
    assert level[..i] == level;
  }

  /** One level down: the next level holds exactly the reached nodes one deeper. */
  lemma NextLevelReached<K, V>(t: Tree<K, V>, visit: Handle -> bool, s: Handle, d: nat, level: seq<Handle>, next: seq<Handle>)
    requires Valid(t) && Depth(t, s) <= d
    requires forall n :: n in level <==> Reached(t, visit, s, n) && Depth(t, n) == d
    requires forall c: Handle :: c in next <==>
      c < |t.nodes| && t.nodes[c].parent.Some? && t.nodes[c].parent.value in level && visit(t.nodes[c].parent.value)
    ensures forall c :: c in next <==> Reached(t, visit, s, c) && Depth(t, c) == d + 1
  {
    forall c: Handle
      ensures c in next <==> Reached(t, visit, s, c) && Depth(t, c) == d + 1
    {
      if c in next {
        DepthOfChild(t, c);
      }
      if Reached(t, visit, s, c) && Depth(t, c) == d + 1 {
        ReachedIsBelow(t, visit, s, c);
        DepthOfChild(t, c);
      }
    }
  }

  /**
    `BreadthFirstVisit`: calls `visit` on the nodes below `s` level by level
    and returns them in the order visited. A node whose visit answers false
    is still visited, but its children are not. Siblings come in some order;
    callers may rely only on the set visited and on the level order.
   */
  method BreadthFirstVisit<K, V>(t: Tree<K, V>, s: Handle, visit: Handle -> bool) returns (order: seq<Handle>)
    requires Valid(t) && s < |t.nodes|
    ensures |order| > 0 && order[0] == s
    ensures Distinct(order)
    ensures forall n :: n in order <==> Reached(t, visit, s, n)
    ensures forall i, j :: 0 <= i < j < |order| ==> Depth(t, order[i]) <= Depth(t, order[j])
  {
    order := [];
    var level := [s];
    var d := Depth(t, s);
    DepthBound(t, s);
    forall n | Reached(t, visit, s, n)
      ensures n in level <==> Depth(t, n) == d
      ensures Depth(t, n) >= d
    {
      ReachedIsBelow(t, visit, s, n);
    }
    while |level| > 0
      invariant Depth(t, s) <= d
      invariant Distinct(level) && Distinct(order)
      invariant forall n :: n in level <==> Reached(t, visit, s, n) && Depth(t, n) == d
      invariant forall n :: n in order <==> Reached(t, visit, s, n) && Depth(t, n) < d
      invariant forall i, j :: 0 <= i < j < |order| ==> Depth(t, order[i]) <= Depth(t, order[j])
      invariant d == Depth(t, s) ==> order == [] && level == [s]
      invariant d > Depth(t, s) ==> |order| > 0 && order[0] == s
      invariant |level| > 0 ==> d < |t.nodes|
      decreases |t.nodes| - d
    {
      assert forall i :: 0 <= i < |level| ==> Depth(t, level[i]) == d;
      order := order + level;
      var next := NextLevel(t, level, visit);
      NextLevelReached(t, visit, s, d, level, next);
      level := next;
      d := d + 1;
      if |level| > 0 {
        assert level[0] in level;
        DepthBound(t, level[0]);
      }
    }
    forall n | Reached(t, visit, s, n)
      ensures n in order
    {
      if Depth(t, n) >= d {
        ReachedDeeper(t, visit, s, n, d);
      }
    }
  }

  /**
    If no reached node sits at depth `d`, none sits deeper either: the
    levels of a visit have no gaps.
   */
  lemma {:induction false} ReachedDeeper<K, V>(t: Tree<K, V>, visit: Handle -> bool, s: Handle, n: Handle, d: nat)
    requires Valid(t) && Reached(t, visit, s, n) && Depth(t, s) <= d <= Depth(t, n)
    ensures exists m :: Reached(t, visit, s, m) && Depth(t, m) == d
    decreases n
  {
    if Depth(t, n) > d {
      var p := t.nodes[n].parent.value;
      DepthOfChild(t, n);
      ReachedDeeper(t, visit, s, p, d);
    }
  }

  /**
    With a visitor that answers true only up to depth one, the nodes it
    answers true on are the root and the root's children.
   */
  lemma ShallowVisit<K, V>(t: Tree<K, V>, n: Handle)
    requires Valid(t) && n < |t.nodes|
    ensures (Reached(t, (m: Handle) => Depth(t, m) <= 1, RootHandle, n) && Depth(t, n) <= 1)
        <==> (n == RootHandle || n in Children(t, RootHandle).Values)
  {
    var visit := (m: Handle) => Depth(t, m) <= 1;
    if n == RootHandle || n in Children(t, RootHandle).Values {
      if n != RootHandle {
        var x :| x in Children(t, RootHandle) && Children(t, RootHandle)[x] == n;
        ChildrenMatchParents(t, RootHandle, n, x);
        DepthOfChild(t, n);
        assert Reached(t, visit, RootHandle, RootHandle);
      }
    }
    if Reached(t, visit, RootHandle, n) && Depth(t, n) <= 1 && n != RootHandle {
      DepthOfChild(t, n);
      var p := t.nodes[n].parent.value;
      PositiveDepth(t, p);
      ChildrenMatchParents(t, p, n, t.nodes[n].name);
      assert Children(t, RootHandle)[t.nodes[n].name] == n;
    }
  }

  // ---------------------------------------------------------------------
  // Per-node mutable store

  /** `MutableValue`: the value stored under `key` at node `n`, nil when none. */
  function MutableValue<K, V>(t: Tree<K, V>, n: Handle, key: K): Option<V>
  {
    if n < |t.nodes| && key in t.nodes[n].values then Some(t.nodes[n].values[key]) else None
  }

  /**
    `GetSetMutableValue`: when `onlyIfNil` holds and a value is stored under
    `key`, that value is returned and nothing changes. Otherwise `fn` is
    applied to the stored value (nil when none) and the result is stored and
    returned. No other key and no other node is touched.
   */
  function GetSetMutableValue<K(==,!new), V>(t: Tree<K, V>, n: Handle, onlyIfNil: bool, key: K, fn: Option<V> -> V): (r: (Tree<K, V>, V))
    requires n < |t.nodes|
    ensures var cur := MutableValue(t, n, key);
      if onlyIfNil && cur.Some? then r.0 == t && r.1 == cur.value
      else r.1 == fn(cur) && MutableValue(r.0, n, key) == Some(r.1)
    ensures forall m: Handle, k :: (m, k) != (n, key) ==> MutableValue(r.0, m, k) == MutableValue(t, m, k)
    ensures |r.0.nodes| == |t.nodes|
    ensures forall m: Handle :: m < |t.nodes| ==>
      && r.0.nodes[m].parent == t.nodes[m].parent
      && r.0.nodes[m].name == t.nodes[m].name
      && r.0.nodes[m].children == t.nodes[m].children
  {
    var node := t.nodes[n];
    if onlyIfNil && key in node.values then (t, node.values[key])
    else
      var v := fn(MutableValue(t, n, key));
      (Tree(t.nodes[n := node.(values := node.values[key := v])]), v)
  }

  /** The counting transform: nil becomes 1, any count goes up by one. */
  function Increment(v: Option<int>): int
  {
    if v.None? then 1 else v.value + 1
  }

  /** `count` calls of `GetSetMutableValue(n, false, key, Increment)` in a row. */
  function IncrementTimes<K(==,!new)>(t: Tree<K, int>, n: Handle, key: K, count: nat): Tree<K, int>
    requires n < |t.nodes|
    ensures |IncrementTimes(t, n, key, count).nodes| == |t.nodes|
  {
    if count == 0 then t
    else GetSetMutableValue(IncrementTimes(t, n, key, count - 1), n, false, key, Increment).0
  }

  /** No update is lost: `count` increments from nothing leave `count` stored. */
  lemma {:induction false} IncrementsCount<K(!new)>(t: Tree<K, int>, n: Handle, key: K, count: nat)
    requires n < |t.nodes| && MutableValue(t, n, key) == None
    ensures count > 0 ==> MutableValue(IncrementTimes(t, n, key, count), n, key) == Some(count)
    ensures count == 0 ==> MutableValue(IncrementTimes(t, n, key, count), n, key) == None
  {
    if count > 0 {
      IncrementsCount(t, n, key, count - 1);
    }
  }
}
