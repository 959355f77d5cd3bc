/**
  The canonical order of declared parameters (`sortParams` in package
  `mcfg`): paths are compared segment by segment; where one path runs out
  first, the LONGER path (the descendant scope) comes first; on equal paths
  the names decide.
 */
module ParamOrder {
  import opened Strings
  import opened Params

  /** The comparator of `sortParams`, one loop iteration per path segment. */
  predicate KeyBefore(ap: seq<string>, an: string, bp: seq<string>, bn: string)
    decreases |ap|
  {
    if |ap| == 0 && |bp| == 0 then Less(an, bn)
    else if |ap| == 0 then false
    else if |bp| == 0 then true
    else if ap[0] != bp[0] then Less(ap[0], bp[0])
    else KeyBefore(ap[1..], an, bp[1..], bn)
  }

  predicate Before(a: Decl, b: Decl)
  {
    KeyBefore(a.path, a.param.name, b.path, b.param.name)
  }

  predicate SameKey(a: Decl, b: Decl)
  {
    a.path == b.path && a.param.name == b.param.name
  }

  lemma {:induction false} KeyIrreflexive(p: seq<string>, n: string)
    ensures !KeyBefore(p, n, p, n)
    decreases |p|
  {
    if |p| == 0 {
      LessIrreflexive(n);
    } else {
      KeyIrreflexive(p[1..], n);
    }
  }

  lemma {:induction false} KeyTransitive(ap: seq<string>, an: string, bp: seq<string>, bn: string, cp: seq<string>, cn: string)
    requires KeyBefore(ap, an, bp, bn) && KeyBefore(bp, bn, cp, cn)
    ensures KeyBefore(ap, an, cp, cn)
    decreases |ap|
  {
    if |ap| == 0 {
      LessTransitive(an, bn, cn);
    } else if |bp| > 0 && |cp| > 0 {
      if ap[0] != bp[0] && bp[0] != cp[0] {
        LessTransitive(ap[0], bp[0], cp[0]);
        LessIrreflexive(ap[0]);
      } else if ap[0] == bp[0] && bp[0] == cp[0] {
        KeyTransitive(ap[1..], an, bp[1..], bn, cp[1..], cn);
      }
    }
  }

  lemma {:induction false} KeyTotal(ap: seq<string>, an: string, bp: seq<string>, bn: string)
    requires ap != bp || an != bn
    ensures KeyBefore(ap, an, bp, bn) || KeyBefore(bp, bn, ap, an)
    decreases |ap|
  {
    if |ap| == 0 && |bp| == 0 {
      LessTotal(an, bn);
    } else if |ap| > 0 && |bp| > 0 {
      if ap[0] != bp[0] {
        LessTotal(ap[0], bp[0]);
      } else {
        assert ap == [ap[0]] + ap[1..] && bp == [bp[0]] + bp[1..];
        KeyTotal(ap[1..], an, bp[1..], bn);
      }
    }
  }

  /**
    `Before` is a strict total order on parameter identities: irreflexive,
    transitive, and any two parameters with different `(path, name)` are
    ordered one way or the other.
   */
  lemma BeforeIsStrictTotalOrder(a: Decl, b: Decl, c: Decl)
    ensures !Before(a, a)
    ensures Before(a, b) && Before(b, c) ==> Before(a, c)
    ensures !SameKey(a, b) ==> Before(a, b) || Before(b, a)
    ensures Before(a, b) ==> !Before(b, a) && !SameKey(a, b)
  {
    KeyIrreflexive(a.path, a.param.name);
    if Before(a, b) && Before(b, c) {
      KeyTransitive(a.path, a.param.name, b.path, b.param.name, c.path, c.param.name);
    }
    if !SameKey(a, b) {
      KeyTotal(a.path, a.param.name, b.path, b.param.name);
    }
    if Before(a, b) && Before(b, a) {
      KeyTransitive(a.path, a.param.name, b.path, b.param.name, a.path, a.param.name);
    }
  }

  /** Under a common path prefix, a parameter of a descendant scope comes before one of the ancestor. */
  lemma {:induction false} DescendantsFirst(p: seq<string>, q: seq<string>, an: string, bn: string)
    requires |q| > 0
    ensures KeyBefore(p + q, an, p, bn)
    ensures !KeyBefore(p, bn, p + q, an)
    decreases |p|
  {
    if |p| > 0 {
      assert (p + q)[0] == p[0] && (p + q)[1..] == p[1..] + q;
      DescendantsFirst(p[1..], q, an, bn);
    }
  }

  /** Within one scope, parameters are ordered by name. */
  lemma {:induction false} SamePathByName(p: seq<string>, an: string, bn: string)
    ensures KeyBefore(p, an, p, bn) <==> Less(an, bn)
    decreases |p|
  {
    if |p| > 0 {
      SamePathByName(p[1..], an, bn);
    }
  }

  /** Where two paths first differ, that segment decides, whatever follows and whatever the names. */
  lemma {:induction false} FirstDifferenceDecides(p: seq<string>, x: string, y: string, q: seq<string>, r: seq<string>, an: string, bn: string)
    requires x != y
    ensures KeyBefore(p + [x] + q, an, p + [y] + r, bn) <==> Less(x, y)
    decreases |p|
  {
    if |p| > 0 {
      assert (p + [x] + q)[1..] == p[1..] + [x] + q;
      assert (p + [y] + r)[1..] == p[1..] + [y] + r;
      FirstDifferenceDecides(p[1..], x, y, q, r, an, bn);
    } else {
      assert (p + [x] + q)[0] == x && (p + [y] + r)[0] == y;
    }
  }

  // ---------------------------------------------------------------------
  // Sorting

  /** No element is `Before` an element to its left. */
  predicate Sorted(s: seq<Decl>)
  {
    forall i, j :: 0 <= i < j < |s| ==> !Before(s[j], s[i])
  }

  function Insert(x: Decl, s: seq<Decl>): (r: seq<Decl>)
    requires Sorted(s)
    ensures Sorted(r)
    ensures multiset(r) == multiset(s) + multiset{x}
    decreases |s|
  {
    if |s| == 0 then [x]
    else if Before(s[0], x) then
      var rest := Insert(x, s[1..]);
      assert s == [s[0]] + s[1..];
      HeadStaysFirst(x, s, rest);
      ConsSorted(s[0], rest);
      [s[0]] + rest
    else
      NothingBefore(x, s);
      ConsSorted(x, s);
      [x] + s
  }

  /** Putting in front an element no member is `Before` keeps a sequence sorted. */
  lemma ConsSorted(x: Decl, s: seq<Decl>)
    requires Sorted(s) && forall k :: 0 <= k < |s| ==> !Before(s[k], x)
    ensures Sorted([x] + s)
  {
    forall i, j | 0 <= i < j < |[x] + s|
      ensures !Before(([x] + s)[j], ([x] + s)[i])
    {
      if i > 0 {
        assert ([x] + s)[i] == s[i - 1] && ([x] + s)[j] == s[j - 1];
      } else {
        assert ([x] + s)[j] == s[j - 1];
      }
    }
  }

  /** The head of a sorted sequence that is `Before` `x` stays ahead of `x` and of the rest. */
  lemma HeadStaysFirst(x: Decl, s: seq<Decl>, rest: seq<Decl>)
    requires Sorted(s) && |s| > 0 && Before(s[0], x)
    requires multiset(rest) == multiset(s[1..]) + multiset{x}
    ensures forall k :: 0 <= k < |rest| ==> !Before(rest[k], s[0])
  {
    forall k | 0 <= k < |rest|
      ensures !Before(rest[k], s[0])
    {
      assert rest[k] in multiset(rest);
      if rest[k] == x {
        BeforeIsStrictTotalOrder(s[0], x, x);
      } else {
        assert rest[k] in multiset(s[1..]);
        var j :| 0 <= j < |s[1..]| && s[1..][j] == rest[k];
        assert s[j + 1] == rest[k];
      }
    }
  }

  /** If the head of a sorted sequence is not `Before` `x`, no member is. */
  lemma NothingBefore(x: Decl, s: seq<Decl>)
    requires Sorted(s) && |s| > 0 && !Before(s[0], x)
    ensures forall k :: 0 <= k < |s| ==> !Before(s[k], x)
  {
    forall k | 0 <= k < |s|
      ensures !Before(s[k], x)
    {
      BeforeIsStrictTotalOrder(s[0], s[k], x);
    }
  }

  /**
    `sortParams`: the parameters in `Before` order. Go's `sort.Slice` is not
    stable, so the order among parameters with the same identity is not
    fixed; `populate` rejects such duplicates anyway.
   */
  function SortParams(s: seq<Decl>): (r: seq<Decl>)
    ensures Sorted(r)
    ensures multiset(r) == multiset(s)
    decreases |s|
  {
    if |s| == 0 then []
    else
      assert s == [s[0]] + s[1..];
      Insert(s[0], SortParams(s[1..]))
  }

  /** No two parameters share an identity. */
  predicate UniqueKeys(s: seq<Decl>)
  {
    forall i, j :: 0 <= i < j < |s| ==> !SameKey(s[i], s[j])
  }

  /** A sorted sequence with distinct identities has no element ahead of its first. */
  lemma SortedHead(s: seq<Decl>)
    requires Sorted(s) && UniqueKeys(s) && |s| > 0
    ensures forall k :: 0 < k < |s| ==> Before(s[0], s[k])
  {
    forall k | 0 < k < |s|
      ensures Before(s[0], s[k])
    {
      BeforeIsStrictTotalOrder(s[0], s[k], s[k]);
    }
  }

  /**
    The canonical order is unique: two sorted arrangements of the same
    parameters with distinct identities are equal. So `collectParams` hands
    `populate` the same list whatever order the scopes are walked in.
   */
  lemma {:induction false} SortedIsCanonical(a: seq<Decl>, b: seq<Decl>)
    requires Sorted(a) && Sorted(b) && UniqueKeys(a)
    requires multiset(a) == multiset(b)
    ensures a == b
    decreases |a|
  {
    assert |a| == |multiset(a)| == |multiset(b)| == |b|;
    if |a| > 0 {
      SameHead(a, b);
      Tails(a, b);
      SortedIsCanonical(a[1..], b[1..]);
      assert a == [a[0]] + a[1..] && b == [b[0]] + b[1..];
    }
  }

  /** The first element of a canonical arrangement is fixed by its contents. */
  lemma SameHead(a: seq<Decl>, b: seq<Decl>)
    requires Sorted(a) && Sorted(b) && UniqueKeys(a)
    requires multiset(a) == multiset(b) && |a| > 0 && |b| > 0
    ensures a[0] == b[0]
  {
    SortedHead(a);
    MultisetIndex(a, b, 0);
    MultisetIndex(b, a, 0);
    var k :| 0 <= k < |a| && a[k] == b[0];
    var m :| 0 <= m < |b| && b[m] == a[0];
  }

  /** Dropping an equal first element keeps the hypotheses of `SortedIsCanonical`. */
  lemma Tails(a: seq<Decl>, b: seq<Decl>)
    requires Sorted(a) && Sorted(b) && UniqueKeys(a)
    requires multiset(a) == multiset(b) && |a| > 0 && |b| > 0 && a[0] == b[0]
    ensures Sorted(a[1..]) && Sorted(b[1..]) && UniqueKeys(a[1..])
    ensures multiset(a[1..]) == multiset(b[1..])
  {
    SortedTail(a);
    SortedTail(b);
    TailMultiset(a);
    TailMultiset(b);
  }

  /** A tail of a sorted sequence with distinct identities is one too. */
  lemma SortedTail(s: seq<Decl>)
    requires Sorted(s) && |s| > 0
    ensures Sorted(s[1..])
    ensures UniqueKeys(s) ==> UniqueKeys(s[1..])
  {
    forall i, j | 0 <= i < j < |s[1..]|
      ensures !Before(s[1..][j], s[1..][i])
    {
      assert s[1..][j] == s[j + 1] && s[1..][i] == s[i + 1];
    }
    if UniqueKeys(s) {
      forall i, j | 0 <= i < j < |s[1..]|
        ensures !SameKey(s[1..][i], s[1..][j])
      {
        assert s[1..][j] == s[j + 1] && s[1..][i] == s[i + 1];
      }
    }
  }

  lemma TailMultiset(s: seq<Decl>)
    requires |s| > 0
    ensures multiset(s[1..]) == multiset(s) - multiset{s[0]}
  {
    assert s == [s[0]] + s[1..];
    assert multiset(s) == multiset{s[0]} + multiset(s[1..]);
  }

  lemma MultisetIndex(a: seq<Decl>, b: seq<Decl>, i: nat)
    requires multiset(a) == multiset(b) && i < |b|
    ensures exists k :: 0 <= k < |a| && a[k] == b[i]
  {
    assert b[i] in multiset(b);
    assert b[i] in a;
  }
}
