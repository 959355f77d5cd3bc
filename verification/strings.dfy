/**
  String helpers used by the command-line source, the population engine and
  the logger: joining, prefix tests, Go's ordering of strings, and the sorted
  enumeration of a set of strings (what `sort.Slice` over map keys yields).
 */
module Strings {
  import opened Basics

  /** `strings.Join`: the segments separated by `sep`. */
  function Join(segs: seq<string>, sep: string): string
  {
    if |segs| == 0 then ""
    else if |segs| == 1 then segs[0]
    else segs[0] + sep + Join(segs[1..], sep)
  }

  /** `strings.HasPrefix`. */
  predicate HasPrefix(s: string, p: string)
  {
    |p| <= |s| && s[..|p|] == p
  }

  /** A prefix of the middle part is a prefix of what follows the first part. */
  lemma PrefixAfter(a: string, b: string, c: string, p: string)
    requires HasPrefix(b, p)
    ensures |a| <= |a + b + c| && HasPrefix((a + b + c)[|a|..], p)
  {
    assert (a + b + c)[|a|..] == b + c;
    assert (b + c)[..|p|] == b[..|p|];
  }

  /** True when `c` occurs in `s`. */
  predicate Contains(s: string, c: char)
  {
    exists i :: 0 <= i < |s| && s[i] == c
  }

  /** Index of the first occurrence of `c` in `s`, if any. */
  function FirstIndex(s: string, c: char): (r: Option<nat>)
    ensures r.None? <==> !Contains(s, c)
    ensures r.Some? ==> r.value < |s| && s[r.value] == c
    ensures r.Some? ==> forall i :: 0 <= i < r.value ==> s[i] != c
  {
    if |s| == 0 then None
    else if s[0] == c then Some(0)
    else match FirstIndex(s[1..], c)
      case None => None
      case Some(i) => Some(i + 1)
  }

  /**
    Go's `<` on strings: lexicographic on the encoded bytes. UTF-8 preserves
    code-point order, so comparing characters gives the same answer.
   */
  predicate Less(a: string, b: string)
    decreases |a|
  {
    if |a| == 0 then |b| > 0
    else if |b| == 0 then false
    else if a[0] != b[0] then a[0] < b[0]
    else Less(a[1..], b[1..])
  }

  lemma {:induction false} LessIrreflexive(a: string)
    ensures !Less(a, a)
    decreases |a|
  {
    if |a| > 0 {
      LessIrreflexive(a[1..]);
    }
  }

  lemma {:induction false} LessTransitive(a: string, b: string, c: string)
    requires Less(a, b) && Less(b, c)
    ensures Less(a, c)
    decreases |a|
  {
    if |a| > 0 && a[0] == b[0] && b[0] == c[0] {
      LessTransitive(a[1..], b[1..], c[1..]);
    }
  }

  lemma {:induction false} LessTotal(a: string, b: string)
    requires a != b
    ensures Less(a, b) || Less(b, a)
    decreases |a|
  {
    if |a| > 0 && |b| > 0 && a[0] == b[0] {
      assert a == [a[0]] + a[1..] && b == [b[0]] + b[1..];
      LessTotal(a[1..], b[1..]);
    }
  }

  lemma LessAsymmetric(a: string, b: string)
    requires Less(a, b)
    ensures !Less(b, a)
  {
    if Less(b, a) {
      LessTransitive(a, b, a);
      LessIrreflexive(a);
    }
  }

  /** A proper prefix sorts first. */
  lemma {:induction false} PrefixLess(p: string, s: string)
    requires |p| < |s| && s[..|p|] == p
    ensures Less(p, s)
    decreases |p|
  {
    if |p| > 0 {
      assert s[1..][..|p| - 1] == p[1..];
      PrefixLess(p[1..], s[1..]);
    }
  }

  /** Strictly ascending, hence free of duplicates. */
  predicate StrictlySorted(s: seq<string>)
  {
    forall i, j :: 0 <= i < j < |s| ==> Less(s[i], s[j])
  }

  /** `m` is below every other member of `s`. */
  predicate IsLeast(m: string, s: set<string>)
  {
    m in s && forall y :: y in s ==> y == m || Less(m, y)
  }

  lemma {:induction false} LeastExists(s: set<string>)
    requires s != {}
    ensures exists m :: IsLeast(m, s)
    decreases |s|
  {
    var x :| x in s;
    if s == {x} {
      assert IsLeast(x, s);
    } else {
      LeastExists(s - {x});
      var m :| IsLeast(m, s - {x});
      if Less(x, m) {
        forall y | y in s
          ensures y == x || Less(x, y)
        {
          if y != x && y != m {
            LessTransitive(x, m, y);
          }
        }
        assert IsLeast(x, s);
      } else {
        LessTotal(x, m);
        assert IsLeast(m, s);
      }
    }
  }

  lemma LeastUnique(m1: string, m2: string, s: set<string>)
    requires IsLeast(m1, s) && IsLeast(m2, s)
    ensures m1 == m2
  {
    if m1 != m2 {
      LessAsymmetric(m1, m2);
    }
  }

  /** The smallest member of a non-empty set of strings. */
  function Least(s: set<string>): (m: string)
    requires s != {}
    ensures IsLeast(m, s)
  {
    LeastExists(s);
    assert forall m1, m2 :: IsLeast(m1, s) && IsLeast(m2, s) ==> m1 == m2 by {
      forall m1, m2 | IsLeast(m1, s) && IsLeast(m2, s)
        ensures m1 == m2
      {
        LeastUnique(m1, m2, s);
      }
    }
    var m :| IsLeast(m, s); m
  }

  /**
    The members of `s` in ascending order: what Go obtains by collecting map
    keys into a slice and sorting it with `<`.
   */
  function SortedSet(s: set<string>): (r: seq<string>)
    ensures StrictlySorted(r)
    ensures forall x :: x in r <==> x in s
    ensures |r| == |s|
    decreases |s|
  {
    if s == {} then []
    else
      var m := Least(s);
      var rest := SortedSet(s - {m});
      assert forall i :: 0 <= i < |rest| ==> Less(m, rest[i]) by {
        forall i | 0 <= i < |rest|
          ensures Less(m, rest[i])
        {
          assert rest[i] in s - {m};
        }
      }
      [m] + rest
  }

  /** Two ascending enumerations of the same set are the same sequence. */
  lemma {:induction false} SortedUnique(a: seq<string>, b: seq<string>)
    requires StrictlySorted(a) && StrictlySorted(b)
    requires forall x :: x in a <==> x in b
    ensures a == b
    decreases |a|
  {
    assert (|a| > 0) == (|b| > 0) by {
      if |a| > 0 { assert a[0] in a; }
      if |b| > 0 { assert b[0] in b; }
    }
    if |a| > 0 {
      var elems := set x | x in a;
      assert IsLeast(a[0], elems);
      assert IsLeast(b[0], elems);
      LeastUnique(a[0], b[0], elems);
      assert a == [a[0]] + a[1..] && b == [b[0]] + b[1..];
      LessIrreflexive(a[0]);
      forall x
        ensures x in a[1..] <==> x in b[1..]
      {
        if x in a[1..] {
          var i :| 0 <= i < |a[1..]| && a[1..][i] == x;
          assert Less(a[0], a[i + 1]);
          assert x in a;
          var k :| 0 <= k < |b| && b[k] == x;
          assert k != 0;
          assert b[1..][k - 1] == x;
        }
        if x in b[1..] {
          var i :| 0 <= i < |b[1..]| && b[1..][i] == x;
          assert Less(b[0], b[i + 1]);
          assert x in b;
          var k :| 0 <= k < |a| && a[k] == x;
          assert k != 0;
          assert a[1..][k - 1] == x;
        }
      }
      SortedUnique(a[1..], b[1..]);
    }
  }

  /** No string occurs twice. */
  predicate Unique(s: seq<string>)
  {
    forall i, j :: 0 <= i < j < |s| ==> s[i] != s[j]
  }

  /** Insert `x` into an ascending sequence, keeping it ascending. */
  function InsertSorted(x: string, s: seq<string>): (r: seq<string>)
    requires StrictlySorted(s) && x !in s
    ensures StrictlySorted(r)
    ensures forall y :: y in r <==> y == x || y in s
    ensures |r| == |s| + 1
  {
    if |s| == 0 then [x]
    else if Less(x, s[0]) then
      assert forall i :: 0 <= i < |s| ==> Less(x, s[i]) by {
        forall i | 0 < i < |s|
          ensures Less(x, s[i])
        {
          LessTransitive(x, s[0], s[i]);
        }
      }
      [x] + s
    else
      LessTotal(x, s[0]);
      var rest := InsertSorted(x, s[1..]);
      assert forall i :: 0 <= i < |rest| ==> Less(s[0], rest[i]) by {
        forall i | 0 <= i < |rest|
          ensures Less(s[0], rest[i])
        {
          assert rest[i] in rest;
        }
      }
      [s[0]] + rest
  }

  /**
    Sorting a duplicate-free sequence of strings ascending, as `sort.Slice`
    with `<` does to the keys of a map collected in iteration order.
   */
  function SortStrings(s: seq<string>): (r: seq<string>)
    requires Unique(s)
    ensures StrictlySorted(r)
    ensures forall y :: y in r <==> y in s
    ensures |r| == |s|
  {
    if |s| == 0 then []
    else
      assert s[0] !in s[1..];
      InsertSorted(s[0], SortStrings(s[1..]))
  }

  /**
    Whatever order the keys were collected in, sorting them gives the one
    ascending enumeration of the set: the outcome does not depend on Go's
    map iteration order.
   */
  lemma SortIgnoresCollectionOrder(keys: set<string>, collected: seq<string>)
    requires Unique(collected)
    requires forall k :: k in collected <==> k in keys
    ensures SortStrings(collected) == SortedSet(keys)
  {
    SortedUnique(SortStrings(collected), SortedSet(keys));
  }
}
