/**
  Package `mlog`: the key/value algebra that gives log entries their
  context, the default one-line format, and the level filter and
  copy-on-write builders of `Logger`.

  A value's rendering (`fmt.Sprint` followed by `strconv.QuoteToGraphic`) is
  a parameter `quote`; values themselves are of any type `V`.
 */
module Logging {
  import opened Basics
  import opened Strings

  /** `Truncate`: strings longer than `size` are cut to `size` and marked with three dots. */
  function Truncate(s: string, size: nat): (r: string)
    ensures |s| <= size ==> r == s
    ensures |s| > size ==> |r| == size + 3 && HasPrefix(r, s[..size]) && r[size..] == "..."
  {
    if |s| <= size then s else s[..size] + "..."
  }

  /** The result is at most three characters longer than `size`, and truncating again changes nothing. */
  lemma TruncateBoundedIdempotent(s: string, size: nat)
    ensures |Truncate(s, size)| <= size + 3
    ensures Truncate(Truncate(s, size), size) == Truncate(s, size)
  {
    if |s| > size {
      var r := Truncate(s, size);
      assert r[..size] == s[..size];
    }
  }

  // ---------------------------------------------------------------------
  // Levels

  /** A severity: the smaller the number the more severe, zero being fatal. */
  datatype Level = Level(name: string, severity: nat)

  const DebugLevel := Level("DEBUG", 40)
  const InfoLevel := Level("INFO", 30)
  const WarnLevel := Level("WARN", 20)
  const ErrorLevel := Level("ERROR", 10)
  const FatalLevel := Level("FATAL", 0)

  // ---------------------------------------------------------------------
  // Key/value sets

  type KV<V> = map<string, V>

  /** `KV.KV`: an equal, independent copy. */
  function Copy<V>(kv: KV<V>): (r: KV<V>)
    ensures r.Keys == kv.Keys
    ensures forall k :: k in kv ==> r[k] == kv[k]
  {
    map k | k in kv :: kv[k]
  }

  /** `KV.Set`: a copy with `k` bound to `v`; the receiver is a value and stays as it was. */
  function Set<V>(kv: KV<V>, k: string, v: V): (r: KV<V>)
    ensures r.Keys == kv.Keys + {k}
    ensures r[k] == v
    ensures forall k' :: k' in kv && k' != k ==> r[k'] == kv[k']
  {
    Copy(kv)[k := v]
  }

  /** Setting the same key twice keeps the second value; setting different keys commutes. */
  lemma SetLaws<V>(kv: KV<V>, k1: string, v1: V, k2: string, v2: V)
    ensures k1 == k2 ==> Set(Set(kv, k1, v1), k2, v2) == Set(kv, k2, v2)
    ensures k1 != k2 ==> Set(Set(kv, k1, v1), k2, v2) == Set(Set(kv, k2, v2), k1, v1)
  {
  }

  /**
    The providers of key/value context: nothing (a nil `KVer`), a plain
    `KV`, a `merger` of a base and the rest, or the `KVerFunc` that
    `Prefix` builds.
   */
  datatype KVer<V> =
    | Nil
    | Plain(kv: KV<V>)
    | Merger(base: KVer<V>, rest: seq<KVer<V>>)
    | Prefixed(inner: KVer<V>, prefix: string)

  /**
    Layer `ms` over `base` left to right, each map overriding what came
    before: the two nested loops of `mergeInto`.
   */
  function Layer<V>(base: KV<V>, ms: seq<KV<V>>): KV<V>
    decreases |ms|
  {
    if |ms| == 0 then base else Layer(base, ms[..|ms| - 1]) + ms[|ms| - 1]
  }

  /** `p + k` for every key `k`, values kept. */
  function PrefixKeys<V>(kv: KV<V>, p: string): (r: KV<V>)
    ensures forall k :: k in kv ==> p + k in r && r[p + k] == kv[k]
    ensures forall k :: k in r ==> HasPrefix(k, p) && k[|p|..] in kv
  {
    assert forall k1, k2 :: p + k1 == p + k2 ==> k1 == k2 by {
      forall k1, k2 | p + k1 == p + k2
        ensures k1 == k2
      {
        assert k1 == (p + k1)[|p|..];
        assert k2 == (p + k2)[|p|..];
      }
    }
    var r := map k | k in kv :: p + k := kv[k];
    assert forall k :: k in r ==> HasPrefix(k, p) && k[|p|..] in kv by {
      forall k | k in r
        ensures HasPrefix(k, p) && k[|p|..] in kv
      {
        var k0 :| k0 in kv && k == p + k0;
        assert k[..|p|] == p && k[|p|..] == k0;
      }
    }
    r
  }

  /**
    What a `KVer` yields: `readOnlyKVM` for a nil or plain one, `mergeInto`
    for a merger (a nil base contributes nothing), and the re-keyed map for
    a prefixed one.
   */
  function Contents<V>(k: KVer<V>): KV<V>
    decreases k
  {
    match k
    case Nil => map[]
    case Plain(kv) => Copy(kv)
    case Merger(base, rest) =>
      Layer(Contents(base), seq(|rest|, i requires 0 <= i < |rest| => (assert rest[i] in rest; Contents(rest[i]))))
    case Prefixed(inner, p) => PrefixKeys(Contents(inner), p)
  }

  /** The yields of a sequence of providers, one by one. */
  function ContentsAll<V>(ks: seq<KVer<V>>): (r: seq<KV<V>>)
    ensures |r| == |ks|
    ensures forall i :: 0 <= i < |ks| ==> r[i] == Contents(ks[i])
  {
    seq(|ks|, i requires 0 <= i < |ks| => Contents(ks[i]))
  }

  lemma MergerContents<V>(base: KVer<V>, rest: seq<KVer<V>>)
    ensures Contents(Merger(base, rest)) == Layer(Contents(base), ContentsAll(rest))
  {
    var a := seq(|rest|, i requires 0 <= i < |rest| => (assert rest[i] in rest; Contents(rest[i])));
    assert a == ContentsAll(rest);
  }

  /** `Merge`: the first provider is the base, the others are layered over it; with none, an empty merger. */
  function Merge<V>(kvs: seq<KVer<V>>): (r: KVer<V>)
    ensures r.Merger?
  {
    if |kvs| == 0 then Merger(Nil, []) else Merger(kvs[0], kvs[1..])
  }

  /** `MergeInto`: `kvs` layered over `kv`. */
  function MergeInto<V>(kv: KVer<V>, kvs: seq<KVer<V>>): (r: KVer<V>)
    ensures r.Merger?
  {
    Merger(kv, kvs)
  }

  /**
    The reference reading of layering: a key is present when the base or
    some layer has it, and its value comes from the LAST layer that has it,
    or from the base when no layer does.
   */
  lemma {:induction false} LayerLookup<V>(base: KV<V>, ms: seq<KV<V>>, k: string)
    ensures k in Layer(base, ms) <==> k in base || exists i :: 0 <= i < |ms| && k in ms[i]
    ensures forall i :: 0 <= i < |ms| && k in ms[i] && (forall j :: i < j < |ms| ==> k !in ms[j]) ==>
      Layer(base, ms)[k] == ms[i][k]
    ensures (forall i :: 0 <= i < |ms| ==> k !in ms[i]) && k in base ==> Layer(base, ms)[k] == base[k]
    decreases |ms|
  {
    if |ms| > 0 {
      var init := ms[..|ms| - 1];
      LayerLookup(base, init, k);
      assert forall i :: 0 <= i < |init| ==> init[i] == ms[i];
      if exists i :: 0 <= i < |ms| && k in ms[i] {
        var i :| 0 <= i < |ms| && k in ms[i];
        if i < |init| {
          assert k in init[i];
        }
      }
    }
  }

  /** Layering in two goes is layering once over the concatenation. */
  lemma {:induction false} LayerAppend<V>(base: KV<V>, xs: seq<KV<V>>, ys: seq<KV<V>>)
    ensures Layer(Layer(base, xs), ys) == Layer(base, xs + ys)
    decreases |ys|
  {
    if |ys| == 0 {
      assert xs + ys == xs;
    } else {
      LayerAppend(base, xs, ys[..|ys| - 1]);
      assert (xs + ys)[..|xs + ys| - 1] == xs + ys[..|ys| - 1];
    }
  }

  lemma ContentsAllAppend<V>(xs: seq<KVer<V>>, ys: seq<KVer<V>>)
    ensures ContentsAll(xs + ys) == ContentsAll(xs) + ContentsAll(ys)
  {
  }

  /**
    `Merge` is the union of its inputs with the rightmost binding winning:
    the same as layering every input over nothing.
   */
  lemma MergeIsLayering<V>(kvs: seq<KVer<V>>)
    ensures Contents(Merge(kvs)) == Layer(map[], ContentsAll(kvs))
  {
    if |kvs| == 0 {
      MergerContents(Nil, kvs);
    } else {
      var first, others := Contents(kvs[0]), ContentsAll(kvs[1..]);
      MergerContents(kvs[0], kvs[1..]);
      ContentsAllCons(kvs[0], kvs[1..]);
      assert kvs == [kvs[0]] + kvs[1..];
      LayerOverEmpty(first, others);
    }
  }

  lemma ContentsAllCons<V>(x: KVer<V>, rest: seq<KVer<V>>)
    ensures ContentsAll([x] + rest) == [Contents(x)] + ContentsAll(rest)
  {
    ContentsAllAppend([x], rest);
  }

  /** Layering over nothing, the first layer serves as the base. */
  lemma LayerOverEmpty<V>(m: KV<V>, rest: seq<KV<V>>)
    ensures Layer(map[], [m] + rest) == Layer(m, rest)
  {
    var empty: KV<V> := map[];
    LayerAppend(empty, [m], rest);
    assert [m][..0] == [];
    assert empty + m == m;
  }

  /**
    A key of `Merge(kvs)` is one some input has, bound as in the rightmost
    input that has it.
   */
  lemma MergeLookup<V>(kvs: seq<KVer<V>>, k: string)
    ensures k in Contents(Merge(kvs)) <==> exists i :: 0 <= i < |kvs| && k in Contents(kvs[i])
    ensures forall i :: 0 <= i < |kvs| && k in Contents(kvs[i]) && (forall j :: i < j < |kvs| ==> k !in Contents(kvs[j])) ==>
      Contents(Merge(kvs))[k] == Contents(kvs[i])[k]
  {
    MergeIsLayering(kvs);
    LayerLookup(map[], ContentsAll(kvs), k);
  }

  /** A nil provider anywhere among the inputs contributes nothing. */
  lemma NilContributesNothing<V>(base: KVer<V>, xs: seq<KVer<V>>, ys: seq<KVer<V>>)
    ensures Contents(Merger(base, xs + [Nil] + ys)) == Contents(Merger(base, xs + ys))
  {
    var empty: KV<V> := map[];
    MergerContents(base, xs + [Nil] + ys);
    MergerContents(base, xs + ys);
    assert ContentsAll(xs + [Nil] + ys) == ContentsAll(xs) + [empty] + ContentsAll(ys);
    ContentsAllAppend(xs, ys);
    LayerSkipsEmpty(Contents(base), ContentsAll(xs), ContentsAll(ys));
  }

  /** An empty map among the layers changes nothing. */
  lemma LayerSkipsEmpty<V>(b: KV<V>, xs: seq<KV<V>>, ys: seq<KV<V>>)
    ensures Layer(b, xs + [map[]] + ys) == Layer(b, xs + ys)
  {
    var empty: KV<V> := map[];
    LayerAppend(b, xs + [empty], ys);
    LayerAppend(b, xs, [empty]);
    LayerAppend(b, xs, ys);
    assert [empty][..0] == [];
    assert Layer(b, xs) + empty == Layer(b, xs);
  }

  /** `MergeInto(kv, kvs)` yields what `Merge` of `kv` followed by `kvs` yields. */
  lemma MergeIntoIsMerge<V>(kv: KVer<V>, kvs: seq<KVer<V>>)
    ensures Contents(MergeInto(kv, kvs)) == Contents(Merge([kv] + kvs))
  {
    assert ([kv] + kvs)[1..] == kvs;
  }

  /**
    `Prefix`: every key gains the prefix and keeps its value; the number of
    entries does not change, and nothing else is in the result.
   */
  function Prefix<V>(kv: KVer<V>, p: string): (r: KVer<V>)
    ensures !r.Nil?
  {
    Prefixed(kv, p)
  }

  lemma {:induction false} PrefixKeysSize<V>(kv: KV<V>, p: string)
    ensures |PrefixKeys(kv, p).Keys| == |kv.Keys|
    decreases |kv.Keys|
  {
    if kv.Keys != {} {
      var k :| k in kv.Keys;
      var smaller := kv - {k};
      PrefixKeysSize(smaller, p);
      var r := PrefixKeys(kv, p);
      var rs := PrefixKeys(smaller, p);
      assert rs.Keys == r.Keys - {p + k} by {
        forall x
          ensures x in rs.Keys <==> x in r.Keys - {p + k}
        {
          if x in r.Keys {
            assert x == p + x[|p|..] by { assert x[..|p|] == p; }
          }
          if x in rs.Keys {
            assert x == p + x[|p|..] by { assert x[..|p|] == p; }
            assert x[|p|..] != k;
            assert p + x[|p|..] != p + k by {
              assert (p + k)[|p|..] == k;
            }
          }
        }
      }
      assert kv.Keys == smaller.Keys + {k};
    }
  }

  lemma PrefixLaws<V>(kv: KVer<V>, p: string)
    ensures var c := Contents(kv); var r := Contents(Prefix(kv, p));
      && (forall k :: k in c ==> p + k in r && r[p + k] == c[k])
      && (forall k :: k in r ==> HasPrefix(k, p) && k[|p|..] in c && r[k] == c[k[|p|..]])
      && |r| == |c|
  {
    var c := Contents(kv);
    var r := Contents(Prefix(kv, p));
    PrefixKeysSize(c, p);
    forall k | k in r
      ensures r[k] == c[k[|p|..]]
    {
      assert k == p + k[|p|..] by { assert k[..|p|] == p; }
    }
  }

  // ---------------------------------------------------------------------
  // Formatting

  /** A resolved log entry. */
  datatype Message<V> = Message(level: Level, descr: string, kver: KVer<V>)

  /** The pair of each key in `ks` with its rendered value, in the order of `ks`. */
  function Pairs<V>(ks: seq<string>, kv: KV<V>, quote: V -> string): (r: seq<(string, string)>)
    requires forall k :: k in ks ==> k in kv
    ensures |r| == |ks|
    ensures forall i :: 0 <= i < |ks| ==> r[i] == (ks[i], quote(kv[ks[i]]))
  {
    if |ks| == 0 then [] else [(ks[0], quote(kv[ks[0]]))] + Pairs(ks[1..], kv, quote)
  }

  /** `stringSlice`: each key with its rendered value, in ascending key order. */
  function StringSlice<V>(kv: KV<V>, quote: V -> string): (r: seq<(string, string)>)
    ensures |r| == |kv|
    ensures forall i :: 0 <= i < |r| ==> r[i].0 in kv && r[i].1 == quote(kv[r[i].0])
  {
    Pairs(SortedSet(kv.Keys), kv, quote)
  }

  /** The keys come out strictly ascending, every key of `kv` among them: one entry per key. */
  lemma StringSliceSorted<V>(kv: KV<V>, quote: V -> string)
    ensures var r := StringSlice(kv, quote);
      && (forall i, j :: 0 <= i < j < |r| ==> Less(r[i].0, r[j].0))
      && (forall k :: k in kv ==> exists i :: 0 <= i < |r| && r[i].0 == k)
  {
    var ks := SortedSet(kv.Keys);
    var r := StringSlice(kv, quote);
    forall k | k in kv
      ensures exists i :: 0 <= i < |r| && r[i].0 == k
    {
      assert k in ks;
      var i :| 0 <= i < |ks| && ks[i] == k;
      assert r[i].0 == k;
    }
  }

  /** The `" k=v"` fragments of the entries, in order. */
  function Fields(es: seq<(string, string)>): string
  {
    if |es| == 0 then "" else " " + es[0].0 + "=" + es[0].1 + Fields(es[1..])
  }

  /** The `" --"` section: present only for a non-nil provider with a non-empty yield. */
  function Context<V>(kver: KVer<V>, quote: V -> string): (r: string)
    ensures r == "" <==> kver.Nil? || |Contents(kver)| == 0
    ensures r != "" ==> HasPrefix(r, " --")
  {
    if !kver.Nil? && |Contents(kver)| > 0 then " --" + Fields(StringSlice(Contents(kver), quote)) else ""
  }

  /** `DefaultFormat`, every write succeeding: `~ LEVEL -- description`, the context, a newline. */
  function DefaultFormat<V>(msg: Message<V>, quote: V -> string): (r: string)
    ensures HasPrefix(r, "~ " + msg.level.name + " -- " + msg.descr)
    ensures |r| > 0 && r[|r| - 1] == '\n'
    ensures |r| == |"~ " + msg.level.name + " -- " + msg.descr| + 1 <==> msg.kver.Nil? || |Contents(msg.kver)| == 0
    ensures !msg.kver.Nil? && |Contents(msg.kver)| > 0 ==>
      var n := |"~ " + msg.level.name + " -- " + msg.descr|; HasPrefix(r[n..], " --")
  {
    var head := "~ " + msg.level.name + " -- " + msg.descr;
    var ctx := Context(msg.kver, quote);
    LineParts(head, ctx);
    head + ctx + "\n"
  }

  /** A header, an optional section and a newline, seen from the header's end. */
  lemma LineParts(head: string, ctx: string)
    ensures var r := head + ctx + "\n";
      && HasPrefix(r, head) && r[|r| - 1] == '\n'
      && (|r| == |head| + 1 <==> ctx == "")
      && (HasPrefix(ctx, " --") ==> HasPrefix(r[|head|..], " --"))
  {
    var r := head + ctx + "\n";
    assert r[..|head|] == head;
    assert r[|head|..] == ctx + "\n";
    if HasPrefix(ctx, " --") {
      assert (ctx + "\n")[..3] == ctx[..3];
    }
  }

  lemma {:induction false} FieldsAppend(xs: seq<(string, string)>, ys: seq<(string, string)>)
    ensures Fields(xs + ys) == Fields(xs) + Fields(ys)
    decreases |xs|
  {
    if |xs| == 0 {
      assert xs + ys == ys;
    } else {
      assert (xs + ys)[0] == xs[0] && (xs + ys)[1..] == xs[1..] + ys;
      FieldsAppend(xs[1..], ys);
    }
  }

  /** Entry `i` is written as `" k=v"` right after the fragments of the entries before it. */
  lemma FieldsAt(es: seq<(string, string)>, i: nat)
    requires i < |es|
    ensures Fields(es) == Fields(es[..i]) + Fields(es[i..])
    ensures HasPrefix(Fields(es[i..]), " " + es[i].0 + "=" + es[i].1)
  {
    assert es == es[..i] + es[i..];
    FieldsAppend(es[..i], es[i..]);
    var f := " " + es[i].0 + "=" + es[i].1;
    assert Fields(es[i..]) == f + Fields(es[i..][1..]);
    assert Fields(es[i..])[..|f|] == f;
  }

  /** Every fragment is non-empty, so more entries mean a longer stretch of fragments, by at least the fragment of `es[i]`. */
  lemma FieldsGrow(es: seq<(string, string)>, i: nat, j: nat)
    requires i < j <= |es|
    ensures |Fields(es[..i])| < |Fields(es[..i])| + |" " + es[i].0 + "=" + es[i].1| <= |Fields(es[..j])|
  {
    assert es[..j] == es[..i] + es[i..j];
    FieldsAppend(es[..i], es[i..j]);
    assert Fields(es[i..j]) == " " + es[i..j][0].0 + "=" + es[i..j][0].1 + Fields(es[i..j][1..]);
  }

  /** Where entry `i` of the context stands on the line of `msg`. */
  lemma EntryAt<V>(msg: Message<V>, quote: V -> string, i: nat) returns (o: nat)
    requires !msg.kver.Nil? && i < |Contents(msg.kver)|
    ensures var es := StringSlice(Contents(msg.kver), quote);
      o == |"~ " + msg.level.name + " -- " + msg.descr + " --"| + |Fields(es[..i])|
    ensures var es := StringSlice(Contents(msg.kver), quote); var r := DefaultFormat(msg, quote);
      o <= |r| && HasPrefix(r[o..], " " + es[i].0 + "=" + es[i].1)
  {
    var es := StringSlice(Contents(msg.kver), quote);
    var top := "~ " + msg.level.name + " -- " + msg.descr;
    FormatWithContext(msg, quote);
    o := LineEntryAt(top, es, i);
  }

  /** A message with a non-empty context: the header, `" --"`, the fragments, a newline. */
  lemma FormatWithContext<V>(msg: Message<V>, quote: V -> string)
    requires !msg.kver.Nil? && |Contents(msg.kver)| > 0
    ensures DefaultFormat(msg, quote)
      == "~ " + msg.level.name + " -- " + msg.descr + (" --" + Fields(StringSlice(Contents(msg.kver), quote))) + "\n"
  {
  }

  lemma LineEntryAt(top: string, es: seq<(string, string)>, i: nat) returns (o: nat)
    requires i < |es|
    ensures o == |top + " --"| + |Fields(es[..i])|
    ensures var r := top + (" --" + Fields(es)) + "\n"; o <= |r| && HasPrefix(r[o..], " " + es[i].0 + "=" + es[i].1)
  {
    FieldsAt(es, i);
    var a := top + " --" + Fields(es[..i]);
    var b := Fields(es[i..]);
    assert top + (" --" + Fields(es)) + "\n" == a + b + "\n";
    o := |a|;
    PrefixAfter(a, b, "\n", " " + es[i].0 + "=" + es[i].1);
  }

  /**
    Every entry of a non-nil context is on the line as `" k=v"`, `v` being the
    rendered value of `k`.
   */
  lemma FormatShowsEveryEntry<V>(msg: Message<V>, quote: V -> string, k: string)
    requires !msg.kver.Nil? && k in Contents(msg.kver)
    ensures var r := DefaultFormat(msg, quote);
      exists o :: 0 <= o <= |r| && HasPrefix(r[o..], " " + k + "=" + quote(Contents(msg.kver)[k]))
  {
    var es := StringSlice(Contents(msg.kver), quote);
    StringSliceSorted(Contents(msg.kver), quote);
    var i :| 0 <= i < |es| && es[i].0 == k;
    var o := EntryAt(msg, quote, i);
    assert HasPrefix(DefaultFormat(msg, quote)[o..], " " + k + "=" + quote(Contents(msg.kver)[k]));
  }

  /**
    The entries come in ascending key order. With `es` the sorted entries,
    `a` at position `i` and `b` at position `j > i`, the fragment of `a`
    starts right after the header, `" --"` and the fragments of `es[..i]`,
    that of `b` likewise for `es[..j]`, and the whole fragment of `a` ends
    before that of `b` begins.
   */
  lemma FormatEntriesAscend<V>(msg: Message<V>, quote: V -> string, a: string, b: string) returns (i: nat, j: nat, oa: nat, ob: nat)
    requires !msg.kver.Nil? && a in Contents(msg.kver) && b in Contents(msg.kver) && Less(a, b)
    ensures i < j && oa + |" " + a + "=" + quote(Contents(msg.kver)[a])| <= ob
    ensures var es := StringSlice(Contents(msg.kver), quote); var top := "~ " + msg.level.name + " -- " + msg.descr + " --";
      i < j < |es| && es[i].0 == a && es[j].0 == b
      && oa == |top| + |Fields(es[..i])| && ob == |top| + |Fields(es[..j])|
    ensures var r := DefaultFormat(msg, quote);
      var fa := " " + a + "=" + quote(Contents(msg.kver)[a]); var fb := " " + b + "=" + quote(Contents(msg.kver)[b]);
      && oa <= ob <= |r|
      && HasPrefix(r[oa..], fa) && HasPrefix(r[ob..], fb)
  {
    var es := StringSlice(Contents(msg.kver), quote);
    i, j := EntryIndices(Contents(msg.kver), quote, a, b);
    oa := EntryAt(msg, quote, i);
    ob := EntryAt(msg, quote, j);
    FieldsGrow(es, i, j);
  }

  /** In the entries of `kv`, `a` comes to the left of `b` when it is the smaller key. */
  lemma EntryIndices<V>(kv: KV<V>, quote: V -> string, a: string, b: string) returns (i: nat, j: nat)
    requires a in kv && b in kv && Less(a, b)
    ensures var es := StringSlice(kv, quote); i < j < |es| && es[i].0 == a && es[j].0 == b
  {
    var es := StringSlice(kv, quote);
    StringSliceSorted(kv, quote);
    i :| 0 <= i < |es| && es[i].0 == a;
    j :| 0 <= j < |es| && es[j].0 == b;
    if j == i {
      LessIrreflexive(a);
    } else if j < i {
      LessAsymmetric(b, a);
    }
  }

  /** Without context the line is just the header and a newline. */
  lemma FormatWithoutContext<V>(msg: Message<V>, quote: V -> string)
    requires msg.kver.Nil? || Contents(msg.kver) == map[]
    ensures DefaultFormat(msg, quote) == "~ " + msg.level.name + " -- " + msg.descr + "\n"
  {
  }

  /** The line depends on what the provider yields, not on how it is built. */
  lemma FormatDependsOnContents<V>(l: Level, d: string, a: KVer<V>, b: KVer<V>, quote: V -> string)
    requires !a.Nil? && !b.Nil? && Contents(a) == Contents(b)
    ensures DefaultFormat(Message(l, d, a), quote) == DefaultFormat(Message(l, d, b), quote)
  {
  }

  predicate NoNewline(s: string)
  {
    forall i :: 0 <= i < |s| ==> s[i] != '\n'
  }

  lemma ConcatNoNewline(a: string, b: string)
    requires NoNewline(a) && NoNewline(b)
    ensures NoNewline(a + b)
  {
    forall i | 0 <= i < |a + b|
      ensures (a + b)[i] != '\n'
    {
      if i >= |a| {
        assert (a + b)[i] == b[i - |a|];
      }
    }
  }

  lemma {:induction false} FieldsNoNewline(es: seq<(string, string)>)
    requires forall i :: 0 <= i < |es| ==> NoNewline(es[i].0) && NoNewline(es[i].1)
    ensures NoNewline(Fields(es))
    decreases |es|
  {
    if |es| > 0 {
      FieldsNoNewline(es[1..]);
      ConcatNoNewline(" ", es[0].0);
      ConcatNoNewline(" " + es[0].0, "=");
      ConcatNoNewline(" " + es[0].0 + "=", es[0].1);
      ConcatNoNewline(" " + es[0].0 + "=" + es[0].1, Fields(es[1..]));
    }
  }

  /**
    When the level name, the description, the keys and the rendered values
    have no line breaks, an entry is exactly one line: the only newline is
    the final one.
   */
  lemma FormatIsOneLine<V>(msg: Message<V>, quote: V -> string)
    requires NoNewline(msg.level.name) && NoNewline(msg.descr)
    requires forall k :: k in Contents(msg.kver) ==> NoNewline(k)
    requires forall v :: NoNewline(quote(v))
    ensures var r := DefaultFormat(msg, quote); NoNewline(r[..|r| - 1])
  {
    var head := "~ " + msg.level.name + " -- " + msg.descr;
    var ctx := Context(msg.kver, quote);
    HeaderNoNewline(msg.level.name, msg.descr);
    ContextNoNewline(msg.kver, quote);
    ConcatNoNewline(head, ctx);
    var r := DefaultFormat(msg, quote);
    assert r[..|r| - 1] == head + ctx;
  }

  lemma HeaderNoNewline(name: string, descr: string)
    requires NoNewline(name) && NoNewline(descr)
    ensures NoNewline("~ " + name + " -- " + descr)
  {
    ConcatNoNewline("~ ", name);
    ConcatNoNewline("~ " + name, " -- ");
    ConcatNoNewline("~ " + name + " -- ", descr);
  }

  lemma ContextNoNewline<V>(kver: KVer<V>, quote: V -> string)
    requires forall k :: k in Contents(kver) ==> NoNewline(k)
    requires forall v :: NoNewline(quote(v))
    ensures NoNewline(Context(kver, quote))
  {
    if !kver.Nil? && |Contents(kver)| > 0 {
      SectionNoNewline(Contents(kver), quote);
    }
  }

  lemma SectionNoNewline<V>(kv: KV<V>, quote: V -> string)
    requires forall k :: k in kv ==> NoNewline(k)
    requires forall v :: NoNewline(quote(v))
    ensures NoNewline(" --" + Fields(StringSlice(kv, quote)))
  {
    var es := StringSlice(kv, quote);
    StringSliceNoNewline(kv, quote);
    FieldsNoNewline(es);
    assert NoNewline(" --");
    ConcatNoNewline(" --", Fields(es));
  }

  lemma StringSliceNoNewline<V>(kv: KV<V>, quote: V -> string)
    requires forall k :: k in kv ==> NoNewline(k)
    requires forall v :: NoNewline(quote(v))
    ensures var es := StringSlice(kv, quote); forall i :: 0 <= i < |es| ==> NoNewline(es[i].0) && NoNewline(es[i].1)
  {
  }

  // ---------------------------------------------------------------------
  // Logger

  /** A logger: where messages go (`H`), the most verbose level let through, and the base context. */
  datatype Logger<H, V> = Logger(handler: H, maxLevel: nat, kv: KVer<V>)

  /** `NewLogger`: Info and more severe only, no base context. */
  function NewLogger<H, V>(handler: H): (r: Logger<H, V>)
    ensures r.maxLevel == InfoLevel.severity && r.kv.Nil? && r.handler == handler
  {
    Logger(handler, InfoLevel.severity, Nil)
  }

  /**
    `Logger.Log` up to the handler call: the message the handler receives,
    or `None` when its level is above the logger's maximum. A base context
    is merged under the message's own.
   */
  function Log<H, V>(l: Logger<H, V>, msg: Message<V>): (r: Option<Message<V>>)
    ensures r.Some? <==> msg.level.severity <= l.maxLevel
    ensures r.Some? ==> r.value.level == msg.level && r.value.descr == msg.descr
  {
    if l.maxLevel < msg.level.severity then None
    else if l.kv.Nil? then Some(msg)
    else Some(msg.(kver := MergeInto(l.kv, [msg.kver])))
  }

  /** What the handler sees: the base context overridden by the message's own. */
  lemma LogMergesContext<H, V>(l: Logger<H, V>, msg: Message<V>)
    requires msg.level.severity <= l.maxLevel
    ensures Contents(Log(l, msg).value.kver) == Contents(l.kv) + Contents(msg.kver)
  {
    if !l.kv.Nil? {
      MergerContents(l.kv, [msg.kver]);
      assert ContentsAll([msg.kver]) == [Contents(msg.kver)];
      assert [Contents(msg.kver)][..0] == [];
    }
  }

  /** `mkMsg`: the given providers merged. */
  function MkMsg<V>(level: Level, descr: string, kvs: seq<KVer<V>>): (r: Message<V>)
    ensures r.level == level && r.descr == descr && r.kver.Merger?
  {
    Message(level, descr, Merge(kvs))
  }

  /** A new logger drops Debug messages and lets every predefined more severe level through. */
  lemma NewLoggerFiltersDebug<H, V>(handler: H, descr: string, kvs: seq<KVer<V>>)
    ensures Log(NewLogger<H, V>(handler), MkMsg(DebugLevel, descr, kvs)).None?
    ensures forall lvl :: lvl in [InfoLevel, WarnLevel, ErrorLevel, FatalLevel] ==>
      Log(NewLogger<H, V>(handler), MkMsg(lvl, descr, kvs)).Some?
  {
  }

  /** Raising the maximum never drops a message that passed before. */
  lemma FilterMonotone<H, V>(l: Logger<H, V>, msg: Message<V>, i: nat, j: nat)
    requires i <= j && Log(WithMaxLevelUint(l, i), msg).Some?
    ensures Log(WithMaxLevelUint(l, j), msg).Some?
  {
  }

  /** `WithMaxLevelUint`: a copy with a new maximum, identical otherwise. */
  function WithMaxLevelUint<H, V>(l: Logger<H, V>, i: nat): (r: Logger<H, V>)
    ensures r.maxLevel == i && r.handler == l.handler && r.kv == l.kv
  {
    l.(maxLevel := i)
  }

  /** `WithMaxLevel`: the maximum taken from a level. */
  function WithMaxLevel<H, V>(l: Logger<H, V>, lvl: Level): (r: Logger<H, V>)
    ensures r.maxLevel == lvl.severity && r.handler == l.handler && r.kv == l.kv
  {
    WithMaxLevelUint(l, lvl.severity)
  }

  /** After `WithMaxLevel(lvl)` a message passes exactly when it is at least as severe as `lvl`. */
  lemma WithMaxLevelFilters<H, V>(l: Logger<H, V>, lvl: Level, msg: Message<V>)
    ensures Log(WithMaxLevel(l, lvl), msg).Some? <==> msg.level.severity <= lvl.severity
  {
  }

  /** `WithHandler`: a copy with a new handler, identical otherwise. */
  function WithHandler<H, V>(l: Logger<H, V>, h: H): (r: Logger<H, V>)
    ensures r.handler == h && r.maxLevel == l.maxLevel && r.kv == l.kv
  {
    l.(handler := h)
  }

  /** `WithKV`: a copy whose base context is the old one with `kvs` layered over it. */
  function WithKV<H, V>(l: Logger<H, V>, kvs: seq<KVer<V>>): (r: Logger<H, V>)
    ensures r.handler == l.handler && r.maxLevel == l.maxLevel
    ensures Contents(r.kv) == Layer(Contents(l.kv), ContentsAll(kvs))
  {
    MergerContents(l.kv, kvs);
    l.(kv := MergeInto(l.kv, kvs))
  }

  /** Two `WithKV` calls amount to one with both sets, the later winning. */
  lemma WithKVTwice<H, V>(l: Logger<H, V>, xs: seq<KVer<V>>, ys: seq<KVer<V>>)
    ensures Contents(WithKV(WithKV(l, xs), ys).kv) == Contents(WithKV(l, xs + ys).kv)
  {
    LayerAppend(Contents(l.kv), ContentsAll(xs), ContentsAll(ys));
    ContentsAllAppend(xs, ys);
  }

  /** On a new logger, `WithKV(kvs)` gives the base context `Merge(kvs)` would. */
  lemma WithKVOnNewLogger<H, V>(handler: H, kvs: seq<KVer<V>>)
    ensures Contents(WithKV(NewLogger<H, V>(handler), kvs).kv) == Contents(Merge(kvs))
  {
    MergeIsLayering(kvs);
  }
}
