/**
  What the command-line tokeniser guarantees: the two spellings of a valued
  flag agree, booleans take no value, a pending flag swallows the next
  argument whatever it is, and the error cases of the source.
 */
module CliLaws {
  import opened Basics
  import opened Strings
  import opened Params
  import opened Cli

  /** Feeding two argument lists one after the other is feeding their concatenation. */
  lemma {:induction false} FeedAppend(su: Setup, r: Run, a: seq<string>, b: seq<string>)
    ensures Feed(su, r, a + b) == Feed(su, Feed(su, r, a), b)
    decreases |a|
  {
    if |a| == 0 {
      assert a + b == b;
    } else if r.Running? {
      assert (a + b)[1..] == a[1..] + b;
      FeedAppend(su, Step(su, r.state, r.out, a[0]), a[1..], b);
    } else {
      HaltedStays(su, r, b);
    }
  }

  /** Once stopped, the tokeniser ignores the remaining arguments. */
  lemma {:induction false} HaltedStays(su: Setup, r: Run, args: seq<string>)
    requires r.Halted?
    ensures Feed(su, r, args) == r
  {
  }

  /**
    Values come out in argument order: the values produced by a prefix of the
    arguments begin the values produced by the whole list.
   */
  lemma {:induction false} OutputsOnlyGrow(su: Setup, st: Scan, out: seq<ParamValue>, args: seq<string>)
    ensures Feed(su, Running(st, out), args).Running? ==>
      |out| <= |Feed(su, Running(st, out), args).out| && Feed(su, Running(st, out), args).out[..|out|] == out
    decreases |args|
  {
    if |args| > 0 {
      var s := Step(su, st, out, args[0]);
      if s.Running? {
        OutputsOnlyGrow(su, s.state, s.out, args[1..]);
        assert s.out[..|out|] == out;
      }
    }
  }

  /** The flag map `Parse` builds from `cfg` and the help switch of `cli`. */
  function SetupOf(cli: SourceCli, cfg: Cfg): Setup
    requires CliParamVals(cfg).Ok?
  {
    Setup(CliParamVals(cfg).value, !cli.disableHelpPage)
  }

  /**
    Once the flag map is built, `Parse` is the tokeniser run over the
    arguments from the scanning state; with `FeedAppend`, the laws below
    about a run part-way through apply to any position in the list.
   */
  lemma ParseRunsTokeniser(cli: SourceCli, cfg: Cfg)
    requires CliParamVals(cfg).Ok?
    ensures Parse(cli, cfg) == Finish(Feed(SetupOf(cli, cfg), Running(Scanning, []), cli.args))
  {
  }

  /** One argument, then the rest. */
  lemma FeedCons(su: Setup, r: Run, a: string, rest: seq<string>)
    requires r.Running?
    ensures Feed(su, r, [a] + rest) == Feed(su, Step(su, r.state, r.out, a), rest)
  {
    assert ([a] + rest)[1..] == rest;
  }

  /** The argument `k=v` looks up flag `k` with value `v`. */
  lemma LookupWithValue(pvM: map<string, ParamValue>, k: string, v: string)
    requires NoSepInKeys(pvM) && k in pvM
    ensures Lookup(pvM, k + [ValSep] + v) == WithValue(k, pvM[k], v)
  {
    var arg := k + [ValSep] + v;
    assert KeyMatches(k, arg) by {
      assert arg[..|k| + 1] == k + [ValSep];
    }
    assert Contains(arg, ValSep) by {
      assert arg[|k|] == ValSep;
    }
    KeyMatchShape(k, arg);
    assert arg[|k| + 1..] == v;
  }

  /** The argument `k=v` is never `-h`. */
  lemma ValuedArgIsNotHelp(k: string, v: string)
    ensures k + [ValSep] + v != HelpArg
  {
    assert (k + [ValSep] + v)[|k|] == ValSep;
  }

  /**
    For a flag that is not a boolean, `--k v` and `--k=v` in scanning
    position produce the same single value and leave the tokeniser in the
    same place.
   */
  lemma SpaceAndEqualsAgree(su: Setup, out: seq<ParamValue>, k: string, v: string, after: seq<string>)
    requires NoSepInKeys(su.pvM) && k in su.pvM && !su.pvM[k].param.isBool && k != HelpArg
    ensures var pv := su.pvM[k];
      var done := Running(Scanning, out + [pv.(value := EncodeValue(pv.param, v))]);
      && Feed(su, Running(Scanning, out), [k, v] + after) == Feed(su, done, after)
      && Feed(su, Running(Scanning, out), [k + [ValSep] + v] + after) == Feed(su, done, after)
  {
    var pv := su.pvM[k];
    FeedCons(su, Running(Scanning, out), k, [v] + after);
    assert [k, v] + after == [k] + ([v] + after);
    FeedCons(su, Running(Awaiting(k, pv), out), v, after);
    LookupWithValue(su.pvM, k, v);
    ValuedArgIsNotHelp(k, v);
    FeedCons(su, Running(Scanning, out), k + [ValSep] + v, after);
  }

  /** The whole argument list `[k, v]` and the one argument `k=v` parse to the same single value. */
  lemma ValuedFlagAlone(su: Setup, k: string, v: string)
    requires NoSepInKeys(su.pvM) && k in su.pvM && !su.pvM[k].param.isBool && k != HelpArg
    ensures var pv := su.pvM[k];
      && Finish(Feed(su, Running(Scanning, []), [k, v])) == Parsed([pv.(value := EncodeValue(pv.param, v))])
      && Finish(Feed(su, Running(Scanning, []), [k + [ValSep] + v])) == Parsed([pv.(value := EncodeValue(pv.param, v))])
  {
    SpaceAndEqualsAgree(su, [], k, v, []);
    assert [k, v] + [] == [k, v];
    assert [k + [ValSep] + v] + [] == [k + [ValSep] + v];
  }

  /**
    A boolean flag on its own sets the value `true`; written `--k=x` it is
    the error that a boolean cannot have a value, and parsing stops.
   */
  lemma BooleanFlag(su: Setup, out: seq<ParamValue>, k: string, x: string, after: seq<string>)
    requires NoSepInKeys(su.pvM) && k in su.pvM && su.pvM[k].param.isBool && k != HelpArg
    ensures var pv := su.pvM[k];
      Feed(su, Running(Scanning, out), [k] + after) == Feed(su, Running(Scanning, out + [pv.(value := "true")]), after)
    ensures Feed(su, Running(Scanning, out), [k + [ValSep] + x] + after) == Halted(Failed(BoolWithValue(k + [ValSep] + x)))
  {
    FeedCons(su, Running(Scanning, out), k, after);
    LookupWithValue(su.pvM, k, x);
    ValuedArgIsNotHelp(k, x);
    FeedCons(su, Running(Scanning, out), k + [ValSep] + x, after);
    HaltedStays(su, Halted(Failed(BoolWithValue(k + [ValSep] + x))), after);
  }

  /**
    While a flag waits for its value, the next argument is that value
    verbatim, even when it is `-h` or looks like a flag.
   */
  lemma PendingTakesNextVerbatim(su: Setup, out: seq<ParamValue>, k: string, x: string, after: seq<string>)
    requires k in su.pvM && !su.pvM[k].param.isBool && k != HelpArg
    ensures var pv := su.pvM[k];
      Feed(su, Running(Scanning, out), [k, x] + after)
      == Feed(su, Running(Scanning, out + [pv.(value := EncodeValue(pv.param, x))]), after)
  {
    var pv := su.pvM[k];
    assert [k, x] + after == [k] + ([x] + after);
    FeedCons(su, Running(Scanning, out), k, [x] + after);
    FeedCons(su, Running(Awaiting(k, pv), out), x, after);
  }

  /** A valued flag as the last argument is the error that it expected a value. */
  lemma DanglingFlag(su: Setup, out: seq<ParamValue>, k: string)
    requires k in su.pvM && !su.pvM[k].param.isBool && k != HelpArg
    ensures Finish(Feed(su, Running(Scanning, out), [k])) == Failed(ExpectedValue(k))
  {
    FeedCons(su, Running(Scanning, out), k, []);
  }

  /**
    An argument that is not a pending value, not `-h` while help is on, and
    matches no flag either exactly or as `flag=` is an unexpected parameter;
    nothing after it is looked at.
   */
  lemma UnexpectedArgument(su: Setup, out: seq<ParamValue>, arg: string, after: seq<string>)
    requires NoSepInKeys(su.pvM) && forall k :: k in su.pvM ==> !KeyMatches(k, arg)
    requires !su.helpEnabled || arg != HelpArg
    ensures Feed(su, Running(Scanning, out), [arg] + after) == Halted(Failed(UnexpectedParam(arg)))
  {
    LookupIsKeySearch(su.pvM, arg);
    FeedCons(su, Running(Scanning, out), arg, after);
    HaltedStays(su, Halted(Failed(UnexpectedParam(arg))), after);
  }

  /** `-h` while scanning and with help on stops parsing and shows the page. */
  lemma HelpRequested(su: Setup, out: seq<ParamValue>, after: seq<string>)
    requires su.helpEnabled
    ensures Feed(su, Running(Scanning, out), [HelpArg] + after) == Halted(Help(HelpPage(su.pvM)))
  {
    FeedCons(su, Running(Scanning, out), HelpArg, after);
    HaltedStays(su, Halted(Help(HelpPage(su.pvM))), after);
  }

  // ---------------------------------------------------------------------
  // The help page

  /** The blocks of two flag lists in a row are the blocks of the first, then those of the second. */
  lemma {:induction false} HelpEntriesAppend(xs: seq<string>, ys: seq<string>, pvM: map<string, ParamValue>)
    requires forall k :: k in xs ==> k in pvM
    requires forall k :: k in ys ==> k in pvM
    ensures HelpEntries(xs + ys, pvM) == HelpEntries(xs, pvM) + HelpEntries(ys, pvM)
    decreases |xs|
  {
    if |xs| > 0 {
      assert (xs + ys)[0] == xs[0] && (xs + ys)[1..] == xs[1..] + ys;
      HelpEntriesAppend(xs[1..], ys, pvM);
    } else {
      assert xs + ys == ys;
    }
  }

  /**
    Every flag of the map has its block on the help page: a line holding the
    flag and its note — `(Flag)` for a boolean, `(Default: d)` for a
    non-empty default, nothing otherwise — then, when the option has a
    usage text, a tab-indented line holding it.
   */
  lemma HelpListsEveryFlag(pvM: map<string, ParamValue>, k: string)
    requires k in pvM
    ensures var page := HelpPage(pvM); var p := pvM[k].param;
      var note := if p.isBool then " (Flag)"
        else if p.default.Some? && p.default.value != "" then " (Default: " + p.default.value + ")"
        else "";
      var usage := if p.usage != "" then "\t" + p.usage + "\n" else "";
      exists o :: 0 <= o <= |page| && HasPrefix(page[o..], "\n" + k + note + "\n" + usage)
  {
    var keys := SortedSet(pvM.Keys);
    assert k in keys;
    var i :| 0 <= i < |keys| && keys[i] == k;
    FlagAt(keys, pvM, i);
    var o := |HelpEntries(keys[..i], pvM)|;
    assert HelpPage(pvM) == HelpEntries(keys, pvM) + "\n";
    assert HasPrefix(HelpPage(pvM)[o..], HelpEntry(k, pvM[k]));
  }

  /** In the blocks of `keys`, the block of `keys[i]` starts right after those of the flags before it. */
  lemma FlagAt(keys: seq<string>, pvM: map<string, ParamValue>, i: nat)
    requires i < |keys| && forall k :: k in keys ==> k in pvM
    ensures var page := HelpEntries(keys, pvM) + "\n"; var o := |HelpEntries(keys[..i], pvM)|;
      o <= |page| && HasPrefix(page[o..], HelpEntry(keys[i], pvM[keys[i]]))
  {
    assert keys == keys[..i] + keys[i..];
    HelpEntriesAppend(keys[..i], keys[i..], pvM);
    var before := HelpEntries(keys[..i], pvM);
    var rest := HelpEntries(keys[i..], pvM) + "\n";
    EntryStartsBlocks(keys[i..], pvM);
    var page := HelpEntries(keys, pvM) + "\n";
    assert page == before + rest;
    assert page[|before|..] == rest;
  }

  lemma EntryStartsBlocks(keys: seq<string>, pvM: map<string, ParamValue>)
    requires |keys| > 0 && forall k :: k in keys ==> k in pvM
    ensures HasPrefix(HelpEntries(keys, pvM) + "\n", HelpEntry(keys[0], pvM[keys[0]]))
  {
    var entry := HelpEntry(keys[0], pvM[keys[0]]);
    var r := HelpEntries(keys, pvM) + "\n";
    assert r == entry + (HelpEntries(keys[1..], pvM) + "\n");
    assert r[..|entry|] == entry;
  }

  /**
    The blocks come in ascending flag order. With `keys` the sorted flags,
    `a` at position `i` and `b` at position `j > i`, the block of `a` starts
    right after the blocks of `keys[..i]`, the block of `b` right after those
    of `keys[..j]`, and the whole block of `a` ends before that of `b` begins.
   */
  lemma HelpBlocksAscend(pvM: map<string, ParamValue>, a: string, b: string) returns (i: nat, j: nat, oa: nat, ob: nat)
    requires a in pvM && b in pvM && Less(a, b)
    ensures i < j && oa + |HelpEntry(a, pvM[a])| <= ob
    ensures var keys := SortedSet(pvM.Keys);
      i < j < |keys| && keys[i] == a && keys[j] == b
      && oa == |HelpEntries(keys[..i], pvM)| && ob == |HelpEntries(keys[..j], pvM)|
    ensures var page := HelpPage(pvM);
      && oa <= ob <= |page|
      && HasPrefix(page[oa..], HelpEntry(a, pvM[a])) && HasPrefix(page[ob..], HelpEntry(b, pvM[b]))
  {
    var keys := SortedSet(pvM.Keys);
    i, j := IndicesInOrder(keys, a, b);
    assert HelpPage(pvM) == HelpEntries(keys, pvM) + "\n";
    FlagAt(keys, pvM, i);
    FlagAt(keys, pvM, j);
    BlocksGrow(keys, pvM, i, j);
    oa := |HelpEntries(keys[..i], pvM)|;
    ob := |HelpEntries(keys[..j], pvM)|;
  }

  /** In an ascending list holding `a` and `b` with `a` below `b`, `a` sits to the left of `b`. */
  lemma IndicesInOrder(keys: seq<string>, a: string, b: string) returns (i: nat, j: nat)
    requires StrictlySorted(keys) && a in keys && b in keys && Less(a, b)
    ensures i < j < |keys| && keys[i] == a && keys[j] == b
  {
    i :| 0 <= i < |keys| && keys[i] == a;
    j :| 0 <= j < |keys| && keys[j] == b;
    if j == i {
      LessIrreflexive(a);
    } else if j < i {
      LessAsymmetric(b, a);
    }
  }

  /** Every block is non-empty, so more flags mean a longer stretch of blocks, by at least the block of `keys[i]`. */
  lemma BlocksGrow(keys: seq<string>, pvM: map<string, ParamValue>, i: nat, j: nat)
    requires i < j <= |keys| && forall k :: k in keys ==> k in pvM
    ensures |HelpEntries(keys[..i], pvM)| < |HelpEntries(keys[..i], pvM)| + |HelpEntry(keys[i], pvM[keys[i]])| <= |HelpEntries(keys[..j], pvM)|
  {
    assert keys[..j] == keys[..i] + keys[i..j];
    HelpEntriesAppend(keys[..i], keys[i..j], pvM);
    assert HelpEntries(keys[i..j], pvM) == HelpEntry(keys[i], pvM[keys[i]]) + HelpEntries(keys[i..j][1..], pvM);
  }

  /** With no parameters the page is a single blank line. */
  lemma EmptyHelpPage(pvM: map<string, ParamValue>)
    requires pvM == map[]
    ensures HelpPage(pvM) == "\n"
  {
    assert SortedSet(pvM.Keys) == [];
  }

  /**
    However Go's map iteration happened to collect the flags, sorting them
    gives the same page.
   */
  lemma HelpIgnoresMapOrder(pvM: map<string, ParamValue>, collected: seq<string>)
    requires Unique(collected) && forall k :: k in collected <==> k in pvM
    ensures HelpPage(pvM) == HelpEntries(SortStrings(collected), pvM) + "\n"
  {
    SortIgnoresCollectionOrder(pvM.Keys, collected);
  }
}
