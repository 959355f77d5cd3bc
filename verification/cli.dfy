/**
  The command-line source (`SourceCLI` in mcfg/cli.go): deriving one flag per
  parameter of a configuration tree, tokenising the argument list into
  parameter values, and rendering the help page.
 */
module Cli {
  import opened Basics
  import opened Strings
  import opened Params

  const KeyJoin: string := "-"
  const KeyPrefix: string := "--"
  const ValSep: char := '='
  const HelpArg: string := "-h"

  /** A configuration scope: its path, its own parameters and its child scopes. */
  datatype Cfg = Cfg(path: seq<string>, params: seq<Param>, children: seq<Cfg>)

  /** The failures `Parse` and `cliParamVals` report, one per message of the source. */
  datatype CliError =
    | SameCliArg(key: string)
    | UnexpectedParam(arg: string)
    | BoolWithValue(arg: string)
    | ExpectedValue(key: string)

  /** The flag that sets parameter `name` of the scope at `path`. */
  function CliKey(path: seq<string>, name: string): string
  {
    KeyPrefix + (if |path| > 0 then Join(path, KeyJoin) + KeyJoin else "") + name
  }

  lemma {:induction false} JoinSnoc(segs: seq<string>, x: string, sep: string)
    requires |segs| > 0
    ensures Join(segs + [x], sep) == Join(segs, sep) + sep + x
    decreases |segs|
  {
    if |segs| > 1 {
      assert (segs + [x])[1..] == segs[1..] + [x];
      JoinSnoc(segs[1..], x, sep);
    } else {
      assert segs + [x] == [segs[0], x];
    }
  }

  /** The flag is `--` followed by the path and the name, all joined by dashes. */
  lemma CliKeyIsDashJoin(path: seq<string>, name: string)
    ensures CliKey(path, name) == KeyPrefix + Join(path + [name], KeyJoin)
    ensures HasPrefix(CliKey(path, name), KeyPrefix)
  {
    if |path| > 0 {
      JoinSnoc(path, name, KeyJoin);
    } else {
      assert path + [name] == [name];
    }
  }

  // ---------------------------------------------------------------------
  // cliParamVals

  /** The value template for one parameter: no value yet. */
  function Template(p: Param, path: seq<string>): ParamValue
  {
    ParamValue(p, path, "")
  }

  /** The flags of one scope's own parameters; a later parameter with the same flag replaces an earlier one. */
  function OwnVals(path: seq<string>, params: seq<Param>): (m: map<string, ParamValue>)
    ensures m.Keys == set p | p in params :: CliKey(path, p.name)
    ensures forall k :: k in m ==> exists p :: p in params && CliKey(path, p.name) == k && m[k] == Template(p, path)
    ensures forall i :: 0 <= i < |params| && LastWithFlag(path, params, i) ==> m[CliKey(path, params[i].name)] == Template(params[i], path)
  {
    AssignShape(path, params);
    LastClaimsWin(path, params);
    Assign(path, params)
  }

  /** The assignment loop over the parameters, in declaration order. */
  function Assign(path: seq<string>, params: seq<Param>): map<string, ParamValue>
    decreases |params|
  {
    if |params| == 0 then map[]
    else Assign(path, params[..|params| - 1])[CliKey(path, params[|params| - 1].name) := Template(params[|params| - 1], path)]
  }

  lemma {:induction false} AssignShape(path: seq<string>, params: seq<Param>)
    ensures Assign(path, params).Keys == set p | p in params :: CliKey(path, p.name)
    ensures var m := Assign(path, params);
      forall k :: k in m ==> exists p :: p in params && CliKey(path, p.name) == k && m[k] == Template(p, path)
    decreases |params|
  {
    if |params| > 0 {
      var init := params[..|params| - 1];
      AssignShape(path, init);
      assert forall p :: p in params <==> p in init || p == params[|params| - 1];
    }
  }

  /** No parameter after `params[i]` has the same flag. */
  predicate LastWithFlag(path: seq<string>, params: seq<Param>, i: nat)
    requires i < |params|
  {
    forall j :: i < j < |params| ==> CliKey(path, params[j].name) != CliKey(path, params[i].name)
  }

  lemma LastClaimsWin(path: seq<string>, params: seq<Param>)
    ensures var m := Assign(path, params);
      forall i :: 0 <= i < |params| && LastWithFlag(path, params, i) ==>
        CliKey(path, params[i].name) in m && m[CliKey(path, params[i].name)] == Template(params[i], path)
  {
    forall i | 0 <= i < |params| && LastWithFlag(path, params, i)
      ensures CliKey(path, params[i].name) in Assign(path, params)
        && Assign(path, params)[CliKey(path, params[i].name)] == Template(params[i], path)
    {
      AssignLastWins(path, params, i);
    }
  }

  /**
    The last parameter to claim a flag wins: the map holds its template, as
    the source's assignment in declaration order leaves it.
   */
  lemma {:induction false} AssignLastWins(path: seq<string>, params: seq<Param>, i: nat)
    requires i < |params| && LastWithFlag(path, params, i)
    ensures var m := Assign(path, params); var k := CliKey(path, params[i].name);
      k in m && m[k] == Template(params[i], path)
    decreases |params|
  {
    var n := |params| - 1;
    var init := params[..n];
    var lastKey := CliKey(path, params[n].name);
    assert Assign(path, params) == Assign(path, init)[lastKey := Template(params[n], path)];
    if i < n {
      assert init[i] == params[i];
      assert lastKey != CliKey(path, params[i].name);
      forall j | i < j < |init|
        ensures CliKey(path, init[j].name) != CliKey(path, init[i].name)
      {
        assert init[j] == params[j];
      }
      AssignLastWins(path, init, i);
    }
  }

  /** Every flag the scope and its descendants declare. */
  function SubtreeKeys(c: Cfg): set<string>
    decreases c, 1
  {
    (set p | p in c.params :: CliKey(c.path, p.name)) + KeysOf(c.children)
  }

  function KeysOf(kids: seq<Cfg>): set<string>
    decreases kids, 0
  {
    if |kids| == 0 then {} else SubtreeKeys(kids[0]) + KeysOf(kids[1..])
  }

  /**
    A flag is declared twice in different scopes of the subtree: some child
    clashes within itself, a scope's own flag reappears below it, or two
    sibling subtrees share a flag.
   */
  predicate Clashes(c: Cfg)
    decreases c, 1
  {
    || ClashesIn(c.children)
    || (set p | p in c.params :: CliKey(c.path, p.name)) * KeysOf(c.children) != {}
  }

  /** Some subtree of `kids` clashes, or two of them share a flag. */
  predicate ClashesIn(kids: seq<Cfg>)
    decreases kids, 0
  {
    && |kids| > 0
    && (Clashes(kids[0]) || SubtreeKeys(kids[0]) * KeysOf(kids[1..]) != {} || ClashesIn(kids[1..]))
  }

  /**
    Flag `k` is declared twice in different scopes of the subtree: within
    some child's subtree, by the scope itself and below it, or in two
    sibling subtrees.
   */
  predicate ClashesOn(c: Cfg, k: string)
    decreases c, 1
  {
    || ClashesInOn(c.children, k)
    || (k in (set p | p in c.params :: CliKey(c.path, p.name)) && k in KeysOf(c.children))
  }

  predicate ClashesInOn(kids: seq<Cfg>, k: string)
    decreases kids, 0
  {
    && |kids| > 0
    && (ClashesOn(kids[0], k) || (k in SubtreeKeys(kids[0]) && k in KeysOf(kids[1..])) || ClashesInOn(kids[1..], k))
  }

  /** A subtree clashes exactly when some flag is declared twice in it. */
  lemma ClashesHasWitness(c: Cfg)
    ensures Clashes(c) <==> exists k :: ClashesOn(c, k)
  {
    if Clashes(c) {
      var k := ClashWitness(c);
      assert exists k' :: ClashesOn(c, k');
    }
    if exists k :: ClashesOn(c, k) {
      var k :| ClashesOn(c, k);
      WitnessClashes(c, k);
    }
    assert (exists k :: ClashesOn(c, k)) ==> Clashes(c);
  }

  /** A flag declared twice in a clashing subtree. */
  lemma {:induction false} ClashWitness(c: Cfg) returns (k: string)
    requires Clashes(c)
    ensures ClashesOn(c, k)
    decreases c, 1
  {
    if ClashesIn(c.children) {
      k := ClashInWitness(c.children);
    } else {
      var own := set p | p in c.params :: CliKey(c.path, p.name);
      k :| k in own * KeysOf(c.children);
    }
  }

  lemma {:induction false} ClashInWitness(kids: seq<Cfg>) returns (k: string)
    requires ClashesIn(kids)
    ensures ClashesInOn(kids, k)
    decreases kids, 0
  {
    if Clashes(kids[0]) {
      k := ClashWitness(kids[0]);
    } else if SubtreeKeys(kids[0]) * KeysOf(kids[1..]) != {} {
      k :| k in SubtreeKeys(kids[0]) * KeysOf(kids[1..]);
    } else {
      k := ClashInWitness(kids[1..]);
    }
  }

  /** A flag declared twice makes the subtree clash. */
  lemma {:induction false} WitnessClashes(c: Cfg, k: string)
    requires ClashesOn(c, k)
    ensures Clashes(c)
    decreases c, 1
  {
    if ClashesInOn(c.children, k) {
      WitnessClashesIn(c.children, k);
    } else {
      assert k in (set p | p in c.params :: CliKey(c.path, p.name)) * KeysOf(c.children);
    }
  }

  lemma {:induction false} WitnessClashesIn(kids: seq<Cfg>, k: string)
    requires ClashesInOn(kids, k)
    ensures ClashesIn(kids)
    decreases kids, 0
  {
    if ClashesOn(kids[0], k) {
      WitnessClashes(kids[0], k);
    } else if ClashesInOn(kids[1..], k) {
      WitnessClashesIn(kids[1..], k);
    } else {
      assert k in SubtreeKeys(kids[0]) * KeysOf(kids[1..]);
    }
  }

  /** `m[k]` is the template of some parameter of the subtree whose flag is `k`. */
  predicate Declares(c: Cfg, k: string, pv: ParamValue)
    decreases c, 1
  {
    || (exists p :: p in c.params && CliKey(c.path, p.name) == k && pv == Template(p, c.path))
    || DeclaresIn(c.children, k, pv)
  }

  predicate DeclaresIn(kids: seq<Cfg>, k: string, pv: ParamValue)
    decreases kids, 0
  {
    |kids| > 0 && (Declares(kids[0], k, pv) || DeclaresIn(kids[1..], k, pv))
  }

  /**
    `cliParamVals`: the map from flag to value template for the whole
    subtree, or the error naming a flag two different scopes declare.
   */
  function CliParamVals(c: Cfg): (r: Result<map<string, ParamValue>, CliError>)
    ensures r.Ok? <==> !Clashes(c)
    ensures r.Ok? ==> r.value.Keys == SubtreeKeys(c)
    ensures r.Ok? ==> forall k :: k in r.value ==> Declares(c, k, r.value[k])
    ensures r.Err? ==> r.error.SameCliArg? && ClashesOn(c, r.error.key)
    decreases c, 1
  {
    var own := OwnVals(c.path, c.params);
    MergeChildren(own, c.children)
  }

  /**
    Adds the children's maps one after the other to `m`, failing on the
    first child that fails or that shares a flag with what is already there.
    The flag reported is the least shared one (Go reports whichever its map
    iteration meets first).
   */
  function MergeChildren(m: map<string, ParamValue>, kids: seq<Cfg>): (r: Result<map<string, ParamValue>, CliError>)
    ensures r.Ok? <==> !ClashesIn(kids) && m.Keys * KeysOf(kids) == {}
    ensures r.Ok? ==> r.value.Keys == m.Keys + KeysOf(kids)
    ensures r.Ok? ==> forall k :: k in r.value ==> (k in m && r.value[k] == m[k]) || DeclaresIn(kids, k, r.value[k])
    ensures r.Err? ==> (r.error.SameCliArg? &&
      ((r.error.key in m && r.error.key in KeysOf(kids)) || ClashesInOn(kids, r.error.key)))
    decreases kids, 0
  {
    if |kids| == 0 then Ok(m)
    else match CliParamVals(kids[0])
      case Err(e) => Err(e)
      case Ok(cm) =>
        var shared := m.Keys * cm.Keys;
        if shared != {} then Err(SameCliArg(Least(shared)))
        else MergeChildren(m + cm, kids[1..])
  }

  // ---------------------------------------------------------------------
  // Parse

  /** What an argument names when it is not a pending value. */
  datatype Match =
    | NoMatch
    | Exact(key: string, pv: ParamValue)
    | WithValue(key: string, pv: ParamValue, value: string)

  /**
    The flag an argument names: the argument itself, or the part before its
    first `=` with the rest as the value. When no flag contains `=` this is
    exactly the search the source runs over the map (see `LookupIsKeySearch`).
   */
  function Lookup(pvM: map<string, ParamValue>, arg: string): Match
  {
    if arg in pvM then Exact(arg, pvM[arg])
    else match FirstIndex(arg, ValSep)
      case None => NoMatch
      case Some(i) =>
        if arg[..i] in pvM then WithValue(arg[..i], pvM[arg[..i]], arg[i + 1..]) else NoMatch
  }

  /** No flag contains `=`, so at most one flag matches any argument. */
  predicate NoSepInKeys(pvM: map<string, ParamValue>)
  {
    forall k :: k in pvM ==> !Contains(k, ValSep)
  }

  /** The source's loop: `arg == key`, or `arg` starts with `key + "="`. */
  predicate KeyMatches(key: string, arg: string)
  {
    arg == key || HasPrefix(arg, key + [ValSep])
  }

  /** How an argument matched by a `=`-free flag looks. */
  lemma KeyMatchShape(key: string, arg: string)
    requires !Contains(key, ValSep) && KeyMatches(key, arg)
    ensures arg == key ==> !Contains(arg, ValSep)
    ensures arg != key ==> FirstIndex(arg, ValSep) == Some(|key|) && arg[..|key|] == key
  {
    if arg != key {
      assert forall j :: 0 <= j < |key| ==> arg[j] == key[j];
      assert arg[|key|] == ValSep;
    }
  }

  /** `Lookup` finds a flag exactly when the source's search does, and the same one. */
  lemma LookupIsKeySearch(pvM: map<string, ParamValue>, arg: string)
    requires NoSepInKeys(pvM)
    ensures Lookup(pvM, arg).NoMatch? <==> forall k :: k in pvM ==> !KeyMatches(k, arg)
    ensures Lookup(pvM, arg).Exact? ==> arg in pvM && Lookup(pvM, arg) == Exact(arg, pvM[arg])
    ensures Lookup(pvM, arg).WithValue? ==>
      var m := Lookup(pvM, arg);
      m.key in pvM && m.pv == pvM[m.key] && arg == m.key + [ValSep] + m.value
    ensures forall k1, k2 :: k1 in pvM && k2 in pvM && KeyMatches(k1, arg) && KeyMatches(k2, arg) ==> k1 == k2
  {
    forall k | k in pvM && KeyMatches(k, arg)
      ensures !Lookup(pvM, arg).NoMatch?
    {
      KeyMatchShape(k, arg);
    }
    if Lookup(pvM, arg).WithValue? {
      var i := FirstIndex(arg, ValSep).value;
      assert arg == arg[..i] + [ValSep] + arg[i + 1..];
      assert KeyMatches(arg[..i], arg);
    }
    forall k1, k2 | k1 in pvM && k2 in pvM && KeyMatches(k1, arg) && KeyMatches(k2, arg)
      ensures k1 == k2
    {
      KeyMatchShape(k1, arg);
      KeyMatchShape(k2, arg);
    }
  }

  /**
    The JSON text a raw command-line value becomes: a string parameter's
    value is wrapped in double quotes unless it already starts with one;
    every other value is passed through as written.
   */
  function EncodeValue(p: Param, raw: string): string
  {
    if p.isString && (raw == "" || raw[0] != '"') then "\"" + raw + "\"" else raw
  }

  /**
    A string parameter's value always begins with a quote. One that does not
    already begin with a quote is wrapped: a quote, the raw text, a quote.
    Other values are untouched.
   */
  lemma EncodeValueShape(p: Param, raw: string)
    ensures p.isString ==> |EncodeValue(p, raw)| > 0 && EncodeValue(p, raw)[0] == '"'
    ensures p.isString && |raw| > 0 && raw[0] == '"' ==> EncodeValue(p, raw) == raw
    ensures p.isString && (|raw| == 0 || raw[0] != '"') ==>
      |EncodeValue(p, raw)| == |raw| + 2 && EncodeValue(p, raw)[1..|raw| + 1] == raw
      && EncodeValue(p, raw)[|raw| + 1] == '"'
    ensures !p.isString ==> EncodeValue(p, raw) == raw
  {
  }

  /** The tokeniser's state between arguments. */
  datatype Scan = Scanning | Awaiting(key: string, pv: ParamValue)

  /** A finished parse: the values, the help page, or an error. */
  datatype Outcome =
    | Parsed(values: seq<ParamValue>)
    | Help(page: string)
    | Failed(error: CliError)

  /** The tokeniser part-way through the arguments, or stopped early. */
  datatype Run = Running(state: Scan, out: seq<ParamValue>) | Halted(outcome: Outcome)

  /** The parse-wide settings: the flag map and whether `-h` shows help. */
  datatype Setup = Setup(pvM: map<string, ParamValue>, helpEnabled: bool)

  /** One argument of the source's loop. */
  function Step(su: Setup, st: Scan, out: seq<ParamValue>, arg: string): Run
  {
    match st
    case Awaiting(_, pv) =>
      Running(Scanning, out + [pv.(value := EncodeValue(pv.param, arg))])
    case Scanning =>
      if su.helpEnabled && arg == HelpArg then Halted(Help(HelpPage(su.pvM)))
      else match Lookup(su.pvM, arg)
        case NoMatch => Halted(Failed(UnexpectedParam(arg)))
        case Exact(k, pv) =>
          if pv.param.isBool then Running(Scanning, out + [pv.(value := "true")])
          else Running(Awaiting(k, pv), out)
        case WithValue(_, pv, v) =>
          if pv.param.isBool then Halted(Failed(BoolWithValue(arg)))
          else Running(Scanning, out + [pv.(value := EncodeValue(pv.param, v))])
  }

  /** The loop over all arguments, from a given run. */
  function Feed(su: Setup, r: Run, args: seq<string>): Run
    decreases |args|
  {
    if |args| == 0 || r.Halted? then r
    else Feed(su, Step(su, r.state, r.out, args[0]), args[1..])
  }

  /** After the loop: a flag still waiting for its value is an error. */
  function Finish(r: Run): Outcome
  {
    match r
    case Halted(o) => o
    case Running(Awaiting(k, _), _) => Failed(ExpectedValue(k))
    case Running(Scanning, out) => Parsed(out)
  }

  /** The source's settings: the argument list and whether the help page is off. */
  datatype SourceCli = SourceCli(args: seq<string>, disableHelpPage: bool)

  /** `SourceCLI.Parse`. */
  function Parse(cli: SourceCli, cfg: Cfg): (r: Outcome)
    ensures CliParamVals(cfg).Err? ==> r == Failed(CliParamVals(cfg).error)
    ensures r.Parsed? ==> CliParamVals(cfg).Ok? && |r.values| <= |cli.args|
    ensures r.Parsed? ==> FromMap(CliParamVals(cfg).value, r.values)
    ensures r.Help? ==> !cli.disableHelpPage && HelpArg in cli.args
  {
    match CliParamVals(cfg)
    case Err(e) => Failed(e)
    case Ok(pvM) =>
      var su := Setup(pvM, !cli.disableHelpPage);
      var run := Feed(su, Running(Scanning, []), cli.args);
      FeedBounds(su, Scanning, [], cli.args);
      Finish(run)
  }

  /** Every value is the template of some flag of the map, with its value filled in. */
  predicate FromMap(pvM: map<string, ParamValue>, out: seq<ParamValue>)
  {
    forall i :: 0 <= i < |out| ==> exists k :: k in pvM && out[i] == pvM[k].(value := out[i].value)
  }

  /** A value awaited for flag `k` is that flag's own template. */
  predicate StateFromMap(pvM: map<string, ParamValue>, st: Scan)
  {
    st.Awaiting? ==> st.key in pvM && st.pv == pvM[st.key]
  }

  lemma {:induction false} FeedBounds(su: Setup, st: Scan, out: seq<ParamValue>, args: seq<string>)
    requires FromMap(su.pvM, out) && StateFromMap(su.pvM, st)
    ensures var r := Feed(su, Running(st, out), args);
      && (r.Running? ==> FromMap(su.pvM, r.out) && StateFromMap(su.pvM, r.state) && |r.out| <= |out| + |args|)
      && (r.Halted? && r.outcome.Help? ==> su.helpEnabled && HelpArg in args)
      && (r.Halted? ==> !r.outcome.Parsed?)
      && (r.Halted? && r.outcome.Failed? ==> !r.outcome.error.SameCliArg?)
    decreases |args|
  {
    if |args| > 0 {
      var s := Step(su, st, out, args[0]);
      if s.Running? {
        match Lookup(su.pvM, args[0]) {
          case NoMatch =>
          case Exact(k, pv) =>
          case WithValue(k, pv, v) =>
            assert pv == su.pvM[k];
        }
        FeedBounds(su, s.state, s.out, args[1..]);
      }
    }
  }

  // ---------------------------------------------------------------------
  // printHelp

  /** One option's block: the flag, its `(Flag)` or `(Default: …)` note, then its usage. */
  function HelpEntry(arg: string, pv: ParamValue): string
  {
    "\n" + arg
    + (if pv.param.isBool then " (Flag)"
       else if pv.param.default.Some? && pv.param.default.value != "" then " (Default: " + pv.param.default.value + ")"
       else "")
    + "\n"
    + (if pv.param.usage != "" then "\t" + pv.param.usage + "\n" else "")
  }

  /** The blocks of `keys`, in the order given. */
  function HelpEntries(keys: seq<string>, pvM: map<string, ParamValue>): string
    requires forall k :: k in keys ==> k in pvM
  {
    if |keys| == 0 then "" else HelpEntry(keys[0], pvM[keys[0]]) + HelpEntries(keys[1..], pvM)
  }

  /** `printHelp`: every option's block in ascending flag order, then a blank line. */
  function HelpPage(pvM: map<string, ParamValue>): string
  {
    HelpEntries(SortedSet(pvM.Keys), pvM) + "\n"
  }
}
