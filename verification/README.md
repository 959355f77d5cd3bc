# mediocre-go-lib core, modelled in Dafny

This project models four connected parts of the Go library
`mediocre-go-lib` and proves properties of the model.

- **Scopes** (package `mctx`). A tree of named scopes, each with a
  per-scope value store. The model covers `New`, `ChildOf`, `Path`, `Parent`,
  `Children`, `Root`, `BreadthFirstVisit`, `MutableValue` and
  `GetSetMutableValue`. The implementation of `mctx` is not part of this
  model. The behaviour modelled agrees with every assertion of its tests
  (mctx/ctx_test.go); where they leave a choice open, the choice is listed
  under "Left out". Nodes live in an arena and are named by handles, so a
  handle plays the part of Go's object identity.
- **The command-line source** (package `mcfg`, mcfg/cli.go). Each parameter
  of a configuration tree gets a flag, `--path-segments-name`.
  `cliParamVals` builds the flag map and rejects collisions. `Parse`
  tokenises the argument list into parameter values: `--k v` and `--k=v`,
  bare boolean flags, `-h` for help. `printHelp` renders the help page.
- **Collecting and populating parameters** (package `mcfg`,
  mcfg/mcfg.go). `collectParams` walks a scope's subtree and sorts what it
  finds with `sortParams`. `paramHash` names a parameter. `populate` does
  four things in order:
  1. it indexes the declarations, panicking on a duplicate;
  2. it asks the source for values;
  3. it keeps the last value per parameter and drops values aimed at
     nothing;
  4. it checks required parameters, and only then decodes values into
     their targets.
- **The logger's key/value algebra** (package `mlog`, mlog/mlog.go). This
  covers `Truncate`, `KV` copies and `Set`, `Merge`/`MergeInto` (rightmost
  wins), `Prefix`, the sorted `stringSlice`, the `DefaultFormat` line, the
  level filter of `Logger.Log`, and the copy-on-write builders `WithMaxLevel`,
  `WithHandler` and `WithKV`.

Modules, one per file:

- `Basics` holds `Option` and `Result`.
- `Strings` holds `Join`, prefixes, Go's string order, and sorted
  enumeration of a set.
- `Params` holds the shared records.
- `Scope` models `mctx`.
- `Cli` and `CliLaws` model mcfg/cli.go.
- `ParamOrder` models `sortParams`.
- `Collect` models `collectParams`.
- `Population` models `paramHash`, `populate` and `Populate`.
- `Logging` models mlog/mlog.go.

Three points of the code that shape the model:

- **Order of `sortParams`.** When one path runs out before the other, the
  comparator (mcfg/mcfg.go:29-32) puts the longer path first. So the
  parameters of a descendant scope sort before those of its ancestors.
  `ParamOrder.DescendantsFirst` states this.
- **Walk of `collectParams`.** The code (mcfg/mcfg.go:45-62) recurses
  depth-first and takes a scope's parameters before its children's. After
  sorting, the walk order no longer matters: `ParamOrder.SortedIsCanonical`
  and `Collect.PermutedDecls` show this.
- **Flag of `GetSetMutableValue`.** The tests (mctx/ctx_test.go:106-115)
  show what the boolean means: "call the function only when nothing is
  stored yet". The third argument is the store key.

## Model

| member | source | states |
|---|---|---|
| Strings.SortedSet | mcfg/cli.go:159-166 | the keys of a map collected and sorted with `<`: strictly ascending, exactly the members of the set, one per member |
| Strings.SortIgnoresCollectionOrder | mcfg/cli.go:159-166 | whatever order Go's map iteration collected the keys in, sorting them gives the same sequence |
| Strings.LessTotal | mcfg/mcfg.go:28 | Go's `<` on strings orders any two different strings one way or the other |
| Strings.LessTransitive | mcfg/mcfg.go:28 | Go's `<` on strings is transitive |
| Scope.New | mctx/ctx_test.go:11-18 | a new tree is well formed, holds only the root, whose path is empty, parent nil, children and store empty |
| Scope.ChildOf | mctx/ctx_test.go:10-55 | a child gets its parent's path plus its name, the parent as parent, no children and an empty store; the parent's children gain it under its name; every other node's path, parent, children and store are unchanged; the tree stays well formed |
| Scope.DepthOfChild | mctx/ctx_test.go:17-23 | a child's path is one name longer than its parent's |
| Scope.RootOfEveryNode | mctx/ctx_test.go:48-54 | `Root` of every node is the tree's root, which has no parent |
| Scope.ChildrenMatchParents | mctx/ctx_test.go:25-46 | `c` is listed by `Children(n)` under some name exactly when `Parent(c)` is `n`, and the name is `c`'s own |
| Scope.PathIdentifies | mctx/ctx_test.go:17-23 | two nodes with the same path are the same node |
| Scope.ChildList | mctx/ctx_test.go:25-38 | the children of a node as a list: exactly the nodes whose parent it is, each once |
| Scope.ReachedIsBelow | mctx/ctx_test.go:57-92 | a node the visit reaches lies below the start, strictly deeper unless it is the start |
| Scope.NextLevel | mctx/ctx_test.go:57-92 | the next level holds exactly the children of the nodes of this level that the visitor accepted, each once |
| Scope.NextLevelReached | mctx/ctx_test.go:57-92 | one level down holds exactly the reached nodes one deeper |
| Scope.BreadthFirstVisit | mctx/ctx_test.go:57-92 | the visit starts at the start node, visits each node once, visits exactly the nodes reachable through accepted ancestors (a rejected node's descendants are pruned), and never visits a deeper node before a shallower one |
| Scope.ShallowVisit | mctx/ctx_test.go:79-92 | with a visitor that rejects nodes deeper than one, the nodes it is called on and accepts are exactly the root and the root's direct children |
| Scope.GetSetMutableValue | mctx/ctx_test.go:95-118 | with the flag set and a value stored, that value is returned and nothing changes; otherwise the function's result on the stored value (nil when none) is stored and returned; no other key or node changes, nor the tree's shape |
| Scope.IncrementsCount | mctx/ctx_test.go:120-151 | `count` increments starting from nothing leave exactly `count` stored: no update is lost |
| Cli.CliKeyIsDashJoin | mcfg/cli.go:126-130 | a flag is `--` followed by the path segments and the name, joined by dashes |
| Cli.OwnVals | mcfg/cli.go:124-135 | one scope's flags: one per parameter, each mapped to the template value of a parameter with that flag; when two parameters of the scope share a flag, the later one's template is kept |
| Cli.AssignLastWins | mcfg/cli.go:124-133 | writing a scope's parameters into the map in order leaves each flag holding the template of the last parameter that claims it |
| Cli.CliParamVals | mcfg/cli.go:123-151 | succeeds exactly when no flag is declared in two scopes of the tree; then its keys are all flags of the tree and each maps to the parameter that declares it; a failure names a flag that is declared by a scope and again below it, or by two sibling subtrees |
| Cli.ClashesHasWitness | mcfg/cli.go:137-148 | a tree has a collision exactly when some single flag is declared by two of its scopes |
| Cli.MergeChildren | mcfg/cli.go:137-148 | adding the children's flag maps succeeds exactly when no child clashes and no child flag is already present; the result is the union; a failure names a flag that is both already present and a child's, or collides among the children |
| Cli.KeyMatchShape | mcfg/cli.go:66-81 | an argument matched by a flag is the flag itself, or the flag followed by `=` and a value |
| Cli.LookupIsKeySearch | mcfg/cli.go:66-85 | looking an argument up finds a flag exactly when the source's search over the map does, and the same flag; at most one flag matches an argument |
| Cli.EncodeValueShape | mcfg/cli.go:103-108 | a string parameter's value always starts with a quote; one already starting with a quote is kept, any other becomes a quote, the raw text and a closing quote; other values pass through unchanged |
| Cli.Parse | mcfg/cli.go:40-121 | a flag-map collision is reported before any argument is read; parsed values number at most the arguments and are each some flag's template with a value; help is only shown when enabled and `-h` was given |
| Cli.FeedBounds | mcfg/cli.go:58-116 | during the loop every value produced comes from the flag map, a pending flag is a flag of the map, and a stop is help or a per-argument error, never a collision |
| CliLaws.FeedAppend | mcfg/cli.go:58-116 | the loop over two argument lists in a row is the loop over their concatenation |
| CliLaws.OutputsOnlyGrow | mcfg/cli.go:110 | values already produced are never removed or changed by later arguments |
| CliLaws.ParseRunsTokeniser | mcfg/cli.go:40-58 | once the flag map is built, `Parse` is the tokeniser loop over the arguments from an empty state, followed by the final check |
| CliLaws.SpaceAndEqualsAgree | mcfg/cli.go:58-110 | `--k v` and `--k=v` produce the same value for a non-boolean flag and continue identically |
| CliLaws.ValuedFlagAlone | mcfg/cli.go:40-121 | for a lone valued flag, both spellings parse to the single value with the encoded text |
| CliLaws.BooleanFlag | mcfg/cli.go:89-95 | a bare boolean flag produces the value `true`; a boolean flag given a value is an error naming the argument |
| CliLaws.PendingTakesNextVerbatim | mcfg/cli.go:59-61 | after a valued flag the next argument is its value even when it looks like a flag or `-h` |
| CliLaws.DanglingFlag | mcfg/cli.go:117-119 | a valued flag at the end with no value is an error naming the flag |
| CliLaws.UnexpectedArgument | mcfg/cli.go:82-84 | an argument no flag matches, not `-h` with help on, stops parsing with an error naming it |
| CliLaws.HelpRequested | mcfg/cli.go:62-65 | `-h` with help enabled stops parsing and yields the help page for the flag map |
| CliLaws.HelpListsEveryFlag | mcfg/cli.go:182-194 | every flag of the map has its block on the help page. The block is a line with the flag and its note, then the usage line. The note is ` (Flag)` for a boolean, ` (Default: d)` for a non-empty default, and nothing otherwise. The usage line is the tab-indented usage text, and is absent when the usage is empty |
| CliLaws.HelpBlocksAscend | mcfg/cli.go:159-194 | for flags `a < b`, the block of `a` starts where the blocks of all flags sorted before it end, likewise for `b`, and the whole block of `a` ends before the block of `b` starts |
| CliLaws.FlagAt | mcfg/cli.go:166-194 | the block of the i-th sorted flag sits on the page right after the blocks of the flags before it |
| CliLaws.EmptyHelpPage | mcfg/cli.go:159-194 | with no flags the help page is a single newline |
| CliLaws.HelpIgnoresMapOrder | mcfg/cli.go:159-166 | the page lists flags in ascending order, whatever order the map yielded them in |
| ParamOrder.BeforeIsStrictTotalOrder | mcfg/mcfg.go:21-40 | the `sortParams` comparator is irreflexive, transitive, asymmetric and total on parameters with different path or name |
| ParamOrder.DescendantsFirst | mcfg/mcfg.go:29-32 | a parameter of a descendant scope sorts before one of its ancestor scope |
| ParamOrder.SamePathByName | mcfg/mcfg.go:27-28 | within one scope, parameters sort by name |
| ParamOrder.FirstDifferenceDecides | mcfg/mcfg.go:33-36 | where two paths first differ, that segment alone decides the order |
| ParamOrder.SortParams | mcfg/mcfg.go:21-40 | the result is ordered by the comparator and is a permutation of the input |
| ParamOrder.SortedIsCanonical | mcfg/mcfg.go:42-44 | two sorted arrangements of the same parameters with distinct identities are equal, so the unstable sort still gives one answer |
| Collect.LocalDecls | mcfg/mcfg.go:50-52 | a scope contributes exactly its own parameters, each with the scope's path |
| Collect.GatherFollowsWalk | mcfg/mcfg.go:48-58 | the recursive visit appends each entered scope's parameters, in the order the scopes are entered |
| Collect.WalkCovers | mcfg/mcfg.go:48-58 | the visit enters each scope of the subtree once and no other scope |
| Collect.WalkAllCovers | mcfg/mcfg.go:54-56 | visiting the children covers exactly the scopes below some child, each once |
| Collect.SiblingsDisjoint | mcfg/mcfg.go:54-56 | two children's subtrees share no scope |
| Collect.PermutedDecls | mcfg/mcfg.go:45-62 | visiting the same scopes in another order gathers the same parameters up to order |
| Collect.CollectParams | mcfg/mcfg.go:45-62 | the result is sorted and is a permutation of every parameter declared in the subtree |
| Collect.CollectedMembers | mcfg/mcfg.go:45-62 | a parameter is collected exactly when some scope of the subtree declared it |
| Population.ParamHashShape | mcfg/mcfg.go:64-73 | the hash is the readable name, a slash, then the digest |
| Population.ParamHashIdentifies | mcfg/mcfg.go:64-73 | with a fixed-width digest that tells identities apart, equal hashes mean equal path and name |
| Population.NamingOfIdentifies | mcfg/mcfg.go:64-73 | under the same hypotheses, `paramHash` tells identities apart |
| Population.IndexOkIffDistinct | mcfg/mcfg.go:82-90 | indexing succeeds exactly when no two declarations hash alike |
| Population.IndexContents | mcfg/mcfg.go:82-90 | on success every declaration is stored at its hash, and every stored hash is some declaration's |
| Population.IndexPanicNamesDuplicate | mcfg/mcfg.go:86-88 | a panic comes from a later declaration hashing like an earlier one, and names the later one |
| Population.DedupeKeys | mcfg/mcfg.go:97-106 | a hash is kept exactly when it is declared and some value is aimed at it |
| Population.DedupeKeepsLast | mcfg/mcfg.go:97-106 | the value kept for a hash is the last one the source produced for it |
| Population.DedupeAt | mcfg/mcfg.go:97-106 | the last value for a declared hash is the one kept |
| Population.MissingRequired | mcfg/mcfg.go:108-117 | nothing is reported exactly when every required parameter got a value; a report names a required parameter without one |
| Population.WriteAll | mcfg/mcfg.go:119-126 | all writes succeed exactly when every value decodes; then each target holds its decoded value; targets not written keep their contents |
| Population.Reconcile | mcfg/mcfg.go:97-128 | never panics. A missing required parameter fails with no target written, and the error names that parameter. When nothing required is missing and every kept value decodes, the outcome is success, and it is success only then. A decoding failure means some kept value did not decode. Targets that no kept value names are untouched |
| Population.PopulateParams | mcfg/mcfg.go:75-95 | panics exactly when two declarations hash alike; a source error is returned with no target touched |
| Population.DuplicatePanics | mcfg/mcfg.go:82-90 | a parameter declared twice panics, whatever the source |
| Population.PanicMeansDuplicate | mcfg/mcfg.go:82-90 | with a hash that tells identities apart, a panic means some parameter was declared twice |
| Population.PopulateReconciles | mcfg/mcfg.go:75-129 | once indexing succeeds and the source answers, the outcome is the reconciliation of its values |
| Population.OnlyNamedTargetsChange | mcfg/mcfg.go:97-126 | a target that is not both declared and given a value keeps its contents, whatever the outcome |
| Population.MissingRequiredWritesNothing | mcfg/mcfg.go:108-117 | a required parameter with no value fails the call with that error before any write |
| Population.RequiredErrorNamesMissing | mcfg/mcfg.go:108-117 | the reported missing parameter is a declared, required parameter that got no value |
| Population.SuccessWritesLastValues | mcfg/mcfg.go:97-126 | on success a parameter's target holds the decoding of the last value aimed at it |
| Population.SuccessMeansRequiredSet | mcfg/mcfg.go:108-128 | on success every required parameter got a value |
| Population.SuppliedValuesPopulate | mcfg/mcfg.go:97-128 | when every required parameter received a value and the last value for each declared parameter decodes, populating succeeds |
| Population.SuppliedValueIsWritten | mcfg/mcfg.go:97-128 | under those conditions, the target of each parameter holds the decoding of the last value supplied for it, whatever it held before |
| Population.DecodeFailureNamesValue | mcfg/mcfg.go:108-128 | a decoding error is reported only when every required parameter received a value and the last value for some declared parameter does not decode |
| Population.NilSourceWritesNothing | mcfg/mcfg.go:75-78 | without a source nothing is written, and the call succeeds exactly when no parameter is required |
| Population.Populate | mcfg/mcfg.go:131-140 | panics exactly when two collected parameters hash alike; with no source it succeeds without writing exactly when nothing in the subtree is required |
| Population.PopulatePanicsOnDuplicates | mcfg/mcfg.go:138-140 | with a digest that tells identities apart, `Populate` panics exactly when two parameters of the subtree share a path and name |
| Logging.Truncate | mlog/mlog.go:27-35 | a string within the size comes back unchanged; a longer one is cut to the size and ends with three dots |
| Logging.TruncateBoundedIdempotent | mlog/mlog.go:27-35 | the result is at most three longer than the size, and truncating again changes nothing |
| Logging.Copy | mlog/mlog.go:95-102 | the copy has the same keys and the same value under each |
| Logging.Set | mlog/mlog.go:104-110 | the key is bound to the new value, every other key keeps its value, and the key set only gains the key |
| Logging.SetLaws | mlog/mlog.go:104-110 | setting a key twice keeps the second value; setting two different keys commutes |
| Logging.LayerLookup | mlog/mlog.go:123-135 | a merged key is present when the base or some later map has it, bound as in the last map that has it |
| Logging.LayerAppend | mlog/mlog.go:129-133 | layering in two goes is layering once over the concatenation |
| Logging.MergeIsLayering | mlog/mlog.go:142-162 | `Merge` yields its inputs layered left to right over nothing |
| Logging.MergeLookup | mlog/mlog.go:142-162 | a key of a merge is one some input has, bound as in the rightmost input having it |
| Logging.NilContributesNothing | mlog/mlog.go:123-135 | a nil provider among the inputs changes nothing |
| Logging.MergeIntoIsMerge | mlog/mlog.go:155-158 | `MergeInto(kv, kvs)` yields what `Merge` of `kv` then `kvs` yields |
| Logging.Merge | mlog/mlog.go:148-153 | the result is a merger, never nil |
| Logging.PrefixLaws | mlog/mlog.go:164-175 | each key gains the prefix and keeps its value, nothing else appears, and the size is unchanged |
| Logging.PrefixKeysSize | mlog/mlog.go:169-172 | re-keying by a prefix loses no entry |
| Logging.StringSlice | mlog/mlog.go:199-211 | one entry per key, each with the key's rendered value |
| Logging.StringSliceSorted | mlog/mlog.go:207-209 | entries are strictly ascending by key and every key appears |
| Logging.DefaultFormat | mlog/mlog.go:221-239 | the line starts with `~ LEVEL -- description` and ends with a newline. It holds something in between exactly when the provider is non-nil and yields some entry, and that part starts with ` --` |
| Logging.FormatShowsEveryEntry | mlog/mlog.go:229-235 | every entry of a non-nil context is on the line as ` k=v`, with v the rendered value |
| Logging.FormatEntriesAscend | mlog/mlog.go:199-236 | for keys `a < b`, the ` a=v` fragment starts after the header, ` --` and the fragments of all keys sorted before `a`, likewise for `b`, and ends before the ` b=v` fragment starts |
| Logging.EntryAt | mlog/mlog.go:199-236 | entry i of the sorted context is written on the line right after the header, ` --` and the entries before it |
| Logging.FieldsAt | mlog/mlog.go:231-233 | entry i is written as ` k=v` right after the fragments of the entries before it |
| Logging.FormatWithoutContext | mlog/mlog.go:229-236 | a nil or empty context adds nothing between the header and the newline |
| Logging.FormatDependsOnContents | mlog/mlog.go:229-236 | two providers with the same yield give the same line |
| Logging.FormatIsOneLine | mlog/mlog.go:221-239 | without line breaks in the parts, the entry's only newline is its last character |
| Logging.NewLogger | mlog/mlog.go:272-277 | a new logger lets through Info and more severe, with no base context |
| Logging.Log | mlog/mlog.go:327-330 | a message reaches the handler exactly when its severity number is at most the maximum, with level and description kept |
| Logging.LogMergesContext | mlog/mlog.go:332-334 | the handler sees the base context overridden by the message's own |
| Logging.NewLoggerFiltersDebug | mlog/mlog.go:66-72 | a new logger drops Debug messages and passes Info, Warn, Error and Fatal |
| Logging.FilterMonotone | mlog/mlog.go:327-330 | raising the maximum never drops a message that passed before |
| Logging.WithMaxLevelUint | mlog/mlog.go:292-296 | the copy has the new maximum and the same handler and context |
| Logging.WithMaxLevelFilters | mlog/mlog.go:301-303 | after `WithMaxLevel(lvl)` a message passes exactly when it is at least as severe as `lvl` |
| Logging.WithHandler | mlog/mlog.go:308-312 | the copy has the new handler and the same maximum and context |
| Logging.WithKV | mlog/mlog.go:318-322 | the copy keeps handler and maximum, and its context is the old one with the new providers layered over it |
| Logging.WithKVTwice | mlog/mlog.go:314-322 | two `WithKV` calls amount to one with both sets, the later winning |
| Logging.WithKVOnNewLogger | mlog/mlog.go:314-322 | on a logger with no base context, `WithKV(kvs)` yields what `Merge(kvs)` yields |

## Left out

- Process exits are not modelled. The help page is a `Help` outcome rather
  than a print followed by `os.Exit(1)`. A Fatal message passes the filter
  like any other; the exit that follows is not modelled.
- `SourceCLI.Args` being nil (falling back to `os.Args[1:]`) is not
  modelled; the argument list is always given.
- Rendering a default for the help page uses reflection. It is replaced by
  an optional, already-rendered default string on the parameter.
- `json.Unmarshal` into a parameter's target is an abstract `decode`
  function that may fail. Targets are a map from hash to decoded value, so
  the way `Unmarshal` merges into an existing value is not modelled.
- MD5 and `paramFullName` are parameters of the model, because
  `paramFullName` is not part of the shown source. Collision freedom of
  MD5 cannot be proved, so `ParamHashIdentifies` and the lemmas built on it
  take it as a hypothesis.
- The source handed to `populate` is a function from declarations to values
  or an error. mcfg/cli.go's `Parse` takes a configuration tree instead, so
  the two are modelled separately, as in the code.
- Go's map iteration order is replaced by a fixed order in four places.
  - Flag lookup in `Parse`: `Cli.Lookup` tries the whole argument as a
    flag, then the part before its first `=`. Go ranges over the map
    instead. The two agree while no flag contains `=` (see
    `Cli.LookupIsKeySearch`).
  - Targets are written in ascending hash order.
  - When several required parameters are missing, the model reports the
    least hash. Go reports whichever its iteration meets first.
  - When a child's flag collides with one already collected,
    `Cli.MergeChildren` reports the least colliding flag. Go reports
    whichever its `range childM` meets first (mcfg/cli.go:142-145).
- Population.MissingRequired: reports the least missing hash, where Go may
  report any missing one.
- Scope.BreadthFirstVisit: a node the visitor rejects has its own subtree
  pruned, and the visit goes on with the rest of the level. The test at
  mctx/ctx_test.go:79-92 gives the same result if the first rejection
  instead stops the whole visit, so the tests do not decide between the
  two. The model chooses pruning.
- Scope.ChildOf: requires the name to be new under the parent. The `mctx`
  implementation is not part of this model, and its tests only add fresh
  names.
- Children are listed in creation order. Go keeps them in a map, so any
  order is possible; `Collect.PermutedDecls` and
  `ParamOrder.SortedIsCanonical` show that the collected result does not
  depend on it.
- Concurrency is not modelled: the store's locking, `DefaultHandler`'s
  mutex and buffered writer, the goroutine that re-logs handler errors, and
  the test-only channel. The parallel counting test becomes the sequential
  `IncrementsCount`.
- Handler calls and writer errors are not modelled. `Log` returns the
  message the handler would receive, and `DefaultFormat` assumes every write
  succeeds.
- Values are not stringified. `fmt.Sprint` and `strconv.QuoteToGraphic` are
  one abstract `quote` function.
- Logging.Truncate: counts characters, where Go counts bytes; the two agree
  on ASCII text.
- `KVerFunc` with arbitrary code is not modelled; the only function-built
  provider modelled is the one `Prefix` returns.
- The command-line tests about tails, subcommands and the "Usage:" layout
  exercise functions that are not part of the shown mcfg/cli.go, so they
  are not modelled.
