/**
  The population engine of package `mcfg` (`paramHash`, `populate`,
  `Populate`): declared parameters are indexed by a hash of their identity,
  the source's values are reconciled against that index, required
  parameters are checked, and only then are targets written.

  Targets are a map from a parameter's hash to its decoded value; Go's
  `Into` pointers are one target per declared parameter, which is what the
  hash identifies.
 */
module Population {
  import opened Basics
  import opened Strings
  import opened Params
  import opened Scope
  import opened ParamOrder
  import opened Collect

  /**
    The two ingredients of `paramHash` that are not part of this model:
    `paramFullName`, the readable name, and the hex-encoded MD5 digest of
    the quoted path segments and name.
   */
  datatype Hasher = Hasher(
    fullName: (seq<string>, string) -> string,
    digest: (seq<string>, string) -> string)

  /** `hex.EncodeToString` of a 16-byte MD5 sum is 32 characters long. */
  const DigestLength := 32

  ghost predicate HexDigests(hs: Hasher)
  {
    forall p, n :: |hs.digest(p, n)| == DigestLength
  }

  /** The digest tells identities apart (MD5 cannot be shown to, so this is only ever a hypothesis). */
  ghost predicate DigestsDiffer(hs: Hasher)
  {
    forall p1, n1, p2, n2 :: hs.digest(p1, n1) == hs.digest(p2, n2) ==> p1 == p2 && n1 == n2
  }

  /** `paramHash`: the readable name, a slash, then the digest. */
  function ParamHash(hs: Hasher, path: seq<string>, name: string): string
  {
    hs.fullName(path, name) + "/" + hs.digest(path, name)
  }

  /**
    The hash depends on the path and the name only, begins with the
    readable name and a slash, and ends with the digest.
   */
  lemma ParamHashShape(hs: Hasher, path: seq<string>, name: string)
    ensures var r := ParamHash(hs, path, name);
      && HasPrefix(r, hs.fullName(path, name) + "/")
      && |r| == |hs.fullName(path, name)| + 1 + |hs.digest(path, name)|
      && r[|r| - |hs.digest(path, name)|..] == hs.digest(path, name)
  {
    var prefix := hs.fullName(path, name) + "/";
    var r := ParamHash(hs, path, name);
    assert r[..|prefix|] == prefix;
    assert r[|prefix|..] == hs.digest(path, name);
  }

  /**
    With a fixed-width digest that tells identities apart, the hash does too:
    the readable prefix cannot make two identities collide.
   */
  lemma ParamHashIdentifies(hs: Hasher, p1: seq<string>, n1: string, p2: seq<string>, n2: string)
    requires HexDigests(hs) && DigestsDiffer(hs)
    requires ParamHash(hs, p1, n1) == ParamHash(hs, p2, n2)
    ensures p1 == p2 && n1 == n2
  {
    ParamHashShape(hs, p1, n1);
    ParamHashShape(hs, p2, n2);
    var r := ParamHash(hs, p1, n1);
    assert |hs.digest(p1, n1)| == |hs.digest(p2, n2)| == DigestLength;
    assert hs.digest(p1, n1) == r[|r| - DigestLength..] == hs.digest(p2, n2);
  }

  /**
    What the engine needs of a parameter's identity: a readable name for
    messages and a hash to index by. `populate` uses `paramHash`, see
    `NamingOf`; the engine's laws hold for any hash.
   */
  datatype Naming = Naming(
    fullName: (seq<string>, string) -> string,
    hash: (seq<string>, string) -> string)

  function NamingOf(hs: Hasher): Naming
  {
    Naming(hs.fullName, (p, n) => ParamHash(hs, p, n))
  }

  /** The hash tells identities apart. */
  ghost predicate HashIdentifies(nm: Naming)
  {
    forall p1, n1, p2, n2 :: nm.hash(p1, n1) == nm.hash(p2, n2) ==> p1 == p2 && n1 == n2
  }

  /** `paramHash` over a fixed-width digest that tells identities apart tells them apart too. */
  lemma NamingOfIdentifies(hs: Hasher)
    requires HexDigests(hs) && DigestsDiffer(hs)
    ensures HashIdentifies(NamingOf(hs))
  {
    forall p1, n1, p2, n2 | NamingOf(hs).hash(p1, n1) == NamingOf(hs).hash(p2, n2)
      ensures p1 == p2 && n1 == n2
    {
      ParamHashIdentifies(hs, p1, n1, p2, n2);
    }
  }

  function DeclHash(nm: Naming, d: Decl): string
  {
    nm.hash(d.path, d.param.name)
  }

  function ValueHash(nm: Naming, pv: ParamValue): string
  {
    nm.hash(pv.path, pv.param.name)
  }

  /** No two declarations share a hash. */
  predicate DistinctHashes(nm: Naming, decls: seq<Decl>)
  {
    forall i, j :: 0 <= i < j < |decls| ==> DeclHash(nm, decls[i]) != DeclHash(nm, decls[j])
  }

  // ---------------------------------------------------------------------
  // The stages of `populate`

  /**
    The first loop of `populate`: index the declarations by hash. `Err`
    stands for the panic on a duplicate and carries the full name that Go
    puts in the panic message: that of the first declaration whose hash was
    already taken.
   */
  function IndexParams(nm: Naming, decls: seq<Decl>): Result<map<string, Decl>, string>
    decreases |decls|
  {
    if |decls| == 0 then Ok(map[])
    else
      var d := decls[|decls| - 1];
      match IndexParams(nm, decls[..|decls| - 1])
      case Err(name) => Err(name)
      case Ok(pM) =>
        if DeclHash(nm, d) in pM then Err(nm.fullName(d.path, d.param.name))
        else Ok(pM[DeclHash(nm, d) := d])
  }

  /** The index is built exactly when no two declarations share a hash. */
  lemma {:induction false} IndexOkIffDistinct(nm: Naming, decls: seq<Decl>)
    ensures IndexParams(nm, decls).Ok? <==> DistinctHashes(nm, decls)
    decreases |decls|
  {
    if |decls| > 0 {
      var init := decls[..|decls| - 1];
      var last := |decls| - 1;
      IndexOkIffDistinct(nm, init);
      if IndexParams(nm, init).Ok? {
        IndexContents(nm, init);
      }
      if !DistinctHashes(nm, init) {
        var i, j :| 0 <= i < j < last && DeclHash(nm, init[i]) == DeclHash(nm, init[j]);
        assert init[i] == decls[i] && init[j] == decls[j];
      } else if DeclHash(nm, decls[last]) in IndexParams(nm, init).value {
        var i :| 0 <= i < last && DeclHash(nm, init[i]) == DeclHash(nm, decls[last]);
        assert init[i] == decls[i];
      } else {
        var pM := IndexParams(nm, init).value;
        forall i, j | 0 <= i < j < |decls|
          ensures DeclHash(nm, decls[i]) != DeclHash(nm, decls[j])
        {
          assert init[i] == decls[i];
          if j < last {
            assert init[j] == decls[j];
          } else {
            assert DeclHash(nm, init[i]) in pM;
          }
        }
      }
    }
  }

  /** A built index holds every declaration under its hash, and nothing else. */
  lemma {:induction false} IndexContents(nm: Naming, decls: seq<Decl>)
    requires IndexParams(nm, decls).Ok?
    ensures var pM := IndexParams(nm, decls).value;
      forall i :: 0 <= i < |decls| ==> DeclHash(nm, decls[i]) in pM && pM[DeclHash(nm, decls[i])] == decls[i]
    ensures var pM := IndexParams(nm, decls).value;
      forall h :: h in pM ==> exists i :: 0 <= i < |decls| && DeclHash(nm, decls[i]) == h
    decreases |decls|
  {
    if |decls| > 0 {
      var init := decls[..|decls| - 1];
      var last := |decls| - 1;
      IndexContents(nm, init);
      var m := IndexParams(nm, init).value;
      var pM := IndexParams(nm, decls).value;
      assert pM == m[DeclHash(nm, decls[last]) := decls[last]];
      forall i | 0 <= i < |decls|
        ensures DeclHash(nm, decls[i]) in pM && pM[DeclHash(nm, decls[i])] == decls[i]
      {
        if i < last {
          assert init[i] == decls[i];
        }
      }
      forall h | h in pM
        ensures exists i :: 0 <= i < |decls| && DeclHash(nm, decls[i]) == h
      {
        if h != DeclHash(nm, decls[last]) {
          var i :| 0 <= i < last && DeclHash(nm, init[i]) == h;
          assert init[i] == decls[i];
        }
      }
    }
  }

  /** The panic names a declaration whose hash an earlier one already had. */
  lemma {:induction false} IndexPanicNamesDuplicate(nm: Naming, decls: seq<Decl>)
    requires IndexParams(nm, decls).Err?
    ensures exists i, j :: (0 <= i < j < |decls| && DeclHash(nm, decls[i]) == DeclHash(nm, decls[j])
      && IndexParams(nm, decls).error == nm.fullName(decls[j].path, decls[j].param.name))
    decreases |decls|
  {
    var init := decls[..|decls| - 1];
    var last := |decls| - 1;
    assert forall i :: 0 <= i < last ==> init[i] == decls[i];
    if IndexParams(nm, init).Err? {
      IndexPanicNamesDuplicate(nm, init);
      var i, j :| 0 <= i < j < last && DeclHash(nm, init[i]) == DeclHash(nm, init[j])
        && IndexParams(nm, init).error == nm.fullName(init[j].path, init[j].param.name);
      assert DeclHash(nm, decls[i]) == DeclHash(nm, decls[j]);
    } else {
      IndexContents(nm, init);
      var i :| 0 <= i < last && DeclHash(nm, init[i]) == DeclHash(nm, decls[last]);
      assert DeclHash(nm, decls[i]) == DeclHash(nm, decls[last]);
    }
  }

  /**
    The second loop: for every declared hash, the value the source produced
    for it, the later one replacing the earlier; values aimed at nothing
    declared are skipped.
   */
  function Dedupe(nm: Naming, pM: map<string, Decl>, pvs: seq<ParamValue>): map<string, ParamValue>
    decreases |pvs|
  {
    if |pvs| == 0 then map[]
    else
      var pv := pvs[|pvs| - 1];
      var m := Dedupe(nm, pM, pvs[..|pvs| - 1]);
      if ValueHash(nm, pv) in pM then m[ValueHash(nm, pv) := pv] else m
  }

  /** Value `j` is the last one the source produced for its hash. */
  predicate LastFor(nm: Naming, pvs: seq<ParamValue>, j: nat)
    requires j < |pvs|
  {
    forall k :: j < k < |pvs| ==> ValueHash(nm, pvs[k]) != ValueHash(nm, pvs[j])
  }

  /** A declared hash keeps a value exactly when the source produced one for it. */
  lemma {:induction false} DedupeKeys(nm: Naming, pM: map<string, Decl>, pvs: seq<ParamValue>)
    ensures forall h :: h in Dedupe(nm, pM, pvs) <==> h in pM && exists j :: 0 <= j < |pvs| && ValueHash(nm, pvs[j]) == h
    decreases |pvs|
  {
    if |pvs| > 0 {
      var init := pvs[..|pvs| - 1];
      var last := |pvs| - 1;
      DedupeKeys(nm, pM, init);
      var r := Dedupe(nm, pM, pvs);
      forall h
        ensures h in r <==> h in pM && exists j :: 0 <= j < |pvs| && ValueHash(nm, pvs[j]) == h
      {
        if h in r && h != ValueHash(nm, pvs[last]) {
          var j :| 0 <= j < last && ValueHash(nm, init[j]) == h;
          assert init[j] == pvs[j];
        }
        if h in pM && exists j :: 0 <= j < |pvs| && ValueHash(nm, pvs[j]) == h {
          var j :| 0 <= j < |pvs| && ValueHash(nm, pvs[j]) == h;
          if j < last {
            assert init[j] == pvs[j];
          }
        }
      }
    }
  }

  lemma DedupeDeclared(nm: Naming, pM: map<string, Decl>, pvs: seq<ParamValue>)
    ensures forall h :: h in Dedupe(nm, pM, pvs) ==> h in pM
  {
    DedupeKeys(nm, pM, pvs);
  }

  /** Last one wins: the value kept for a hash is the last one the source produced for it. */
  lemma {:induction false} DedupeKeepsLast(nm: Naming, pM: map<string, Decl>, pvs: seq<ParamValue>)
    ensures forall h :: h in Dedupe(nm, pM, pvs) ==>
      exists j :: 0 <= j < |pvs| && Dedupe(nm, pM, pvs)[h] == pvs[j] && ValueHash(nm, pvs[j]) == h && LastFor(nm, pvs, j)
    decreases |pvs|
  {
    if |pvs| > 0 {
      var init := pvs[..|pvs| - 1];
      var last := |pvs| - 1;
      DedupeKeepsLast(nm, pM, init);
      DedupeKeys(nm, pM, init);
      var m := Dedupe(nm, pM, init);
      var r := Dedupe(nm, pM, pvs);
      assert r == if ValueHash(nm, pvs[last]) in pM then m[ValueHash(nm, pvs[last]) := pvs[last]] else m;
      forall h | h in r
        ensures exists j :: 0 <= j < |pvs| && r[h] == pvs[j] && ValueHash(nm, pvs[j]) == h && LastFor(nm, pvs, j)
      {
        if h == ValueHash(nm, pvs[last]) {
          assert r[h] == pvs[last] && LastFor(nm, pvs, last);
        } else {
          var j :| 0 <= j < last && m[h] == init[j] && ValueHash(nm, init[j]) == h && LastFor(nm, init, j);
          assert init[j] == pvs[j];
          assert r[h] == pvs[j];
          forall k | j < k < |pvs|
            ensures ValueHash(nm, pvs[k]) != ValueHash(nm, pvs[j])
          {
            if k < last {
              assert init[k] == pvs[k];
            }
          }
        }
      }
    }
  }

  /** The kept value for `h`, picked out by its position. */
  lemma DedupeAt(nm: Naming, pM: map<string, Decl>, pvs: seq<ParamValue>, j: nat)
    requires j < |pvs| && ValueHash(nm, pvs[j]) in pM && LastFor(nm, pvs, j)
    ensures var m := Dedupe(nm, pM, pvs); ValueHash(nm, pvs[j]) in m && m[ValueHash(nm, pvs[j])] == pvs[j]
  {
    DedupeKeys(nm, pM, pvs);
    DedupeKeepsLast(nm, pM, pvs);
    var m := Dedupe(nm, pM, pvs);
    var h := ValueHash(nm, pvs[j]);
    var j' :| 0 <= j' < |pvs| && m[h] == pvs[j'] && ValueHash(nm, pvs[j']) == h && LastFor(nm, pvs, j');
  }

  /**
    The third loop: some required parameter that received no value, if there
    is one. Go reports whichever its map iteration meets first; this picks
    the least hash.
   */
  function MissingRequired(pM: map<string, Decl>, pvM: map<string, ParamValue>): (r: Option<string>)
    ensures r.None? <==> forall h :: h in pM && pM[h].param.required ==> h in pvM
    ensures r.Some? ==> r.value in pM && pM[r.value].param.required && r.value !in pvM
  {
    var missing := set h | h in pM && pM[h].param.required && h !in pvM;
    assert forall h :: h in missing <==> h in pM && pM[h].param.required && h !in pvM;
    if missing == {} then None else Some(Least(missing))
  }

  /** What the last loop leaves behind. */
  datatype Writes<V> = Written(targets: map<string, V>) | WriteFailed(msg: string, targets: map<string, V>)

  /**
    The last loop: decode each surviving value into its parameter's target,
    stopping at the first decoding error. Go visits the values in map order;
    this visits them in the order of `keys`.
   */
  function WriteAll<V>(pM: map<string, Decl>, pvM: map<string, ParamValue>, keys: seq<string>,
                       decode: (Param, string) -> Result<V, string>, targets: map<string, V>): (r: Writes<V>)
    requires forall h :: h in keys ==> h in pM && h in pvM
    ensures r.Written? <==> forall h :: h in keys ==> decode(pM[h].param, pvM[h].value).Ok?
    ensures r.Written? ==> forall h :: h in keys ==> h in r.targets && r.targets[h] == decode(pM[h].param, pvM[h].value).value
    ensures forall h :: h !in keys ==> (h in r.targets <==> h in targets) && (h in targets ==> r.targets[h] == targets[h])
    decreases |keys|
  {
    if |keys| == 0 then Written(targets)
    else
      var h := keys[0];
      assert h in keys;
      assert forall k :: k in keys[1..] ==> k in keys;
      match decode(pM[h].param, pvM[h].value)
      case Err(e) => WriteFailed(e, targets)
      case Ok(v) =>
        var r := WriteAll(pM, pvM, keys[1..], decode, targets[h := v]);
        assert forall k :: k in keys ==> k == h || k in keys[1..];
        assert r.Written? ==> h in r.targets && r.targets[h] == v by {
          if r.Written? && h !in keys[1..] {
            assert h in targets[h := v];
          }
        }
        r
  }

  // ---------------------------------------------------------------------
  // `populate` and `Populate`

  /** What `Source.Parse` hands back, or an error. */
  type Source = seq<Decl> -> Result<seq<ParamValue>, string>

  datatype PopError =
    | SourceFailed(msg: string)
    | RequiredNotSet(name: string)
    | DecodeFailed(msg: string)

  /**
    How `populate` ends: a panic over a duplicate parameter (not an error
    return), an error together with the targets as they stand, or success.
   */
  datatype Outcome<V> =
    | Panicked(name: string)
    | Failed(error: PopError, targets: map<string, V>)
    | Populated(targets: map<string, V>)

  /** The values a source produces for `decls`; no source produces none. */
  function Values(src: Option<Source>, decls: seq<Decl>): Result<seq<ParamValue>, string>
  {
    match src
    case None => Ok([])
    case Some(parse) => parse(decls)
  }

  /** Everything `populate` does once the source has answered with `pvs`. */
  function Reconcile<V>(nm: Naming, pM: map<string, Decl>, pvs: seq<ParamValue>,
                        decode: (Param, string) -> Result<V, string>, targets: map<string, V>): (r: Outcome<V>)
    ensures !r.Panicked?
    ensures r.Failed? && r.error.RequiredNotSet? ==>
      && r.targets == targets
      && MissingRequired(pM, Dedupe(nm, pM, pvs)).Some?
      && (var h := MissingRequired(pM, Dedupe(nm, pM, pvs)).value; r.error.name == nm.fullName(pM[h].path, pM[h].param.name))
    ensures r.Populated? ==> MissingRequired(pM, Dedupe(nm, pM, pvs)).None?
    ensures r.Populated? ==> forall h :: h in Dedupe(nm, pM, pvs) && h in pM ==>
      var pv := Dedupe(nm, pM, pvs)[h];
      h in r.targets && decode(pM[h].param, pv.value).Ok? && r.targets[h] == decode(pM[h].param, pv.value).value
    ensures forall h :: h !in Dedupe(nm, pM, pvs) ==>
      (h in r.targets <==> h in targets) && (h in targets ==> r.targets[h] == targets[h])
    ensures MissingRequired(pM, Dedupe(nm, pM, pvs)).None?
      && (forall h :: h in Dedupe(nm, pM, pvs) && h in pM ==> decode(pM[h].param, Dedupe(nm, pM, pvs)[h].value).Ok?)
      ==> r.Populated?
    ensures r.Failed? ==> r.error.RequiredNotSet? || r.error.DecodeFailed?
    ensures r.Failed? && r.error.DecodeFailed? ==>
      && MissingRequired(pM, Dedupe(nm, pM, pvs)).None?
      && exists h :: h in Dedupe(nm, pM, pvs) && h in pM && decode(pM[h].param, Dedupe(nm, pM, pvs)[h].value).Err?
  {
    var pvM := Dedupe(nm, pM, pvs);
    DedupeDeclared(nm, pM, pvs);
    match MissingRequired(pM, pvM)
    case Some(h) => Failed(RequiredNotSet(nm.fullName(pM[h].path, pM[h].param.name)), targets)
    case None =>
      match WriteValues(pM, pvM, decode, targets)
      case Written(t) => Populated(t)
      case WriteFailed(e, t) => Failed(DecodeFailed(e), t)
  }

  /** The last loop over the whole of `pvM`, its keys taken in ascending order. */
  function WriteValues<V>(pM: map<string, Decl>, pvM: map<string, ParamValue>,
                          decode: (Param, string) -> Result<V, string>, targets: map<string, V>): (r: Writes<V>)
    requires forall h :: h in pvM ==> h in pM
    ensures r.Written? <==> forall h :: h in pvM ==> decode(pM[h].param, pvM[h].value).Ok?
    ensures r.Written? ==> forall h :: h in pvM ==> h in r.targets && r.targets[h] == decode(pM[h].param, pvM[h].value).value
    ensures forall h :: h !in pvM ==> (h in r.targets <==> h in targets) && (h in targets ==> r.targets[h] == targets[h])
  {
    var keys := SortedSet(pvM.Keys);
    assert forall h :: h in keys <==> h in pvM;
    WriteAll(pM, pvM, keys, decode, targets)
  }

  /**
    `populate`: a duplicate is a panic before the source is asked; a source
    error is returned with no target touched.
   */
  function PopulateParams<V>(nm: Naming, decls: seq<Decl>, src: Option<Source>,
                             decode: (Param, string) -> Result<V, string>, targets: map<string, V>): (r: Outcome<V>)
    ensures r.Panicked? <==> !DistinctHashes(nm, decls)
    ensures !r.Panicked? && Values(src, decls).Err? ==> r == Failed(SourceFailed(Values(src, decls).error), targets)
  {
    IndexOkIffDistinct(nm, decls);
    match IndexParams(nm, decls)
    case Err(name) => Panicked(name)
    case Ok(pM) =>
      match Values(src, decls)
      case Err(e) => Failed(SourceFailed(e), targets)
      case Ok(pvs) => Reconcile(nm, pM, pvs, decode, targets)
  }

  /** Two declarations of the same parameter are a panic, whatever the source would say. */
  lemma DuplicatePanics<V>(nm: Naming, decls: seq<Decl>, src: Option<Source>,
                           decode: (Param, string) -> Result<V, string>, targets: map<string, V>, i: nat, j: nat)
    requires i < j < |decls| && SameKey(decls[i], decls[j])
    ensures PopulateParams(nm, decls, src, decode, targets).Panicked?
  {
    assert DeclHash(nm, decls[i]) == DeclHash(nm, decls[j]);
  }

  /** With a digest that tells identities apart, a panic means a parameter was declared twice. */
  lemma PanicMeansDuplicate<V>(nm: Naming, decls: seq<Decl>, src: Option<Source>,
                               decode: (Param, string) -> Result<V, string>, targets: map<string, V>)
    requires HashIdentifies(nm)
    requires PopulateParams(nm, decls, src, decode, targets).Panicked?
    ensures exists i, j :: 0 <= i < j < |decls| && SameKey(decls[i], decls[j])
  {
    var i, j :| 0 <= i < j < |decls| && DeclHash(nm, decls[i]) == DeclHash(nm, decls[j]);
    assert decls[i].path == decls[j].path && decls[i].param.name == decls[j].param.name;
  }

  /** Once the declarations are indexed and the source has answered, `populate` is `Reconcile`. */
  lemma PopulateReconciles<V>(nm: Naming, decls: seq<Decl>, src: Option<Source>,
                              decode: (Param, string) -> Result<V, string>, targets: map<string, V>)
    requires DistinctHashes(nm, decls) && Values(src, decls).Ok?
    ensures IndexParams(nm, decls).Ok?
    ensures PopulateParams(nm, decls, src, decode, targets)
      == Reconcile(nm, IndexParams(nm, decls).value, Values(src, decls).value, decode, targets)
  {
    IndexOkIffDistinct(nm, decls);
    IndexContents(nm, decls);
  }

  /**
    Values aimed at no declared parameter change nothing: every target whose
    hash no value names keeps what it held, whatever the outcome.
   */
  lemma OnlyNamedTargetsChange<V>(nm: Naming, decls: seq<Decl>, src: Option<Source>,
                                  decode: (Param, string) -> Result<V, string>, targets: map<string, V>, h: string)
    requires var r := PopulateParams(nm, decls, src, decode, targets); r.Failed? || r.Populated?
    requires !Receives(nm, decls, Values(src, decls), h)
    ensures var r := PopulateParams(nm, decls, src, decode, targets);
      (h in r.targets <==> h in targets) && (h in targets ==> r.targets[h] == targets[h])
  {
    IndexOkIffDistinct(nm, decls);
    if Values(src, decls).Ok? {
      PopulateReconciles(nm, decls, src, decode, targets);
      IndexContents(nm, decls);
      var pM := IndexParams(nm, decls).value;
      DedupeKeys(nm, pM, Values(src, decls).value);
      assert h !in Dedupe(nm, pM, Values(src, decls).value);
    }
  }

  /** `h` names a declared parameter and the source produced a value for it. */
  predicate Receives(nm: Naming, decls: seq<Decl>, vals: Result<seq<ParamValue>, string>, h: string)
  {
    && vals.Ok?
    && (exists i :: 0 <= i < |decls| && DeclHash(nm, decls[i]) == h)
    && (exists j :: 0 <= j < |vals.value| && ValueHash(nm, vals.value[j]) == h)
  }

  /** Some value the source produced is aimed at `d`. */
  predicate Provided(nm: Naming, pvs: seq<ParamValue>, d: Decl)
  {
    exists j :: 0 <= j < |pvs| && ValueHash(nm, pvs[j]) == DeclHash(nm, d)
  }

  /**
    The required check comes before any write: if some required parameter
    got no value, `populate` fails with that error and every target is as
    it was, whether or not other values would have decoded.
   */
  lemma MissingRequiredWritesNothing<V>(nm: Naming, decls: seq<Decl>, src: Option<Source>,
                                        decode: (Param, string) -> Result<V, string>, targets: map<string, V>, i: nat)
    requires DistinctHashes(nm, decls) && Values(src, decls).Ok?
    requires i < |decls| && decls[i].param.required && !Provided(nm, Values(src, decls).value, decls[i])
    ensures var r := PopulateParams(nm, decls, src, decode, targets);
      r.Failed? && r.error.RequiredNotSet? && r.targets == targets
  {
    PopulateReconciles(nm, decls, src, decode, targets);
    IndexOkIffDistinct(nm, decls);
    IndexContents(nm, decls);
    var pM := IndexParams(nm, decls).value;
    var pvs := Values(src, decls).value;
    DedupeKeys(nm, pM, pvs);
    var h := DeclHash(nm, decls[i]);
    assert pM[h] == decls[i];
    assert h !in Dedupe(nm, pM, pvs);
  }

  /** A reported missing parameter is required, was declared, and received no value. */
  lemma RequiredErrorNamesMissing<V>(nm: Naming, decls: seq<Decl>, src: Option<Source>,
                                     decode: (Param, string) -> Result<V, string>, targets: map<string, V>)
    requires var r := PopulateParams(nm, decls, src, decode, targets); r.Failed? && r.error.RequiredNotSet?
    ensures exists i :: (0 <= i < |decls| && decls[i].param.required
      && !Provided(nm, Values(src, decls).value, decls[i])
      && PopulateParams(nm, decls, src, decode, targets).error.name == nm.fullName(decls[i].path, decls[i].param.name))
  {
    IndexOkIffDistinct(nm, decls);
    PopulateReconciles(nm, decls, src, decode, targets);
    IndexContents(nm, decls);
    var pM := IndexParams(nm, decls).value;
    var pvs := Values(src, decls).value;
    var pvM := Dedupe(nm, pM, pvs);
    DedupeKeys(nm, pM, pvs);
    var h := MissingRequired(pM, pvM).value;
    var i :| 0 <= i < |decls| && DeclHash(nm, decls[i]) == h;
    assert pM[h] == decls[i];
    assert !Provided(nm, pvs, decls[i]);
  }

  /**
    On success each target that receives values holds the decoding of the
    LAST of them, done with the parameter it belongs to.
   */
  lemma SuccessWritesLastValues<V>(nm: Naming, decls: seq<Decl>, src: Option<Source>,
                                   decode: (Param, string) -> Result<V, string>, targets: map<string, V>, i: nat, j: nat)
    requires PopulateParams(nm, decls, src, decode, targets).Populated?
    requires var pvs := Values(src, decls).value;
      i < |decls| && j < |pvs| && DeclHash(nm, decls[i]) == ValueHash(nm, pvs[j]) && LastFor(nm, pvs, j)
    ensures var pv := Values(src, decls).value[j]; var r := PopulateParams(nm, decls, src, decode, targets);
      && DeclHash(nm, decls[i]) in r.targets
      && decode(decls[i].param, pv.value).Ok?
      && r.targets[DeclHash(nm, decls[i])] == decode(decls[i].param, pv.value).value
  {
    IndexOkIffDistinct(nm, decls);
    PopulateReconciles(nm, decls, src, decode, targets);
    IndexContents(nm, decls);
    var pM := IndexParams(nm, decls).value;
    var pvs := Values(src, decls).value;
    var h := DeclHash(nm, decls[i]);
    assert pM[h] == decls[i];
    DedupeAt(nm, pM, pvs, j);
  }

  /** On success no required parameter went without a value. */
  lemma SuccessMeansRequiredSet<V>(nm: Naming, decls: seq<Decl>, src: Option<Source>,
                                   decode: (Param, string) -> Result<V, string>, targets: map<string, V>, i: nat)
    requires PopulateParams(nm, decls, src, decode, targets).Populated?
    requires i < |decls| && decls[i].param.required
    ensures Provided(nm, Values(src, decls).value, decls[i])
  {
    if !Provided(nm, Values(src, decls).value, decls[i]) {
      MissingRequiredWritesNothing(nm, decls, src, decode, targets, i);
    }
  }

  /**
    Supplying values makes `populate` succeed: when every required parameter
    received a value and the last value for each declared parameter decodes,
    the outcome is success.
   */
  lemma SuppliedValuesPopulate<V>(nm: Naming, decls: seq<Decl>, src: Option<Source>,
                                  decode: (Param, string) -> Result<V, string>, targets: map<string, V>)
    requires DistinctHashes(nm, decls) && Values(src, decls).Ok?
    requires forall i :: 0 <= i < |decls| && decls[i].param.required ==> Provided(nm, Values(src, decls).value, decls[i])
    requires var pvs := Values(src, decls).value;
      forall i, j :: 0 <= i < |decls| && 0 <= j < |pvs| && DeclHash(nm, decls[i]) == ValueHash(nm, pvs[j]) && LastFor(nm, pvs, j)
        ==> decode(decls[i].param, pvs[j].value).Ok?
    ensures PopulateParams(nm, decls, src, decode, targets).Populated?
  {
    PopulateReconciles(nm, decls, src, decode, targets);
    IndexOkIffDistinct(nm, decls);
    IndexContents(nm, decls);
    var pM := IndexParams(nm, decls).value;
    var pvs := Values(src, decls).value;
    var pvM := Dedupe(nm, pM, pvs);
    DedupeKeys(nm, pM, pvs);
    DedupeKeepsLast(nm, pM, pvs);
    forall h | h in pM && pM[h].param.required
      ensures h in pvM
    {
      var i :| 0 <= i < |decls| && DeclHash(nm, decls[i]) == h;
      assert pM[h] == decls[i];
      assert Provided(nm, pvs, decls[i]);
    }
    forall h | h in pvM && h in pM
      ensures decode(pM[h].param, pvM[h].value).Ok?
    {
      var i :| 0 <= i < |decls| && DeclHash(nm, decls[i]) == h;
      assert pM[h] == decls[i];
      var j :| 0 <= j < |pvs| && pvM[h] == pvs[j] && ValueHash(nm, pvs[j]) == h && LastFor(nm, pvs, j);
    }
  }

  /**
    The round trip of a supplied value: under the conditions of
    `SuppliedValuesPopulate`, the target of a parameter holds the decoding of
    the last value supplied for it, whatever it held before.
   */
  lemma SuppliedValueIsWritten<V>(nm: Naming, decls: seq<Decl>, src: Option<Source>,
                                  decode: (Param, string) -> Result<V, string>, targets: map<string, V>, i: nat, j: nat)
    requires DistinctHashes(nm, decls) && Values(src, decls).Ok?
    requires forall i :: 0 <= i < |decls| && decls[i].param.required ==> Provided(nm, Values(src, decls).value, decls[i])
    requires var pvs := Values(src, decls).value;
      forall i, j :: 0 <= i < |decls| && 0 <= j < |pvs| && DeclHash(nm, decls[i]) == ValueHash(nm, pvs[j]) && LastFor(nm, pvs, j)
        ==> decode(decls[i].param, pvs[j].value).Ok?
    requires var pvs := Values(src, decls).value;
      i < |decls| && j < |pvs| && DeclHash(nm, decls[i]) == ValueHash(nm, pvs[j]) && LastFor(nm, pvs, j)
    ensures var pv := Values(src, decls).value[j]; var r := PopulateParams(nm, decls, src, decode, targets);
      && r.Populated?
      && DeclHash(nm, decls[i]) in r.targets
      && r.targets[DeclHash(nm, decls[i])] == decode(decls[i].param, pv.value).value
  {
    SuppliedValuesPopulate(nm, decls, src, decode, targets);
    SuccessWritesLastValues(nm, decls, src, decode, targets, i, j);
  }

  /**
    A decoding failure is reported only when no required parameter is
    missing and the last value for some declared parameter does not decode.
   */
  lemma DecodeFailureNamesValue<V>(nm: Naming, decls: seq<Decl>, src: Option<Source>,
                                   decode: (Param, string) -> Result<V, string>, targets: map<string, V>)
    requires var r := PopulateParams(nm, decls, src, decode, targets); r.Failed? && r.error.DecodeFailed?
    ensures forall i :: 0 <= i < |decls| && decls[i].param.required ==> Provided(nm, Values(src, decls).value, decls[i])
    ensures var pvs := Values(src, decls).value;
      exists i, j :: 0 <= i < |decls| && 0 <= j < |pvs| && DeclHash(nm, decls[i]) == ValueHash(nm, pvs[j]) && LastFor(nm, pvs, j)
        && decode(decls[i].param, pvs[j].value).Err?
  {
    IndexOkIffDistinct(nm, decls);
    PopulateReconciles(nm, decls, src, decode, targets);
    IndexContents(nm, decls);
    var pM := IndexParams(nm, decls).value;
    var pvs := Values(src, decls).value;
    var pvM := Dedupe(nm, pM, pvs);
    DedupeKeys(nm, pM, pvs);
    DedupeKeepsLast(nm, pM, pvs);
    forall i | 0 <= i < |decls| && decls[i].param.required
      ensures Provided(nm, pvs, decls[i])
    {
      var h := DeclHash(nm, decls[i]);
      assert pM[h] == decls[i];
      assert h in pvM;
    }
    var h :| h in pvM && h in pM && decode(pM[h].param, pvM[h].value).Err?;
    var i :| 0 <= i < |decls| && DeclHash(nm, decls[i]) == h;
    assert pM[h] == decls[i];
    var j :| 0 <= j < |pvs| && pvM[h] == pvs[j] && ValueHash(nm, pvs[j]) == h && LastFor(nm, pvs, j);
  }

  /**
    Without a source nothing is written: `populate` succeeds and leaves the
    targets alone exactly when no parameter is required (a duplicate still
    panics first).
   */
  lemma NilSourceWritesNothing<V>(nm: Naming, decls: seq<Decl>, decode: (Param, string) -> Result<V, string>, targets: map<string, V>)
    requires DistinctHashes(nm, decls)
    ensures var r := PopulateParams(nm, decls, None, decode, targets);
      && (r.Populated? <==> forall i :: 0 <= i < |decls| ==> !decls[i].param.required)
      && (r.Populated? || r.Failed?) && r.targets == targets
  {
    PopulateReconciles(nm, decls, None, decode, targets);
    IndexOkIffDistinct(nm, decls);
    IndexContents(nm, decls);
    var pM := IndexParams(nm, decls).value;
    var pvM := Dedupe(nm, pM, []);
    assert pvM == map[];
    forall i | 0 <= i < |decls| && decls[i].param.required
      ensures MissingRequired(pM, pvM).Some?
    {
      assert pM[DeclHash(nm, decls[i])] == decls[i];
    }
    assert SortedSet(pvM.Keys) == [];
  }

  /**
    `Populate`: collect the parameters of the subtree of `n` and populate
    them. With no source, it succeeds without writing anything exactly when
    nothing in the subtree is required, unless a parameter was declared
    twice.
   */
  function Populate<K, V>(hs: Hasher, t: Tree<K, V>, locals: Locals, n: Handle, src: Option<Source>,
                          decode: (Param, string) -> Result<V, string>, targets: map<string, V>): (r: Outcome<V>)
    requires Valid(t) && n < |t.nodes|
    ensures r.Panicked? <==> !DistinctHashes(NamingOf(hs), CollectParams(t, locals, n))
    ensures src.None? && !r.Panicked? ==>
      && (r.Populated? <==> forall d :: d in DeclaredBelow(t, locals, n) ==> !d.param.required)
      && r.targets == targets
  {
    NilSourceBelow(NamingOf(hs), t, locals, n, src, decode, targets);
    PopulateParams(NamingOf(hs), CollectParams(t, locals, n), src, decode, targets)
  }

  /**
    With a digest that tells identities apart, `Populate` panics exactly
    when two parameters of the subtree share a path and a name.
   */
  lemma PopulatePanicsOnDuplicates<K, V>(hs: Hasher, t: Tree<K, V>, locals: Locals, n: Handle, src: Option<Source>,
                                         decode: (Param, string) -> Result<V, string>, targets: map<string, V>)
    requires Valid(t) && n < |t.nodes|
    requires HexDigests(hs) && DigestsDiffer(hs)
    ensures Populate(hs, t, locals, n, src, decode, targets).Panicked? <==> !UniqueKeys(CollectParams(t, locals, n))
  {
    var decls := CollectParams(t, locals, n);
    NamingOfIdentifies(hs);
    if Populate(hs, t, locals, n, src, decode, targets).Panicked? {
      PanicMeansDuplicate(NamingOf(hs), decls, src, decode, targets);
    }
    if !UniqueKeys(decls) {
      var i, j :| 0 <= i < j < |decls| && SameKey(decls[i], decls[j]);
      DuplicatePanics(NamingOf(hs), decls, src, decode, targets, i, j);
    }
  }

  lemma NilSourceBelow<K, V>(nm: Naming, t: Tree<K, V>, locals: Locals, n: Handle, src: Option<Source>,
                             decode: (Param, string) -> Result<V, string>, targets: map<string, V>)
    requires Valid(t) && n < |t.nodes|
    ensures var decls := CollectParams(t, locals, n); var r := PopulateParams(nm, decls, src, decode, targets);
      src.None? && !r.Panicked? ==>
        && (r.Populated? <==> forall d :: d in DeclaredBelow(t, locals, n) ==> !d.param.required)
        && r.targets == targets
  {
    var decls := CollectParams(t, locals, n);
    if src.None? && DistinctHashes(nm, decls) {
      NilSourceWritesNothing(nm, decls, decode, targets);
      forall d
        ensures d in decls <==> d in DeclaredBelow(t, locals, n)
      {
        assert d in decls <==> d in multiset(decls);
      }
    }
  }
}
