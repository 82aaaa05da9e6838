/** Merging a configuration into the road types already in a project file
    (mergeConfigWithFile, cmd/tv4p-road-tool/utils.go:90-131). A road type
    whose name is already in the file gets the configuration's parts
    appended and its custom colours, type and id taken over; any other
    road type is appended. The merged configuration has no crossroads. */
module Merge {
  import opened Wrappers
  import opened Seqs
  import opened Bytes
  import opened Model
  import opened Errors
  import Decode

  /** One of the three part lists of a road type. */
  datatype PartList = Straight | Corner | Terminator

  function PartsOf(rt: RoadType, k: PartList): seq<RoadPart> {
    match k
    case Straight => rt.straightParts
    case Corner => rt.cornerParts
    case Terminator => rt.terminatorParts
  }

  /** What one configuration road type does to the file's road type of
      the same name. */
  function UpdateType(ex: RoadType, rt: RoadType): (r: RoadType)
    ensures r.name == ex.name
  {
    ex.(straightParts := ex.straightParts + rt.straightParts,
        cornerParts := ex.cornerParts + rt.cornerParts,
        terminatorParts := ex.terminatorParts + rt.terminatorParts,
        keyCustom := ex.keyCustom || rt.keyCustom,
        keyColor := if rt.keyCustom then rt.keyColor else ex.keyColor,
        normalCustom := ex.normalCustom || rt.normalCustom,
        normalColor := if rt.normalCustom then rt.normalColor else ex.normalColor,
        typ := if rt.typ != 0 then rt.typ else ex.typ,
        id := if rt.id != 0 then rt.id else ex.id)
  }

  /** The updates of several configuration road types, in order. */
  function UpdateAll(ex: RoadType, rts: seq<RoadType>): (r: RoadType)
    ensures r.name == ex.name
    decreases |rts|
  {
    if |rts| == 0 then ex else UpdateType(UpdateAll(ex, rts[..|rts| - 1]), rts[|rts| - 1])
  }

  /** The parts of a list, all configuration road types' parts in order. */
  function AllParts(rts: seq<RoadType>, k: PartList): seq<RoadPart>
    decreases |rts|
  {
    if |rts| == 0 then [] else AllParts(rts[..|rts| - 1], k) + PartsOf(rts[|rts| - 1], k)
  }

  function KeyFlags(rts: seq<RoadType>): (f: seq<bool>)
    ensures |f| == |rts| && forall j :: 0 <= j < |rts| ==> f[j] == rts[j].keyCustom
  {
    seq(|rts|, j requires 0 <= j < |rts| => rts[j].keyCustom)
  }

  function NormalFlags(rts: seq<RoadType>): (f: seq<bool>)
    ensures |f| == |rts| && forall j :: 0 <= j < |rts| ==> f[j] == rts[j].normalCustom
  {
    seq(|rts|, j requires 0 <= j < |rts| => rts[j].normalCustom)
  }

  function TypeFlags(rts: seq<RoadType>): (f: seq<bool>)
    ensures |f| == |rts| && forall j :: 0 <= j < |rts| ==> f[j] == (rts[j].typ != 0)
  {
    seq(|rts|, j requires 0 <= j < |rts| => rts[j].typ != 0)
  }

  function IdFlags(rts: seq<RoadType>): (f: seq<bool>)
    ensures |f| == |rts| && forall j :: 0 <= j < |rts| ==> f[j] == (rts[j].id != 0)
  {
    seq(|rts|, j requires 0 <= j < |rts| => rts[j].id != 0)
  }

  /** The flag-gated fields after several updates: the last custom
      colour wins, the last non-zero type and id win, and without one
      the file's value stays. */
  predicate GatedFieldsAfter(ex: RoadType, rts: seq<RoadType>, r: RoadType) {
    && r.keyCustom == (ex.keyCustom || LastSet(KeyFlags(rts), |rts|).Some?)
    && r.keyColor == (match LastSet(KeyFlags(rts), |rts|) case Some(j) => rts[j].keyColor case None => ex.keyColor)
    && r.normalCustom == (ex.normalCustom || LastSet(NormalFlags(rts), |rts|).Some?)
    && r.normalColor == (match LastSet(NormalFlags(rts), |rts|) case Some(j) => rts[j].normalColor case None => ex.normalColor)
    && r.typ == (match LastSet(TypeFlags(rts), |rts|) case Some(j) => rts[j].typ case None => ex.typ)
    && r.id == (match LastSet(IdFlags(rts), |rts|) case Some(j) => rts[j].id case None => ex.id)
  }

  /** Dropping the last element of a flag list drops its last entry. */
  lemma LastSetPrefix(f: seq<bool>, g: seq<bool>)
    requires |f| > 0 && g == f[..|f| - 1]
    ensures LastSet(f, |f|) == (if f[|f| - 1] then Some(|f| - 1) else LastSet(g, |g|))
    ensures forall j :: 0 <= j < |g| ==> g[j] == f[j]
  {
    if !f[|f| - 1] {
      LastSetSame(f, g, |g|);
    }
  }

  lemma {:induction false} LastSetSame(f: seq<bool>, g: seq<bool>, n: nat)
    requires n <= |f| && n <= |g| && forall j :: 0 <= j < n ==> f[j] == g[j]
    ensures LastSet(f, n) == LastSet(g, n)
    decreases n
  {
    if n > 0 {
      LastSetSame(f, g, n - 1);
    }
  }

  /** What several updates do: every part list gets all the parts
      appended in order, and the flag-gated fields are those of the last
      road type that sets them. */
  lemma UpdateAllSpec(ex: RoadType, rts: seq<RoadType>)
    ensures forall k :: PartsOf(UpdateAll(ex, rts), k) == PartsOf(ex, k) + AllParts(rts, k)
    ensures GatedFieldsAfter(ex, rts, UpdateAll(ex, rts))
  {
    forall k
      ensures PartsOf(UpdateAll(ex, rts), k) == PartsOf(ex, k) + AllParts(rts, k)
    {
      UpdateAllParts(ex, rts, k);
    }
    UpdateAllKey(ex, rts);
    UpdateAllNormal(ex, rts);
    UpdateAllTyp(ex, rts);
    UpdateAllId(ex, rts);
  }

  lemma {:induction false} UpdateAllParts(ex: RoadType, rts: seq<RoadType>, k: PartList)
    ensures PartsOf(UpdateAll(ex, rts), k) == PartsOf(ex, k) + AllParts(rts, k)
    decreases |rts|
  {
    if |rts| > 0 {
      var init := rts[..|rts| - 1];
      UpdateAllParts(ex, init, k);
      assert PartsOf(UpdateAll(ex, rts), k) == PartsOf(UpdateAll(ex, init), k) + PartsOf(rts[|rts| - 1], k);
    }
  }

  lemma {:induction false} UpdateAllKey(ex: RoadType, rts: seq<RoadType>)
    ensures UpdateAll(ex, rts).keyCustom == (ex.keyCustom || LastSet(KeyFlags(rts), |rts|).Some?)
    ensures UpdateAll(ex, rts).keyColor ==
      (match LastSet(KeyFlags(rts), |rts|) case Some(j) => rts[j].keyColor case None => ex.keyColor)
    decreases |rts|
  {
    if |rts| > 0 {
      var init := rts[..|rts| - 1];
      UpdateAllKey(ex, init);
      assert KeyFlags(init) == KeyFlags(rts)[..|rts| - 1];
      LastSetPrefix(KeyFlags(rts), KeyFlags(init));
      ShiftedIndex(rts, init);
    }
  }

  lemma {:induction false} UpdateAllNormal(ex: RoadType, rts: seq<RoadType>)
    ensures UpdateAll(ex, rts).normalCustom == (ex.normalCustom || LastSet(NormalFlags(rts), |rts|).Some?)
    ensures UpdateAll(ex, rts).normalColor ==
      (match LastSet(NormalFlags(rts), |rts|) case Some(j) => rts[j].normalColor case None => ex.normalColor)
    decreases |rts|
  {
    if |rts| > 0 {
      var init := rts[..|rts| - 1];
      UpdateAllNormal(ex, init);
      assert NormalFlags(init) == NormalFlags(rts)[..|rts| - 1];
      LastSetPrefix(NormalFlags(rts), NormalFlags(init));
      ShiftedIndex(rts, init);
    }
  }

  lemma {:induction false} UpdateAllTyp(ex: RoadType, rts: seq<RoadType>)
    ensures UpdateAll(ex, rts).typ == (match LastSet(TypeFlags(rts), |rts|) case Some(j) => rts[j].typ case None => ex.typ)
    decreases |rts|
  {
    if |rts| > 0 {
      var init := rts[..|rts| - 1];
      UpdateAllTyp(ex, init);
      assert TypeFlags(init) == TypeFlags(rts)[..|rts| - 1];
      LastSetPrefix(TypeFlags(rts), TypeFlags(init));
      ShiftedIndex(rts, init);
    }
  }

  lemma {:induction false} UpdateAllId(ex: RoadType, rts: seq<RoadType>)
    ensures UpdateAll(ex, rts).id == (match LastSet(IdFlags(rts), |rts|) case Some(j) => rts[j].id case None => ex.id)
    decreases |rts|
  {
    if |rts| > 0 {
      var init := rts[..|rts| - 1];
      UpdateAllId(ex, init);
      assert IdFlags(init) == IdFlags(rts)[..|rts| - 1];
      LastSetPrefix(IdFlags(rts), IdFlags(init));
      ShiftedIndex(rts, init);
    }
  }

  lemma ShiftedIndex(rts: seq<RoadType>, init: seq<RoadType>)
    requires |rts| > 0 && init == rts[..|rts| - 1]
    ensures forall j :: 0 <= j < |init| ==> init[j] == rts[j]
  {
  }

  // ---------------------------------------------------------------------
  // The merge as intended.

  /** Which of the first `n` road types have the name `name`. */
  function NameFlags(types: seq<RoadType>, name: string, n: nat): (f: seq<bool>)
    requires n <= |types|
    ensures |f| == n && forall j :: 0 <= j < n ==> f[j] == (types[j].name == name)
  {
    seq(n, j requires 0 <= j < n => types[j].name == name)
  }

  /** The `byName` lookup: the last of the file's `n0` road types with
      the name (later ones overwrite earlier ones in the map). */
  function Lookup(acc: seq<RoadType>, n0: nat, name: string): (r: Option<nat>)
    requires n0 <= |acc|
    ensures r.Some? ==> r.value < n0
  {
    LastSet(NameFlags(acc, name, n0), n0)
  }

  /** One configuration road type, looked up among the file's `n0` road
      types only: updated in place, or appended. */
  function MergeStep(acc: seq<RoadType>, n0: nat, rt: RoadType): (r: seq<RoadType>)
    requires n0 <= |acc|
    ensures |acc| <= |r|
  {
    match Lookup(acc, n0, rt.name)
    case Some(i) => acc[i := UpdateType(acc[i], rt)]
    case None => acc + [rt]
  }

  /** The merge after the first `k` configuration road types. */
  function MergeUpTo(ex: seq<RoadType>, cfg: seq<RoadType>, k: nat): (r: seq<RoadType>)
    requires k <= |cfg|
    ensures |ex| <= |r|
    decreases k
  {
    if k == 0 then ex else MergeStep(MergeUpTo(ex, cfg, k - 1), |ex|, cfg[k - 1])
  }

  function MergeTypes(ex: seq<RoadType>, cfg: seq<RoadType>): seq<RoadType> {
    MergeUpTo(ex, cfg, |cfg|)
  }

  /** mergeConfigWithFile: a file whose road types cannot be read is an
      error; otherwise the merged road types and no crossroads. */
  function MergeConfigWithFile(cfg: RoadConfig, data: bytes): (r: Result<RoadConfig, Error>)
    ensures Decode.ParseRoadTypes(data).Failure? ==> r == Failure(Decode.ParseRoadTypes(data).error)
    ensures r.Success? ==> (r.value.crossroads.None?
      && r.value.types == MergeTypes(Decode.ParseRoadTypes(data).value.types, cfg.types))
  {
    var block :- Decode.ParseRoadTypes(data);
    Success(RoadConfig(MergeTypes(block.types, cfg.types), None))
  }

  /** The file's `i`-th road type is the last with its name. */
  predicate IsLastNamed(ex: seq<RoadType>, i: nat)
    requires i < |ex|
  {
    forall j :: i < j < |ex| ==> ex[j].name != ex[i].name
  }

  predicate NameIn(ex: seq<RoadType>, name: string) {
    exists j :: 0 <= j < |ex| && ex[j].name == name
  }

  /** The first `k` configuration road types with the name `name`. */
  function Matching(cfg: seq<RoadType>, k: nat, name: string): seq<RoadType>
    requires k <= |cfg|
    decreases k
  {
    if k == 0 then [] else Matching(cfg, k - 1, name) + (if cfg[k - 1].name == name then [cfg[k - 1]] else [])
  }

  /** The first `k` configuration road types whose name is not in the file. */
  function Fresh(ex: seq<RoadType>, cfg: seq<RoadType>, k: nat): seq<RoadType>
    requires k <= |cfg|
    decreases k
  {
    if k == 0 then [] else Fresh(ex, cfg, k - 1) + (if NameIn(ex, cfg[k - 1].name) then [] else [cfg[k - 1]])
  }

  /** What the merge has done after `k` configuration road types. */
  predicate MergedSoFar(ex: seq<RoadType>, cfg: seq<RoadType>, k: nat, r: seq<RoadType>)
    requires k <= |cfg|
  {
    && |r| == |ex| + |Fresh(ex, cfg, k)|
    && (forall i :: 0 <= i < |ex| ==>
          r[i] == if IsLastNamed(ex, i) then UpdateAll(ex[i], Matching(cfg, k, ex[i].name)) else ex[i])
    && r[|ex|..] == Fresh(ex, cfg, k)
  }

  /** The lookup among the merged prefix finds what it would find in the
      file itself, since updates keep names. */
  lemma LookupInFile(ex: seq<RoadType>, acc: seq<RoadType>, name: string)
    requires |ex| <= |acc| && forall i :: 0 <= i < |ex| ==> acc[i].name == ex[i].name
    ensures Lookup(acc, |ex|, name) == Lookup(ex, |ex|, name)
    ensures Lookup(ex, |ex|, name).None? <==> !NameIn(ex, name)
    ensures Lookup(ex, |ex|, name).Some? ==>
      ex[Lookup(ex, |ex|, name).value].name == name && IsLastNamed(ex, Lookup(ex, |ex|, name).value)
  {
    LastSetSame(NameFlags(acc, name, |ex|), NameFlags(ex, name, |ex|), |ex|);
    var r := Lookup(ex, |ex|, name);
    if r.Some? {
      assert NameFlags(ex, name, |ex|)[r.value];
    }
  }

  /** A configuration road type whose name is in the file updates the
      last file road type of that name. */
  lemma MergeStepFound(ex: seq<RoadType>, cfg: seq<RoadType>, k: nat, acc: seq<RoadType>, b: nat)
    requires 0 < k <= |cfg| && MergedSoFar(ex, cfg, k - 1, acc)
    requires b < |ex| && ex[b].name == cfg[k - 1].name && IsLastNamed(ex, b)
    ensures MergedSoFar(ex, cfg, k, acc[b := UpdateType(acc[b], cfg[k - 1])])
  {
    var rt := cfg[k - 1];
    var r := acc[b := UpdateType(acc[b], rt)];
    assert Fresh(ex, cfg, k) == Fresh(ex, cfg, k - 1);
    forall i | 0 <= i < |ex|
      ensures r[i] == if IsLastNamed(ex, i) then UpdateAll(ex[i], Matching(cfg, k, ex[i].name)) else ex[i]
    {
      if i == b {
        var m := Matching(cfg, k, ex[i].name);
        assert acc[i] == UpdateAll(ex[i], Matching(cfg, k - 1, ex[i].name));
        assert m == Matching(cfg, k - 1, ex[i].name) + [rt];
        assert m[..|m| - 1] == Matching(cfg, k - 1, ex[i].name);
        assert UpdateAll(ex[i], m) == UpdateType(UpdateAll(ex[i], Matching(cfg, k - 1, ex[i].name)), rt);
      } else {
        assert r[i] == acc[i];
        assert acc[i] == if IsLastNamed(ex, i) then UpdateAll(ex[i], Matching(cfg, k - 1, ex[i].name)) else ex[i];
        if IsLastNamed(ex, i) {
          assert ex[i].name != rt.name;
          assert Matching(cfg, k, ex[i].name) == Matching(cfg, k - 1, ex[i].name) + [];
          assert Matching(cfg, k, ex[i].name) == Matching(cfg, k - 1, ex[i].name);
        }
      }
    }
    assert r[|ex|..] == acc[|ex|..];
  }

  /** A configuration road type whose name is not in the file is appended. */
  lemma MergeStepFresh(ex: seq<RoadType>, cfg: seq<RoadType>, k: nat, acc: seq<RoadType>)
    requires 0 < k <= |cfg| && MergedSoFar(ex, cfg, k - 1, acc)
    requires !NameIn(ex, cfg[k - 1].name)
    ensures MergedSoFar(ex, cfg, k, acc + [cfg[k - 1]])
  {
    var rt := cfg[k - 1];
    var r := acc + [rt];
    assert Fresh(ex, cfg, k) == Fresh(ex, cfg, k - 1) + [rt];
    forall i | 0 <= i < |ex|
      ensures r[i] == if IsLastNamed(ex, i) then UpdateAll(ex[i], Matching(cfg, k, ex[i].name)) else ex[i]
    {
      assert ex[i].name != rt.name;
      assert r[i] == acc[i];
      assert acc[i] == if IsLastNamed(ex, i) then UpdateAll(ex[i], Matching(cfg, k - 1, ex[i].name)) else ex[i];
      assert Matching(cfg, k, ex[i].name) == Matching(cfg, k - 1, ex[i].name) + [];
      assert Matching(cfg, k, ex[i].name) == Matching(cfg, k - 1, ex[i].name);
    }
    assert r[|ex|..] == acc[|ex|..] + [rt];
  }

  lemma {:induction false} MergeUpToSpec(ex: seq<RoadType>, cfg: seq<RoadType>, k: nat)
    requires k <= |cfg|
    ensures MergedSoFar(ex, cfg, k, MergeUpTo(ex, cfg, k))
    decreases k
  {
    if k > 0 {
      MergeUpToSpec(ex, cfg, k - 1);
      var acc := MergeUpTo(ex, cfg, k - 1);
      var rt := cfg[k - 1];
      forall i | 0 <= i < |ex|
        ensures acc[i].name == ex[i].name
      {
      }
      LookupInFile(ex, acc, rt.name);
      match Lookup(ex, |ex|, rt.name)
      case Some(b) =>
        MergeStepFound(ex, cfg, k, acc, b);
      case None =>
        MergeStepFresh(ex, cfg, k, acc);
    }
  }

  /** What the merge returns: the file's road types in place, each the
      last of its name updated by every configuration road type of that
      name in order (earlier duplicates untouched), followed by the
      configuration road types whose names are not in the file. */
  lemma MergeTypesSpec(ex: seq<RoadType>, cfg: seq<RoadType>)
    ensures MergedSoFar(ex, cfg, |cfg|, MergeTypes(ex, cfg))
  {
    MergeUpToSpec(ex, cfg, |cfg|);
  }

  // ---------------------------------------------------------------------
  // The merge as written.

  /** The Go loop keeps `byName` pointers into the slice's backing array.
      An append to a full slice (length equal to capacity) moves the
      elements to a new array; from then on updates through the pointers
      land in the old array and are lost. `live` says whether the
      pointers still reach the returned slice. */
  datatype SliceState = SliceState(types: seq<RoadType>, live: bool)

  function StepAsWritten(st: SliceState, n0: nat, cap: nat, rt: RoadType): (r: SliceState)
    requires n0 <= |st.types|
    ensures |st.types| <= |r.types|
  {
    match Lookup(st.types, n0, rt.name)
    case Some(i) =>
      if st.live then st.(types := st.types[i := UpdateType(st.types[i], rt)]) else st
    case None =>
      SliceState(st.types + [rt], st.live && |st.types| < cap)
  }

  function UpToAsWritten(ex: seq<RoadType>, cap: nat, cfg: seq<RoadType>, k: nat): (r: SliceState)
    requires k <= |cfg|
    ensures |ex| <= |r.types|
    decreases k
  {
    if k == 0 then SliceState(ex, true) else StepAsWritten(UpToAsWritten(ex, cap, cfg, k - 1), |ex|, cap, cfg[k - 1])
  }

  /** The merge as written, for a decoded slice of capacity `cap`. */
  function MergeTypesAsWritten(ex: seq<RoadType>, cap: nat, cfg: seq<RoadType>): seq<RoadType>
    requires |ex| <= cap
  {
    UpToAsWritten(ex, cap, cfg, |cfg|).types
  }

  /** While no append has outgrown the capacity, the code as written does
      what was intended. */
  lemma {:induction false} AsWrittenWhileLive(ex: seq<RoadType>, cap: nat, cfg: seq<RoadType>, k: nat)
    requires k <= |cfg| && |ex| + |cfg| <= cap
    ensures UpToAsWritten(ex, cap, cfg, k) == SliceState(MergeUpTo(ex, cfg, k), true)
    ensures |MergeUpTo(ex, cfg, k)| <= |ex| + k
    decreases k
  {
    if k > 0 {
      AsWrittenWhileLive(ex, cap, cfg, k - 1);
    }
  }

  lemma AsWrittenWithRoom(ex: seq<RoadType>, cap: nat, cfg: seq<RoadType>)
    requires |ex| + |cfg| <= cap
    ensures MergeTypesAsWritten(ex, cap, cfg) == MergeTypes(ex, cfg)
  {
    AsWrittenWhileLive(ex, cap, cfg, |cfg|);
  }

  /** A file with one road type `a`, decoded into a slice of capacity
      one, and a configuration that first adds a new road type `b` and
      then sets a custom key colour on `a`: the code as written loses the
      colour, the intended merge keeps it. */
  lemma LostUpdateAfterGrowth(a: RoadType, b: RoadType, a2: RoadType)
    requires b.name != a.name && a2.name == a.name
    requires !a.keyCustom && a2.keyCustom
    ensures MergeTypesAsWritten([a], 1, [b, a2]) == [a, b]
    ensures MergeTypes([a], [b, a2])[0].keyCustom
  {
    var cfg := [b, a2];
    var s1 := UpToAsWritten([a], 1, cfg, 1);
    assert Lookup([a], 1, b.name).None? by {
      assert !NameFlags([a], b.name, 1)[0];
    }
    assert s1 == SliceState([a, b], false);
    assert Lookup([a, b], 1, a2.name) == Some(0) by {
      assert NameFlags([a, b], a2.name, 1)[0];
    }
    MergeTypesSpec([a], cfg);
    var m := Matching(cfg, 2, a.name);
    assert m == [a2];
    assert UpdateAll(a, m) == UpdateType(a, a2);
  }
}
