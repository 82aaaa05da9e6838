/** Which lists a patch replaces, and the checks it makes before
    splicing (PatchRoadTool, internal/tv4p/write.go:50-175). The road types list is replaced only
    when the scope includes roads. The crossroad lists are replaced only
    when the scope includes crossroads and the configuration carries a
    crossroad list at all: a nil list means "keep whatever the file has".
    The replacement blobs themselves are built by Encode, CrossroadWrite
    and Offsets and are parameters here. */
module Patch {
  import opened Wrappers
  import opened Bytes
  import opened Model
  import Scope
  import opened Splice
  import opened Errors
  import Crossroads

  /** The crossroad gate: `scope.IncludesCrossroads() && cfg.CrossroadTypes != nil`. */
  predicate TouchesCrossroads(scope: string, cfg: RoadConfig) {
    Scope.IncludesCrossroads(scope) && cfg.crossroads.Some?
  }

  /** The meta region between the definitions and the links lists lies
      inside the data (`metaStart <= metaEnd <= len(data)`). */
  predicate MetaRangeOk(defs: Crossroads.TaggedList, links: Crossroads.TaggedList, dataLen: nat) {
    defs.start + defs.fieldLen <= links.start <= dataLen
  }

  /** The error returns of PatchRoadTool before the splice, in the order
      Go reaches them (internal/tv4p/write.go:50-131): the roads scope
      needs road types, then building the road types field (`roadWork`);
      with the crossroad gate open both crossroad lists must have been
      found, then validating and building the crossroad fields
      (`crossWork`), and the meta range between the lists must lie in
      the data. `defs` and `links` are the results of
      findTaggedListAfter for 0x89 and 0x8A. */
  function PatchGate(scope: string, cfg: RoadConfig, roadWork: Result<(), Error>,
                     defs: Option<Crossroads.TaggedList>, links: Option<Crossroads.TaggedList>,
                     crossWork: Result<(), Error>, dataLen: nat): (r: Result<(), Error>)
    ensures r.Success? <==>
      && (Scope.IncludesRoads(scope) ==> |cfg.types| > 0 && roadWork.Success?)
      && (TouchesCrossroads(scope, cfg) ==>
            defs.Some? && links.Some? && crossWork.Success? && MetaRangeOk(defs.value, links.value, dataLen))
    ensures Scope.IncludesRoads(scope) && |cfg.types| == 0 ==> r == Failure(RoadTypesRequired)
    ensures (Scope.IncludesRoads(scope) ==> |cfg.types| > 0 && roadWork.Success?) && TouchesCrossroads(scope, cfg) ==>
      && ((defs.None? || links.None?) ==> r == Failure(CrossroadListsNotFound))
      && ((defs.Some? && links.Some? && crossWork.Success? && !MetaRangeOk(defs.value, links.value, dataLen)) ==>
            r == Failure(InvalidCrossroadsMetaRange))
    ensures r.Failure? ==>
      r.error in {RoadTypesRequired, CrossroadListsNotFound, InvalidCrossroadsMetaRange}
      || (roadWork.Failure? && r.error == roadWork.error)
      || (crossWork.Failure? && r.error == crossWork.error)
  {
    if Scope.IncludesRoads(scope) && |cfg.types| == 0 then Failure(RoadTypesRequired)
    else if Scope.IncludesRoads(scope) && roadWork.Failure? then roadWork
    else if !TouchesCrossroads(scope, cfg) then Success(())
    else if defs.None? || links.None? then Failure(CrossroadListsNotFound)
    else if crossWork.Failure? then crossWork
    else if !MetaRangeOk(defs.value, links.value, dataLen) then Failure(InvalidCrossroadsMetaRange)
    else Success(())
  }

  /** With the crossroad gate closed, whether the crossroad lists were
      found, how the crossroad work went and where the lists lie make no
      difference to the outcome. */
  lemma GateIgnoresCrossroadsWhenClosed(scope: string, cfg: RoadConfig, roadWork: Result<(), Error>,
                                        defs: Option<Crossroads.TaggedList>, links: Option<Crossroads.TaggedList>,
                                        crossWork: Result<(), Error>, dataLen: nat)
    requires !TouchesCrossroads(scope, cfg)
    ensures PatchGate(scope, cfg, roadWork, defs, links, crossWork, dataLen)
      == PatchGate(scope, cfg, roadWork, None, None, Success(()), 0)
  {
  }

  /** The replacements a patch applies, given the road types replacement
      and the crossroad replacements it would build. */
  function PatchReplacements(scope: string, cfg: RoadConfig, roads: seq<Replacement>, crossroads: seq<Replacement>): (r: seq<Replacement>)
    ensures Scope.IncludesRoads(scope) ==> roads <= r
    ensures TouchesCrossroads(scope, cfg) ==> |crossroads| <= |r| && r[|r| - |crossroads|..] == crossroads
    ensures !TouchesCrossroads(scope, cfg) ==> forall k :: 0 <= k < |r| ==> r[k] in roads
    ensures !Scope.IncludesRoads(scope) ==> forall k :: 0 <= k < |r| ==> r[k] in crossroads
  {
    (if Scope.IncludesRoads(scope) then roads else []) + (if TouchesCrossroads(scope, cfg) then crossroads else [])
  }

  /** When the gate is closed (a nil crossroad list, or a scope without
      crossroads), every byte from the end of the road types list on
      reaches the spliced output unchanged. */
  lemma CrossroadsPreserved(data: bytes, scope: string, cfg: RoadConfig,
                            roads: seq<Replacement>, crossroads: seq<Replacement>, after: int)
    requires !TouchesCrossroads(scope, cfg)
    requires 0 <= after <= |data| && Disjoint(roads, after) && DistinctStarts(roads)
    ensures var r := ApplyAll(data, SortReplsDesc(PatchReplacements(scope, cfg, roads, crossroads)));
      && r.Success?
      && |r.value.0| >= |data| - after
      && r.value.0[|r.value.0| - (|data| - after)..] == data[after..]
  {
    var eff: seq<Replacement> := if Scope.IncludesRoads(scope) then roads else [];
    assert PatchReplacements(scope, cfg, roads, crossroads) == eff;
    TailPreserved(data, eff, after);
  }

  /** Disjoint replacements that end by `after` leave data[after:] at the
      end of the output. */
  lemma TailPreserved(data: bytes, rs: seq<Replacement>, after: int)
    requires 0 <= after <= |data| && Disjoint(rs, after) && DistinctStarts(rs)
    ensures var r := ApplyAll(data, SortReplsDesc(rs));
      && r.Success?
      && |r.value.0| >= |data| - after
      && r.value.0[|r.value.0| - (|data| - after)..] == data[after..]
  {
    var p, s := data[..after], data[after..];
    var sorted := SortReplsDesc(rs);
    SortedChain(p, rs);
    SpliceFrame(p, s, sorted);
    assert p + s == data;
    var out := Piece(p, sorted) + s;
    assert out[|out| - |s|..] == s;
  }

  /** Without roads in the scope, replacements that lie after the road
      types list leave every byte before its end unchanged. */
  lemma RoadTypesPreserved(data: bytes, scope: string, cfg: RoadConfig,
                           roads: seq<Replacement>, crossroads: seq<Replacement>, after: int)
    requires !Scope.IncludesRoads(scope)
    requires 0 <= after <= |data| && Disjoint(crossroads, |data|) && DistinctStarts(crossroads)
    requires forall k :: 0 <= k < |crossroads| ==> after <= crossroads[k].start
    ensures var r := ApplyAll(data, SortReplsDesc(PatchReplacements(scope, cfg, roads, crossroads)));
      && r.Success?
      && |r.value.0| >= after
      && r.value.0[..after] == data[..after]
  {
    var eff: seq<Replacement> := if TouchesCrossroads(scope, cfg) then crossroads else [];
    assert PatchReplacements(scope, cfg, roads, crossroads) == eff;
    var sorted := SortReplsDesc(eff);
    SortedChain(data, eff);
    SpliceDescending(data, sorted);
    SortSpec(eff);
    forall k | 0 <= k < |sorted|
      ensures after <= sorted[k].start
    {
      var x := PermPosition(eff, sorted, k);
    }
    PiecePrefix(data, sorted, after);
  }
}
