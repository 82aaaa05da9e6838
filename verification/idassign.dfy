/** Road type ids before the entries are built
    (internal/tv4p/write.go:328-465): ids kept from the file's own road
    types when the configuration is a round trip of them, then a
    Terrain Builder-like series (stride 0x48, one residue per file) for
    every road type still without an id. */
module IdAssign {
  import opened Wrappers
  import opened Errors
  import opened Bytes
  import opened Model
  import Text

  // ---------------------------------------------------------------------
  // Inheriting ids from the file.

  /** The last index whose key is `k`: Go fills its lookup maps in list
      order, so a later duplicate key overwrites an earlier one. */
  function LastKeyIndex(keys: seq<Option<string>>, k: string): (r: Option<nat>)
    ensures r.Some? ==> r.value < |keys| && keys[r.value] == Some(k)
    ensures r.Some? ==> forall j :: r.value < j < |keys| ==> keys[j] != Some(k)
    ensures r.None? <==> forall j :: 0 <= j < |keys| ==> keys[j] != Some(k)
    decreases |keys|
  {
    if |keys| == 0 then None
    else if keys[|keys| - 1] == Some(k) then Some(|keys| - 1)
    else LastKeyIndex(keys[..|keys| - 1], k)
  }

  /** byPath: parts with an id and a path, keyed by the lower-cased path. */
  function PathKeys(src: seq<RoadPart>): (keys: seq<Option<string>>)
    ensures |keys| == |src|
  {
    seq(|src|, i requires 0 <= i < |src| =>
      if src[i].id == 0 || src[i].path == "" then None else Some(Text.Lower(src[i].path)))
  }

  /** The fallback key of a part: lower-cased name and path joined by '|'. */
  function PartKey(p: RoadPart): string {
    Text.Lower(p.name) + "|" + Text.Lower(p.path)
  }

  /** byKey: parts with an id, keyed by PartKey. */
  function PartKeys(src: seq<RoadPart>): (keys: seq<Option<string>>)
    ensures |keys| == |src|
  {
    seq(|src|, i requires 0 <= i < |src| => if src[i].id == 0 then None else Some(PartKey(src[i])))
  }

  /** One part of inheritPartListIDs: a part without an id takes the id of
      the last source part with the same path, or failing that with the
      same name and path. */
  function InheritPart(p: RoadPart, src: seq<RoadPart>): (r: RoadPart)
    ensures r == p.(id := r.id)
    ensures p.id != 0 ==> r == p
  {
    if p.id != 0 then p
    else
      var byPath := if p.path != "" then LastKeyIndex(PathKeys(src), Text.Lower(p.path)) else None;
      if byPath.Some? then p.(id := src[byPath.value].id)
      else
        match LastKeyIndex(PartKeys(src), PartKey(p))
        case Some(j) => p.(id := src[j].id)
        case None => p
  }

  /** An id a part inherits comes from a source part that carries it and
      matches by path or by name and path; a part with no such source part
      keeps its zero id. */
  lemma InheritPartSource(p: RoadPart, src: seq<RoadPart>)
    requires p.id == 0
    ensures var r := InheritPart(p, src);
      (r.id != 0 ==> exists j ::
                       && 0 <= j < |src| && src[j].id == r.id && src[j].id != 0
                       && ((p.path != "" && Text.Lower(src[j].path) == Text.Lower(p.path) && src[j].path != "")
                           || PartKey(src[j]) == PartKey(p)))
      && ((forall j :: 0 <= j < |src| && src[j].id != 0 ==>
            PartKey(src[j]) != PartKey(p)
            && (p.path == "" || src[j].path == "" || Text.Lower(src[j].path) != Text.Lower(p.path)))
          ==> r.id == 0)
  {
    var r := InheritPart(p, src);
    var pk := PathKeys(src);
    var kk := PartKeys(src);
    if p.path != "" && LastKeyIndex(pk, Text.Lower(p.path)).Some? {
      var j := LastKeyIndex(pk, Text.Lower(p.path)).value;
      assert pk[j] == Some(Text.Lower(p.path));
    } else if LastKeyIndex(kk, PartKey(p)).Some? {
      var j := LastKeyIndex(kk, PartKey(p)).value;
      assert kk[j] == Some(PartKey(p));
    } else {
      forall j | 0 <= j < |src| && src[j].id != 0
        ensures PartKey(src[j]) != PartKey(p)
      {
        assert kk[j] != Some(PartKey(p));
      }
    }
  }

  /** inheritPartListIDs over a whole list. */
  function InheritParts(dst: seq<RoadPart>, src: seq<RoadPart>): (r: seq<RoadPart>)
    ensures |r| == |dst|
  {
    seq(|dst|, i requires 0 <= i < |dst| => InheritPart(dst[i], src))
  }

  /** `after` is `before` with, at most, zero part ids filled in. */
  predicate FillsOnlyIds(before: seq<RoadPart>, after: seq<RoadPart>) {
    && |after| == |before|
    && forall k :: 0 <= k < |before| ==>
         after[k] == before[k].(id := after[k].id) && (before[k].id != 0 ==> after[k] == before[k])
  }

  /** Inheriting twice from the same list changes nothing more. */
  lemma InheritPartsIdempotent(dst: seq<RoadPart>, src: seq<RoadPart>)
    ensures InheritParts(InheritParts(dst, src), src) == InheritParts(dst, src)
  {
    var once := InheritParts(dst, src);
    forall i | 0 <= i < |dst|
      ensures InheritPart(once[i], src) == once[i]
    {
      if once[i].id == 0 {
        assert once[i] == dst[i];
      }
    }
  }

  /** byName: the file's road types with a name, keyed by the lower-cased
      name. */
  function NameKeys(existing: seq<RoadType>): (keys: seq<Option<string>>)
    ensures |keys| == |existing|
  {
    seq(|existing|, i requires 0 <= i < |existing| =>
      if existing[i].name == "" then None else Some(Text.Lower(existing[i].name)))
  }

  /** One road type of inheritExistingRoadTypeIDs: when the file has a
      road type of the same name (ignoring case, the last one wins), a
      missing road type id is taken from it and the three part lists
      inherit from its lists. */
  function InheritRoadType(rt: RoadType, existing: seq<RoadType>): (r: RoadType)
    ensures r.name == rt.name && r.typ == rt.typ && r.keyColor == rt.keyColor && r.normalColor == rt.normalColor
      && r.keyCustom == rt.keyCustom && r.normalCustom == rt.normalCustom
    ensures rt.id != 0 ==> r.id == rt.id
  {
    match LastKeyIndex(NameKeys(existing), Text.Lower(rt.name))
    case None => rt
    case Some(j) =>
      var ex := existing[j];
      rt.(id := if rt.id == 0 && ex.id != 0 then ex.id else rt.id,
          straightParts := InheritParts(rt.straightParts, ex.straightParts),
          cornerParts := InheritParts(rt.cornerParts, ex.cornerParts),
          terminatorParts := InheritParts(rt.terminatorParts, ex.terminatorParts))
  }

  /** inheritExistingRoadTypeIDs. */
  function InheritExistingRoadTypeIDs(types: seq<RoadType>, existing: seq<RoadType>): (r: seq<RoadType>)
    ensures |r| == |types|
  {
    seq(|types|, i requires 0 <= i < |types| => InheritRoadType(types[i], existing))
  }

  /** Inheritance only fills zero ids: everything else about a road type
      and its parts is kept, a road type that has no namesake in the file
      is untouched, and doing it twice is the same as doing it once. */
  lemma InheritOnlyFillsIds(types: seq<RoadType>, existing: seq<RoadType>)
    ensures var r := InheritExistingRoadTypeIDs(types, existing);
      forall i :: 0 <= i < |types| ==>
        && (types[i].id != 0 ==> r[i].id == types[i].id)
        && FillsOnlyIds(types[i].straightParts, r[i].straightParts)
        && FillsOnlyIds(types[i].cornerParts, r[i].cornerParts)
        && FillsOnlyIds(types[i].terminatorParts, r[i].terminatorParts)
        && ((forall j :: 0 <= j < |existing| ==>
               existing[j].name == "" || Text.Lower(existing[j].name) != Text.Lower(types[i].name))
            ==> r[i] == types[i])
  {
    var r := InheritExistingRoadTypeIDs(types, existing);
    forall i | 0 <= i < |types|
      ensures (forall j :: 0 <= j < |existing| ==> existing[j].name == "" || Text.Lower(existing[j].name) != Text.Lower(types[i].name))
             ==> r[i] == types[i]
    {
      var keys := NameKeys(existing);
      if forall j :: 0 <= j < |existing| ==> existing[j].name == "" || Text.Lower(existing[j].name) != Text.Lower(types[i].name) {
        assert forall j :: 0 <= j < |keys| ==> keys[j] != Some(Text.Lower(types[i].name));
      }
    }
  }

  lemma InheritIdempotent(types: seq<RoadType>, existing: seq<RoadType>)
    ensures InheritExistingRoadTypeIDs(InheritExistingRoadTypeIDs(types, existing), existing)
      == InheritExistingRoadTypeIDs(types, existing)
  {
    var once := InheritExistingRoadTypeIDs(types, existing);
    forall i | 0 <= i < |types|
      ensures InheritRoadType(once[i], existing) == once[i]
    {
      var rt := types[i];
      match LastKeyIndex(NameKeys(existing), Text.Lower(rt.name))
      case None =>
      case Some(j) =>
        var ex := existing[j];
        InheritPartsIdempotent(rt.straightParts, ex.straightParts);
        InheritPartsIdempotent(rt.cornerParts, ex.cornerParts);
        InheritPartsIdempotent(rt.terminatorParts, ex.terminatorParts);
    }
  }

  // ---------------------------------------------------------------------
  // The sequential series.

  /** The road type id stride Terrain Builder uses. */
  const TypeStride: nat := 0x48

  /** The remainder used when neither the file nor the configuration has
      a road type id. */
  const DefaultResidue: nat := 0x0C

  /** The first non-zero road type id of a list. */
  function FirstId(ts: seq<RoadType>): (r: Option<u32>)
    ensures r.Some? ==> r.value != 0 && exists i ::
                                          && 0 <= i < |ts| && ts[i].id == r.value
                                          && forall j :: 0 <= j < i ==> ts[j].id == 0
    ensures r.None? <==> forall i :: 0 <= i < |ts| ==> ts[i].id == 0
    decreases |ts|
  {
    if |ts| == 0 then None
    else if ts[0].id != 0 then Some(ts[0].id)
    else
      var r := FirstId(ts[1..]);
      assert forall i :: 1 <= i < |ts| ==> ts[i] == ts[1..][i - 1];
      r
  }

  /** The per-file remainder: that of the first road type id of the file,
      else of the configuration, else 0x0C. */
  function Residue(existing: seq<RoadType>, types: seq<RoadType>): (r: nat)
    ensures r < 0x48
  {
    match FirstId(existing + types)
    case Some(id) => id % 0x48
    case None => DefaultResidue
  }

  /** The largest road type id of a list (0 for none). */
  function MaxId(ts: seq<RoadType>): (m: u32)
    ensures forall i :: 0 <= i < |ts| ==> ts[i].id <= m
    ensures m == 0 || exists i :: 0 <= i < |ts| && ts[i].id == m
    decreases |ts|
  {
    if |ts| == 0 then 0
    else
      var rest := MaxId(ts[1..]);
      assert forall i :: 1 <= i < |ts| ==> ts[i] == ts[1..][i - 1];
      if ts[0].id > rest then ts[0].id else rest
  }

  /** The first candidate: one stride past the largest id, moved up to the
      residue. It is the only value with that residue in
      [maxId + 0x48, maxId + 0x90). */
  function StartAfter(maxId: nat, rem: nat): (r: nat)
    requires rem < 0x48
    ensures r % 0x48 == rem
    ensures maxId + 0x48 <= r < maxId + 0x90
  {
    var next := maxId + 0x48;
    var off := next % 0x48;
    if off == rem then next
    else if off < rem then next + (rem - off)
    else next + (0x48 - off) + rem
  }

  /** The inner loop: the first value of next, next + 0x48, ... that is
      not used yet. Go's uint32 counter would wrap past 2^32 - 1; the model
      stops there with IdSpaceExhausted. */
  function NextFree(used: set<u32>, next: nat): (r: Result<u32, Error>)
    requires next > 0
    ensures r.Success? ==> next <= r.value && r.value !in used && r.value % 0x48 == next % 0x48
    ensures r.Failure? ==> r.error == IdSpaceExhausted
    decreases U32Limit - next
  {
    if next >= U32Limit then Failure(IdSpaceExhausted)
    else if next !in used then Success(next as u32)
    else
      var r := NextFree(used, next + 0x48);
      StrideStep(next);
      r
  }

  /** The loop skips only used ids of the series, and fails only when
      every id of the series from `next` up to 2^32 - 1 is used. */
  lemma {:induction false} NextFreeFirst(used: set<u32>, next: nat)
    requires next > 0
    ensures var r := NextFree(used, next);
      && (r.Success? ==> forall x: u32 :: next <= x < r.value && x % 0x48 == next % 0x48 ==> x in used)
      && (r.Failure? ==> forall x: u32 :: next <= x && x % 0x48 == next % 0x48 ==> x in used)
    decreases U32Limit - next
  {
    if next < U32Limit && next in used {
      NextFreeFirst(used, next + 0x48);
      StrideStep(next);
    }
  }

  /** The values with the residue of `next` at or after it are `next` and
      those with that residue at or after next + 0x48. */
  lemma StrideStep(next: nat)
    ensures forall x: nat :: next < x < next + 0x48 ==> x % 0x48 != next % 0x48
    ensures (next + 0x48) % 0x48 == next % 0x48
  {
  }

  /** The outer loop over the road types, in order: road types with an id
      are left alone, the others take the next free id of the series. */
  function AssignFrom(types: seq<RoadType>, used: set<u32>, next: nat): (r: Result<(seq<RoadType>, set<u32>), Error>)
    requires next > 0
    ensures r.Success? ==> |r.value.0| == |types|
    ensures r.Failure? ==> r.error == IdSpaceExhausted
    decreases |types|
  {
    if |types| == 0 then Success(([], used))
    else if types[0].id != 0 then
      var rest :- AssignFrom(types[1..], used, next);
      Success(([types[0]] + rest.0, rest.1))
    else
      var id :- NextFree(used, next);
      var rest :- AssignFrom(types[1..], used + {id}, id + 0x48);
      Success(([types[0].(id := id)] + rest.0, rest.1))
  }

  /** The loop keeps the promises of SeriesOk. */
  lemma {:induction false} AssignFromSeries(types: seq<RoadType>, used: set<u32>, next: nat)
    requires next > 0
    requires AssignFrom(types, used, next).Success?
    ensures var r := AssignFrom(types, used, next).value;
      SeriesOk(types, used, next, r.0, r.1)
    decreases |types|
  {
    if |types| > 0 {
      var r := AssignFrom(types, used, next).value;
      if types[0].id != 0 {
        AssignFromSeries(types[1..], used, next);
        var rest := AssignFrom(types[1..], used, next).value;
        assert r == ([types[0]] + rest.0, rest.1);
        SeriesCons(types, used, next, types[0], rest.0, used, next, rest.1);
      } else {
        var id := NextFree(used, next).value;
        var next1 := id as nat + 0x48;
        AssignFromSeries(types[1..], used + {id}, next1);
        var rest := AssignFrom(types[1..], used + {id}, next1).value;
        assert r == ([types[0].(id := id)] + rest.0, rest.1);
        SeriesCons(types, used, next, types[0].(id := id), rest.0, used + {id}, next1, rest.1);
      }
    } else {
      assert NewIds(types, []) == {};
    }
  }

  /** What the series promises for road types `types` handed ids from
      `next` on with `used` taken: see SeriesIds, SeriesOrder and
      SeriesUsed. */
  predicate SeriesOk(types: seq<RoadType>, used: set<u32>, next: nat, out: seq<RoadType>, used2: set<u32>) {
    && SeriesIds(types, used, next, out)
    && SeriesOrder(types, out)
    && SeriesUsed(types, used, out, used2)
  }

  /** Only ids change, an id already set is kept, and every new id is
      non-zero, not used yet, at or after `next` and of its residue. */
  predicate SeriesIds(types: seq<RoadType>, used: set<u32>, next: nat, out: seq<RoadType>) {
    && |out| == |types|
    && (forall i :: 0 <= i < |types| ==> out[i] == types[i].(id := out[i].id))
    && (forall i :: 0 <= i < |types| && types[i].id != 0 ==> out[i].id == types[i].id)
    && (forall i :: 0 <= i < |types| && types[i].id == 0 ==>
          && out[i].id != 0 && out[i].id !in used
          && next <= out[i].id && out[i].id % 0x48 == next % 0x48)
  }

  /** The new ids increase along the list. */
  predicate SeriesOrder(types: seq<RoadType>, out: seq<RoadType>)
    requires |out| == |types|
  {
    forall i, j :: 0 <= i < j < |types| && types[i].id == 0 && types[j].id == 0 ==> out[i].id < out[j].id
  }

  /** The ids now taken are the old ones and the new ones. */
  predicate SeriesUsed(types: seq<RoadType>, used: set<u32>, out: seq<RoadType>, used2: set<u32>)
    requires |out| == |types|
  {
    used2 == used + NewIds(types, out)
  }

  function NewIds(types: seq<RoadType>, out: seq<RoadType>): set<u32>
    requires |out| == |types|
  {
    set i | 0 <= i < |types| && types[i].id == 0 :: out[i].id
  }

  lemma SeriesCons(types: seq<RoadType>, used: set<u32>, next: nat, head: RoadType,
                   rest: seq<RoadType>, used1: set<u32>, next1: nat, used2: set<u32>)
    requires |types| > 0 && head == types[0].(id := head.id)
    requires types[0].id != 0 ==> head == types[0] && used1 == used && next1 == next
    requires types[0].id == 0 ==>
      && head.id != 0 && head.id !in used && next <= head.id && head.id % 0x48 == next % 0x48
      && used1 == used + {head.id} && next1 == head.id + 0x48
    requires SeriesOk(types[1..], used1, next1, rest, used2)
    ensures SeriesOk(types, used, next, [head] + rest, used2)
  {
    SeriesIdsCons(types, used, next, head, rest, used1, next1);
    SeriesOrderCons(types, next, head, rest, next1);
    SeriesUsedCons(types, used, head, rest, used1, used2);
  }

  lemma SeriesIdsCons(types: seq<RoadType>, used: set<u32>, next: nat, head: RoadType,
                      rest: seq<RoadType>, used1: set<u32>, next1: nat)
    requires |types| > 0 && head == types[0].(id := head.id)
    requires types[0].id != 0 ==> head == types[0] && used1 == used && next1 == next
    requires types[0].id == 0 ==>
      && head.id != 0 && head.id !in used && next <= head.id && head.id % 0x48 == next % 0x48
      && used1 == used + {head.id} && next1 == head.id + 0x48
    requires SeriesIds(types[1..], used1, next1, rest)
    ensures SeriesIds(types, used, next, [head] + rest)
  {
    var out := [head] + rest;
    assert forall i :: 1 <= i < |types| ==> types[i] == types[1..][i - 1] && out[i] == rest[i - 1];
    if types[0].id == 0 {
      StrideStep(head.id);
    }
  }

  lemma SeriesOrderCons(types: seq<RoadType>, next: nat, head: RoadType, rest: seq<RoadType>, next1: nat)
    requires |types| > 0 && |rest| == |types| - 1
    requires types[0].id == 0 ==> next1 == head.id + 0x48
    requires forall i :: 0 <= i < |rest| && types[1..][i].id == 0 ==> next1 <= rest[i].id
    requires SeriesOrder(types[1..], rest)
    ensures SeriesOrder(types, [head] + rest)
  {
    var out := [head] + rest;
    assert forall i :: 1 <= i < |types| ==> types[i] == types[1..][i - 1] && out[i] == rest[i - 1];
  }

  lemma SeriesUsedCons(types: seq<RoadType>, used: set<u32>, head: RoadType,
                       rest: seq<RoadType>, used1: set<u32>, used2: set<u32>)
    requires |types| > 0 && |rest| == |types| - 1
    requires types[0].id != 0 ==> used1 == used
    requires types[0].id == 0 ==> used1 == used + {head.id}
    requires SeriesUsed(types[1..], used1, rest, used2)
    ensures SeriesUsed(types, used, [head] + rest, used2)
  {
    var out := [head] + rest;
    var later := NewIds(types[1..], rest);
    var all := NewIds(types, out);
    forall x | x in all ensures x in later || (types[0].id == 0 && x == head.id) {
      var i :| 0 <= i < |types| && types[i].id == 0 && out[i].id == x;
      if i > 0 { assert types[1..][i - 1].id == 0 && rest[i - 1].id == x; }
    }
    forall x | x in later ensures x in all {
      var i :| 0 <= i < |types[1..]| && types[1..][i].id == 0 && rest[i].id == x;
      assert out[i + 1].id == x && types[i + 1].id == 0;
    }
    if types[0].id == 0 {
      assert head.id in all by { assert out[0].id == head.id; }
    }
  }

  /** applySequentialRoadTypeIDs: the series starts one stride past the
      largest road type id of the file and the configuration, on the
      file's residue, and skips ids the file already uses. It returns the
      road types and the file's id set with the new ids added (Go adds
      them to the caller's map). */
  function ApplySequentialRoadTypeIDs(types: seq<RoadType>, existing: seq<RoadType>, existingIds: set<u32>)
    : (r: Result<(seq<RoadType>, set<u32>), Error>)
    ensures r.Success? ==> SeriesOk(types, existingIds, StartAfter(MaxId(existing + types), Residue(existing, types)), r.value.0, r.value.1)
    ensures r.Failure? ==> r.error == IdSpaceExhausted
  {
    var start := StartAfter(MaxId(existing + types), Residue(existing, types));
    var r := AssignFrom(types, existingIds, start);
    if r.Success? then
      AssignFromSeries(types, existingIds, start);
      r
    else r
  }

  /** The new ids carry the file's residue and are larger than every road
      type id of the file and of the configuration. */
  lemma SequentialIdsAboveAll(types: seq<RoadType>, existing: seq<RoadType>, existingIds: set<u32>)
    requires ApplySequentialRoadTypeIDs(types, existing, existingIds).Success?
    ensures var out := ApplySequentialRoadTypeIDs(types, existing, existingIds).value.0;
      forall i :: 0 <= i < |types| && types[i].id == 0 ==>
        && out[i].id % 0x48 == Residue(existing, types)
        && (forall j :: 0 <= j < |existing| ==> existing[j].id < out[i].id)
        && (forall j :: 0 <= j < |types| ==> types[j].id < out[i].id)
  {
    var all := existing + types;
    var m := MaxId(all);
    assert forall j :: 0 <= j < |existing| ==> all[j] == existing[j];
    assert forall j :: 0 <= j < |types| ==> all[|existing| + j] == types[j];
  }
}
