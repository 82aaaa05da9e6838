/** The portable projection of a Road Tool configuration
    (internal/tv4p/portable.go): names, model paths, colours and crossroad
    connections for reuse in another project, without ids, entry types or
    raw entry copies. The projection only goes one way. */
module Portable {
  import opened Wrappers
  import opened Model

  datatype PortableRoadPart = PortableRoadPart(name: string, path: string)

  datatype PortableRoadType = PortableRoadType(
    name: string,
    straightParts: seq<PortableRoadPart>,
    cornerParts: seq<PortableRoadPart>,
    terminatorParts: seq<PortableRoadPart>,
    keyColor: Color,
    normalColor: Color,
    keyCustom: bool,
    normalCustom: bool)

  datatype PortableCrossroadType = PortableCrossroadType(
    connections: CrossroadConnections,
    name: string,
    model: string,
    default: string,
    color: Color,
    colorCustom: bool)

  datatype PortableConfig = PortableConfig(types: seq<PortableRoadType>, crossroads: seq<PortableCrossroadType>)

  /** One part list: name and path of every part, in order. */
  function PortableParts(ps: seq<RoadPart>): (r: seq<PortableRoadPart>)
    ensures |r| == |ps|
    ensures forall i :: 0 <= i < |ps| ==> r[i].name == ps[i].name && r[i].path == ps[i].path
    decreases |ps|
  {
    if |ps| == 0 then [] else [PortableRoadPart(ps[0].name, ps[0].path)] + PortableParts(ps[1..])
  }

  function PortableType(rt: RoadType): (p: PortableRoadType)
    ensures p.name == rt.name && p.keyColor == rt.keyColor && p.normalColor == rt.normalColor
    ensures p.keyCustom == rt.keyCustom && p.normalCustom == rt.normalCustom
  {
    PortableRoadType(rt.name, PortableParts(rt.straightParts), PortableParts(rt.cornerParts),
                     PortableParts(rt.terminatorParts), rt.keyColor, rt.normalColor, rt.keyCustom, rt.normalCustom)
  }

  function PortableTypes(ts: seq<RoadType>): (r: seq<PortableRoadType>)
    ensures |r| == |ts|
    ensures forall i :: 0 <= i < |ts| ==> r[i] == PortableType(ts[i])
    decreases |ts|
  {
    if |ts| == 0 then [] else [PortableType(ts[0])] + PortableTypes(ts[1..])
  }

  function PortableCrossroad(cr: CrossroadType): (p: PortableCrossroadType)
    ensures p.name == cr.name && p.model == cr.model && p.color == cr.color && p.colorCustom == cr.colorCustom
    ensures p.connections == cr.connections && p.default == cr.default
  {
    PortableCrossroadType(cr.connections, cr.name, cr.model, cr.default, cr.color, cr.colorCustom)
  }

  function PortableCrossroads(crs: seq<CrossroadType>): (r: seq<PortableCrossroadType>)
    ensures |r| == |crs|
    ensures forall i :: 0 <= i < |crs| ==> r[i] == PortableCrossroad(crs[i])
    decreases |crs|
  {
    if |crs| == 0 then [] else [PortableCrossroad(crs[0])] + PortableCrossroads(crs[1..])
  }

  /** ToPortableConfig. A nil crossroad list projects to no crossroads. */
  function ToPortableConfig(cfg: RoadConfig): (r: PortableConfig)
    ensures |r.types| == |cfg.types|
    ensures cfg.crossroads.None? ==> r.crossroads == []
    ensures cfg.crossroads.Some? ==> |r.crossroads| == |cfg.crossroads.value|
  {
    PortableConfig(PortableTypes(cfg.types), match cfg.crossroads case Some(crs) => PortableCrossroads(crs) case None => [])
  }

  // ---------------------------------------------------------------------
  // What the projection forgets.

  /** Two parts that differ at most in id and entry type. */
  predicate SamePart(a: RoadPart, b: RoadPart) {
    a.name == b.name && a.path == b.path
  }

  predicate SameParts(a: seq<RoadPart>, b: seq<RoadPart>) {
    |a| == |b| && forall i :: 0 <= i < |a| ==> SamePart(a[i], b[i])
  }

  /** Two road types that differ at most in ids and entry types. */
  predicate SameType(a: RoadType, b: RoadType) {
    && a.name == b.name && a.keyColor == b.keyColor && a.normalColor == b.normalColor
    && a.keyCustom == b.keyCustom && a.normalCustom == b.normalCustom
    && SameParts(a.straightParts, b.straightParts) && SameParts(a.cornerParts, b.cornerParts)
    && SameParts(a.terminatorParts, b.terminatorParts)
  }

  /** Two crossroads that differ at most in their raw entry copies. */
  predicate SameCrossroad(a: CrossroadType, b: CrossroadType) {
    a == b.(def := a.def, link := a.link)
  }

  /** Two configurations that differ only in what the projection drops. */
  predicate SameButInternals(a: RoadConfig, b: RoadConfig) {
    && |a.types| == |b.types|
    && (forall i :: 0 <= i < |a.types| ==> SameType(a.types[i], b.types[i]))
    && a.crossroads.Some? == b.crossroads.Some?
    && (a.crossroads.Some? ==>
          |a.crossroads.value| == |b.crossroads.value|
          && forall i :: 0 <= i < |a.crossroads.value| ==> SameCrossroad(a.crossroads.value[i], b.crossroads.value[i]))
  }

  lemma PartsIgnoreIds(a: seq<RoadPart>, b: seq<RoadPart>)
    requires SameParts(a, b)
    ensures PortableParts(a) == PortableParts(b)
  {
  }

  /** Ids, entry types and raw entries do not reach the portable form:
      configurations that differ only in those project to the same thing,
      and anything else a road type or crossroad carries is kept. */
  lemma PortableIgnoresInternals(a: RoadConfig, b: RoadConfig)
    requires SameButInternals(a, b)
    ensures ToPortableConfig(a) == ToPortableConfig(b)
  {
    forall i | 0 <= i < |a.types|
      ensures PortableType(a.types[i]) == PortableType(b.types[i])
    {
      PartsIgnoreIds(a.types[i].straightParts, b.types[i].straightParts);
      PartsIgnoreIds(a.types[i].cornerParts, b.types[i].cornerParts);
      PartsIgnoreIds(a.types[i].terminatorParts, b.types[i].terminatorParts);
    }
  }

  /** Conversely, equal projections mean equal names, paths, colours,
      flags, connections and defaults. */
  lemma PortableKeepsVisible(a: RoadConfig, b: RoadConfig)
    requires ToPortableConfig(a) == ToPortableConfig(b)
    requires a.crossroads.Some? == b.crossroads.Some?
    ensures SameButInternals(a, b)
  {
    var pa, pb := ToPortableConfig(a), ToPortableConfig(b);
    forall i | 0 <= i < |a.types|
      ensures SameType(a.types[i], b.types[i])
    {
      assert pa.types[i] == pb.types[i];
      assert PortableType(a.types[i]) == PortableType(b.types[i]);
      PartsKept(a.types[i].straightParts, b.types[i].straightParts);
      PartsKept(a.types[i].cornerParts, b.types[i].cornerParts);
      PartsKept(a.types[i].terminatorParts, b.types[i].terminatorParts);
    }
    if a.crossroads.Some? {
      forall i | 0 <= i < |a.crossroads.value|
        ensures SameCrossroad(a.crossroads.value[i], b.crossroads.value[i])
      {
        assert pa.crossroads[i] == pb.crossroads[i];
      }
    }
  }

  lemma PartsKept(a: seq<RoadPart>, b: seq<RoadPart>)
    requires PortableParts(a) == PortableParts(b)
    ensures SameParts(a, b)
  {
    forall i | 0 <= i < |a|
      ensures SamePart(a[i], b[i])
    {
      assert PortableParts(a)[i] == PortableParts(b)[i];
    }
  }
}
