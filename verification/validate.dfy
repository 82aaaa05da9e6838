/** ValidateCrossroads (internal/tv4p/validate.go): the check a patch runs
    on the crossroad configuration before anything is written. Go visits
    the four sides in map order, so which side an "unknown road type"
    error names is not fixed; the model reports the crossroad only. */
module Validate {
  import opened Wrappers
  import opened Errors
  import opened Model
  import opened Crossroads
  import opened Scoring
  import Text

  /** The lower-cased names of the road types whose trimmed name is not
      blank (the name itself is lower-cased untrimmed, as in the source). */
  function KnownNames(types: seq<RoadType>): (names: set<string>)
    ensures forall n :: n in names <==>
      exists i :: 0 <= i < |types| && !Text.IsBlank(types[i].name) && Text.Lower(types[i].name) == n
  {
    set i | 0 <= i < |types| && !Text.IsBlank(types[i].name) :: Text.Lower(types[i].name)
  }

  /** A connection is fine when it is blank or its trimmed, lower-cased
      text is a known name. */
  predicate SideOk(names: set<string>, v: string) {
    Text.IsBlank(v) || Text.Lower(Text.TrimSpace(v)) in names
  }

  predicate ConnectionsOk(cr: CrossroadType, names: set<string>) {
    forall k :: 0 <= k < 4 ==> SideOk(names, Sides(cr.connections)[k])
  }

  /** The checks of one crossroad, in the source's order; `seen` maps each
      default key met so far to the crossroad that claimed it. */
  function CrossroadError(cr: CrossroadType, names: set<string>, seen: map<string, string>): (r: Option<Error>)
    ensures r.Some? ==> ValidationError(r.value)
  {
    if !ConnectionsOk(cr, names) then Some(UnknownConnection(cr.name))
    else if !HasDefault(cr) then None
    else
      var d := DefaultKey(cr);
      if d !in names then Some(UnknownDefault(cr.name, cr.default))
      else if !HasRoadType(cr, cr.default) then Some(DefaultNotConnected(cr.name, cr.default))
      else if d in seen then Some(DuplicateDefault(cr.default, seen[d], cr.name))
      else None
  }

  /** A crossroad passes exactly when it is fine on its own and its
      default, if any, is not claimed yet. */
  lemma CrossroadErrorNone(cr: CrossroadType, names: set<string>, seen: map<string, string>)
    ensures CrossroadError(cr, names, seen).None? <==> Passes(cr, names, seen.Keys)
    ensures Claim(cr, seen).Keys == ClaimKeys(cr, seen.Keys)
  {
  }

  /** A crossroad is fine on its own and its default, if any, is not
      among the keys claimed before it. */
  predicate Passes(cr: CrossroadType, names: set<string>, keys: set<string>) {
    CrossroadOk(cr, names) && (HasDefault(cr) ==> DefaultKey(cr) !in keys)
  }

  function ClaimKeys(cr: CrossroadType, keys: set<string>): set<string> {
    if HasDefault(cr) then keys + {DefaultKey(cr)} else keys
  }

  /** The seen map after a crossroad has passed. */
  function Claim(cr: CrossroadType, seen: map<string, string>): map<string, string> {
    if HasDefault(cr) then seen[DefaultKey(cr) := cr.name] else seen
  }

  /** The loop of ValidateCrossroads. */
  function ValidateFrom(crs: seq<CrossroadType>, names: set<string>, seen: map<string, string>): (r: Outcome<Error>)
    ensures r.Fail? ==> ValidationError(r.error)
    decreases |crs|
  {
    if |crs| == 0 then Pass
    else
      match CrossroadError(crs[0], names, seen)
      case Some(e) => Fail(e)
      case None => ValidateFrom(crs[1..], names, Claim(crs[0], seen))
  }

  /** The four errors validation can report. */
  predicate ValidationError(e: Error) {
    e.UnknownConnection? || e.UnknownDefault? || e.DefaultNotConnected? || e.DuplicateDefault?
  }

  /** ValidateCrossroads: an empty crossroad list is always valid. */
  function ValidateCrossroads(crs: seq<CrossroadType>, types: seq<RoadType>): (r: Outcome<Error>)
    ensures |crs| == 0 ==> r == Pass
    ensures r.Fail? ==> ValidationError(r.error)
  {
    var none: map<string, string> := map[];
    ValidateFrom(crs, KnownNames(types), none)
  }

  // ---------------------------------------------------------------------
  // The declarative reading.

  /** One crossroad on its own: known connections, and a default that is a
      known road type present among its connections. */
  predicate CrossroadOk(cr: CrossroadType, names: set<string>) {
    ConnectionsOk(cr, names)
    && (HasDefault(cr) ==> DefaultKey(cr) in names && HasRoadType(cr, cr.default))
  }

  /** No two crossroads claim the same default. */
  predicate DistinctDefaults(crs: seq<CrossroadType>) {
    forall i, j :: 0 <= i < j < |crs| && HasDefault(crs[i]) && HasDefault(crs[j]) ==>
      DefaultKey(crs[i]) != DefaultKey(crs[j])
  }

  /** Every crossroad is fine on its own. */
  predicate AllOk(crs: seq<CrossroadType>, names: set<string>) {
    forall i :: 0 <= i < |crs| ==> CrossroadOk(crs[i], names)
  }

  /** The configuration ValidateCrossroads accepts. */
  predicate Valid(crs: seq<CrossroadType>, types: seq<RoadType>) {
    AllOk(crs, KnownNames(types)) && DistinctDefaults(crs)
  }

  /** Nothing in `crs` claims a default already in `keys`. */
  predicate FreshDefaults(crs: seq<CrossroadType>, keys: set<string>) {
    forall i :: 0 <= i < |crs| && HasDefault(crs[i]) ==> DefaultKey(crs[i]) !in keys
  }

  /** ValidateCrossroads passes exactly on valid configurations. */
  lemma ValidateIff(crs: seq<CrossroadType>, types: seq<RoadType>)
    ensures ValidateCrossroads(crs, types) == Pass <==> Valid(crs, types)
  {
    var names := KnownNames(types);
    var none: map<string, string> := map[];
    assert none.Keys == {};
    ValidateFromIff(crs, names, none);
    AcceptedIff(crs, names, {});
  }

  /** The loop's acceptance, one crossroad at a time: each is fine on its
      own and its default is not among the keys claimed before it. */
  predicate AcceptedFrom(crs: seq<CrossroadType>, names: set<string>, keys: set<string>)
    decreases |crs|
  {
    |crs| == 0 || (Passes(crs[0], names, keys) && AcceptedFrom(crs[1..], names, ClaimKeys(crs[0], keys)))
  }

  lemma {:induction false} ValidateFromIff(crs: seq<CrossroadType>, names: set<string>, seen: map<string, string>)
    ensures ValidateFrom(crs, names, seen) == Pass <==> AcceptedFrom(crs, names, seen.Keys)
    decreases |crs|
  {
    if |crs| > 0 {
      var cr := crs[0];
      CrossroadErrorNone(cr, names, seen);
      ValidateFromIff(crs[1..], names, Claim(cr, seen));
    }
  }

  /** The step-by-step acceptance is the declarative one. */
  lemma {:induction false} AcceptedIff(crs: seq<CrossroadType>, names: set<string>, keys: set<string>)
    ensures AcceptedFrom(crs, names, keys) <==> AllOk(crs, names) && DistinctDefaults(crs) && FreshDefaults(crs, keys)
    decreases |crs|
  {
    if |crs| > 0 {
      var cr := crs[0];
      var tl := crs[1..];
      ListCons(crs, names, keys);
      if HasDefault(cr) {
        AcceptedIff(tl, names, keys + {DefaultKey(cr)});
        FreshUnion(tl, keys, DefaultKey(cr));
      } else {
        AcceptedIff(tl, names, keys);
      }
    }
  }

  /** The three list predicates split into the head and the tail. */
  lemma ListCons(crs: seq<CrossroadType>, names: set<string>, keys: set<string>)
    requires |crs| > 0
    ensures AllOk(crs, names) <==> CrossroadOk(crs[0], names) && AllOk(crs[1..], names)
    ensures FreshDefaults(crs, keys) <==>
      (HasDefault(crs[0]) ==> DefaultKey(crs[0]) !in keys) && FreshDefaults(crs[1..], keys)
    ensures DistinctDefaults(crs) <==>
      DistinctDefaults(crs[1..]) && (HasDefault(crs[0]) ==> FreshDefaults(crs[1..], {DefaultKey(crs[0])}))
  {
    AllOkCons(crs, names);
    FreshCons(crs, keys);
    DistinctCons(crs);
  }

  lemma AllOkCons(crs: seq<CrossroadType>, names: set<string>)
    requires |crs| > 0
    ensures AllOk(crs, names) <==> CrossroadOk(crs[0], names) && AllOk(crs[1..], names)
  {
    var tl := crs[1..];
    assert forall i :: 0 <= i < |tl| ==> tl[i] == crs[i + 1];
  }

  lemma FreshCons(crs: seq<CrossroadType>, keys: set<string>)
    requires |crs| > 0
    ensures FreshDefaults(crs, keys) <==>
      (HasDefault(crs[0]) ==> DefaultKey(crs[0]) !in keys) && FreshDefaults(crs[1..], keys)
  {
    var tl := crs[1..];
    assert forall i :: 0 <= i < |tl| ==> tl[i] == crs[i + 1];
  }

  lemma DistinctCons(crs: seq<CrossroadType>)
    requires |crs| > 0
    ensures DistinctDefaults(crs) <==>
      DistinctDefaults(crs[1..]) && (HasDefault(crs[0]) ==> FreshDefaults(crs[1..], {DefaultKey(crs[0])}))
  {
    var tl := crs[1..];
    assert forall i :: 0 <= i < |tl| ==> tl[i] == crs[i + 1];
    if DistinctDefaults(tl) && (HasDefault(crs[0]) ==> FreshDefaults(tl, {DefaultKey(crs[0])})) {
      forall i, j | 0 <= i < j < |crs| && HasDefault(crs[i]) && HasDefault(crs[j])
        ensures DefaultKey(crs[i]) != DefaultKey(crs[j])
      {
        if i == 0 {
          assert tl[j - 1] == crs[j];
        } else {
          assert tl[i - 1] == crs[i] && tl[j - 1] == crs[j];
        }
      }
    }
  }

  lemma FreshUnion(crs: seq<CrossroadType>, keys: set<string>, d: string)
    ensures FreshDefaults(crs, keys + {d}) <==> FreshDefaults(crs, keys) && FreshDefaults(crs, {d})
  {
  }
}
