/** The two default-crossroad heuristics of the command line tool: the one
    applied when patching (selectDefaultCrossroads,
    cmd/tv4p-road-tool/patch.go:78-172) and the one applied when
    generating a configuration (assignCrossroadDefaults,
    cmd/tv4p-road-tool/generate.go:296-361). Road type names and defaults
    are compared trimmed and lower-cased. */
module Defaults {
  import opened Wrappers
  import opened Seqs
  import opened Model
  import opened Scoring
  import Reorder
  import Text

  /** The crossroad with a blank default replaced by the road type name. */
  function MarkDefault(cr: CrossroadType, want: string): (r: CrossroadType)
    ensures r == cr.(default := r.default)
    ensures HasDefault(cr) ==> r == cr
    ensures !HasDefault(cr) ==> r.default == want
  {
    if Text.IsBlank(cr.default) then cr.(default := want) else cr
  }

  /** The crossroad names the road type with key `key` as its default. */
  predicate NamesDefault(cr: CrossroadType, key: string) {
    HasDefault(cr) && DefaultKey(cr) == key
  }

  /** The key a road type is matched under. */
  function TypeKey(rt: RoadType): string {
    Text.Lower(Text.TrimSpace(rt.name))
  }

  // ---------------------------------------------------------------------
  // selectDefaultCrossroads.

  /** Which crossroads name `key` as their default. */
  function Named(all: seq<CrossroadType>, key: string): (flags: seq<bool>)
    ensures |flags| == |all|
    ensures forall j :: 0 <= j < |all| ==> flags[j] == NamesDefault(all[j], key)
  {
    seq(|all|, j requires 0 <= j < |all| => NamesDefault(all[j], key))
  }

  /** The `explicit` map: the last crossroad whose default names `key`
      (later crossroads overwrite earlier ones in the map). */
  function ExplicitIndex(all: seq<CrossroadType>, key: string): Option<nat> {
    LastSet(Named(all, key), |all|)
  }

  /** The explicit index is a crossroad naming the key with none after it,
      and there is none exactly when no crossroad names the key. */
  lemma ExplicitIndexSpec(all: seq<CrossroadType>, key: string)
    ensures var r := ExplicitIndex(all, key);
      && (r.Some? ==> (r.value < |all| && NamesDefault(all[r.value], key)
            && forall j :: r.value < j < |all| ==> !NamesDefault(all[j], key)))
      && (r.None? <==> forall j :: 0 <= j < |all| ==> !NamesDefault(all[j], key))
  {
    var flags := Named(all, key);
    var r := ExplicitIndex(all, key);
    if r.Some? {
      assert flags[r.value];
    }
  }

  /** The crossroad one road type contributes, with its index: the
      explicit default if there is one, else the best match, else none.
      Blank road type names contribute nothing. */
  function Pick(all: seq<CrossroadType>, rt: RoadType): (r: Option<(nat, CrossroadType)>)
    ensures r.Some? ==> (!Text.IsBlank(rt.name) && r.value.0 < |all|
      && r.value.1 == MarkDefault(all[r.value.0], Text.TrimSpace(rt.name)))
  {
    var want := Text.TrimSpace(rt.name);
    if want == "" then None
    else
      var key := Text.Lower(want);
      var explicit := ExplicitIndex(all, key);
      if explicit.Some? && explicit.value < |all| then Some((explicit.value, MarkDefault(all[explicit.value], want)))
      else
        var best := Reorder.BestMatch(Reorder.Scores(all, key));
        if 0 <= best < |all| then Some((best, MarkDefault(all[best], want))) else None
  }

  /** The choice Pick makes when some crossroad names the road type as
      its default: the last such crossroad. */
  lemma PickExplicit(all: seq<CrossroadType>, rt: RoadType, j: nat)
    requires !Text.IsBlank(rt.name) && j < |all| && NamesDefault(all[j], TypeKey(rt))
    ensures var r := Pick(all, rt);
      && r.Some? && NamesDefault(all[r.value.0], TypeKey(rt))
      && forall k :: r.value.0 < k < |all| ==> !NamesDefault(all[k], TypeKey(rt))
  {
    ExplicitIndexSpec(all, TypeKey(rt));
  }

  /** With no explicit default, the best-match scores are the connection
      scores. */
  lemma ScoresWithoutExplicit(all: seq<CrossroadType>, key: string, j: nat)
    requires j < |all| && !NamesDefault(all[j], key)
    ensures Reorder.Scores(all, key)[j] == ConnScore(all[j], key)
    ensures ConnScore(all[j], key) >= 0 <==> Touches(all[j], key)
  {
    Reorder.ScoresAt(all, key, j);
    ConnScoreBands(all[j], key);
  }

  /** The choice Pick makes otherwise: the first crossroad with the
      highest connection score (100 for A and B, 80 for A or B, 60 for C
      or D, plus 2 for a T- and 1 for an X-junction), and none when no
      crossroad touches the road type at all. */
  lemma PickBestMatch(all: seq<CrossroadType>, rt: RoadType)
    requires !Text.IsBlank(rt.name)
    requires forall j :: 0 <= j < |all| ==> !NamesDefault(all[j], TypeKey(rt))
    ensures var key := TypeKey(rt); var r := Pick(all, rt);
      && (r.None? <==> forall j :: 0 <= j < |all| ==> !Touches(all[j], key))
      && (r.Some? ==>
            && ConnScore(all[r.value.0], key) >= 0
            && (forall j :: 0 <= j < |all| ==> ConnScore(all[j], key) <= ConnScore(all[r.value.0], key))
            && (forall j :: 0 <= j < r.value.0 ==> ConnScore(all[j], key) < ConnScore(all[r.value.0], key)))
  {
    var key := TypeKey(rt);
    ExplicitIndexSpec(all, key);
    var sc := Reorder.Scores(all, key);
    Reorder.BestMatchSpec(sc);
    forall j | 0 <= j < |all|
      ensures sc[j] == ConnScore(all[j], key)
      ensures sc[j] >= 0 <==> Touches(all[j], key)
    {
      ScoresWithoutExplicit(all, key, j);
    }
  }

  /** What each road type contributes, in road type order. */
  function Picks(all: seq<CrossroadType>, types: seq<RoadType>): (ps: seq<Option<(nat, CrossroadType)>>)
    ensures |ps| == |types|
    ensures forall t :: 0 <= t < |types| ==> ps[t] == Pick(all, types[t])
  {
    seq(|types|, t requires 0 <= t < |types| => Pick(all, types[t]))
  }

  function Seconds(ps: seq<(nat, CrossroadType)>): (r: seq<CrossroadType>)
    ensures |r| == |ps|
    ensures forall k :: 0 <= k < |ps| ==> r[k] == ps[k].1
  {
    seq(|ps|, k requires 0 <= k < |ps| => ps[k].1)
  }

  /** selectDefaultCrossroads: the crossroads the road types pick, or the
      input itself when either list is empty or nothing was picked. */
  function SelectDefaultCrossroads(all: seq<CrossroadType>, types: seq<RoadType>): seq<CrossroadType> {
    if |all| == 0 || |types| == 0 then all
    else
      var out := Somes(Picks(all, types));
      if |out| == 0 then all else Seconds(out)
  }

  /** What the selection returns: the input itself when either list is
      empty or no road type picks anything; otherwise one crossroad per
      road type that picks one (so at most one per road type), each what
      some road type picked. */
  lemma SelectSpec(all: seq<CrossroadType>, types: seq<RoadType>)
    ensures var r := SelectDefaultCrossroads(all, types);
      && (|all| == 0 || |types| == 0 ==> r == all)
      && ((forall t :: 0 <= t < |types| ==> Pick(all, types[t]).None?) ==> r == all)
      && (r != all ==> |r| == CountSome(Picks(all, types)) <= |types|)
      && (r != all ==> forall k :: 0 <= k < |r| ==>
            exists t :: 0 <= t < |types| && Pick(all, types[t]).Some? && r[k] == Pick(all, types[t]).value.1)
  {
    var ps := Picks(all, types);
    SomesCount(ps);
    var r := SelectDefaultCrossroads(all, types);
    if r != all {
      var out := Somes(ps);
      forall k | 0 <= k < |r|
        ensures exists t :: 0 <= t < |types| && Pick(all, types[t]).Some? && r[k] == Pick(all, types[t]).value.1
      {
        SomesFrom(ps, k);
        var t :| 0 <= t < |ps| && ps[t] == Some(out[k]);
        assert Pick(all, types[t]) == Some(out[k]);
      }
    }
  }

  /** Every crossroad returned is a crossroad of the input, unchanged but
      for a blank default filled with a road type's trimmed name. */
  lemma SelectOnlyMarks(all: seq<CrossroadType>, types: seq<RoadType>, k: nat)
    requires k < |SelectDefaultCrossroads(all, types)|
    ensures var r := SelectDefaultCrossroads(all, types);
      exists j :: 0 <= j < |all| && r[k] == all[j].(default := r[k].default)
        && (r[k].default == all[j].default || exists t :: 0 <= t < |types| && r[k].default == Text.TrimSpace(types[t].name))
  {
    var r := SelectDefaultCrossroads(all, types);
    SelectSpec(all, types);
    if r != all {
      var t :| 0 <= t < |types| && Pick(all, types[t]).Some? && r[k] == Pick(all, types[t]).value.1;
      var j := Pick(all, types[t]).value.0;
      assert r[k] == MarkDefault(all[j], Text.TrimSpace(types[t].name));
      assert r[k] == all[j].(default := r[k].default);
      if r[k].default != all[j].default {
        assert r[k].default == Text.TrimSpace(types[t].name);
      }
    } else {
      assert r[k] == all[k].(default := r[k].default);
    }
  }

  /** When some road type picks a crossroad, the selection lists the
      picks in road type order: `ts` names, for each crossroad returned,
      the road type that picked it, strictly increasing, and every road
      type that picks something appears in `ts` exactly once. */
  lemma SelectOrder(all: seq<CrossroadType>, types: seq<RoadType>) returns (ts: seq<nat>)
    requires |all| > 0
    requires exists t :: 0 <= t < |types| && Pick(all, types[t]).Some?
    ensures var r := SelectDefaultCrossroads(all, types);
      && |ts| == |r|
      && (forall k :: 0 <= k < |ts| ==>
            ts[k] < |types| && Pick(all, types[ts[k]]).Some? && r[k] == Pick(all, types[ts[k]]).value.1)
      && (forall k, l :: 0 <= k < l < |ts| ==> ts[k] < ts[l])
      && (forall t :: 0 <= t < |types| && Pick(all, types[t]).Some? ==> t in ts)
  {
    var ps := Picks(all, types);
    var t0 :| 0 <= t0 < |types| && Pick(all, types[t0]).Some?;
    assert ps[t0].Some?;
    SomesCount(ps);
    var out := Somes(ps);
    var r := Seconds(out);
    assert SelectDefaultCrossroads(all, types) == r;
    ts := SomesPositions(ps);
    forall k | 0 <= k < |ts|
      ensures ts[k] < |types| && Pick(all, types[ts[k]]).Some? && r[k] == Pick(all, types[ts[k]]).value.1
    {
      assert ps[ts[k]] == Some(out[k]);
    }
    forall t | 0 <= t < |types| && Pick(all, types[t]).Some?
      ensures t in ts
    {
      assert ps[t].Some?;
    }
  }

  // ---------------------------------------------------------------------
  // assignCrossroadDefaults.

  /** The key a crossroad's default is compared under, if it has one. */
  function KeyOf(cr: CrossroadType): (r: Option<string>)
    ensures r.Some? <==> HasDefault(cr)
    ensures r.Some? ==> r.value == DefaultKey(cr)
  {
    if Text.IsBlank(cr.default) then None else Some(DefaultKey(cr))
  }

  function Keys(crs: seq<CrossroadType>): (ks: seq<Option<string>>)
    ensures |ks| == |crs|
    ensures forall i :: 0 <= i < |crs| ==> ks[i] == KeyOf(crs[i])
  {
    seq(|crs|, i requires 0 <= i < |crs| => KeyOf(crs[i]))
  }

  /** The values of the present keys. */
  function KeySet(ks: seq<Option<string>>): set<string> {
    set i | 0 <= i < |ks| && ks[i].Some? :: ks[i].value
  }

  /** The `seen` set: the keys of all non-blank defaults. */
  function SeenKeys(crs: seq<CrossroadType>): set<string> {
    KeySet(Keys(crs))
  }

  /** The scores the generator compares: a crossroad that already has a
      default is skipped, which is the same as scoring it -1. */
  function AssignScores(crs: seq<CrossroadType>, key: string): (sc: seq<int>)
    ensures |sc| == |crs|
    ensures forall i :: 0 <= i < |crs| ==> sc[i] == if HasDefault(crs[i]) then -1 else ConnScore(crs[i], key)
  {
    seq(|crs|, i requires 0 <= i < |crs| => if HasDefault(crs[i]) then -1 else ConnScore(crs[i], key))
  }

  datatype AssignState = AssignState(crs: seq<CrossroadType>, seen: set<string>)

  /** One road type: a blank name or one already seen is skipped;
      otherwise the best crossroad without a default takes the name. */
  function AssignStep(st: AssignState, rt: RoadType): (r: AssignState)
    ensures |r.crs| == |st.crs|
  {
    var want := Text.TrimSpace(rt.name);
    if want == "" then st
    else
      var key := Text.Lower(want);
      if key in st.seen then st
      else
        var best := Reorder.BestMatch(AssignScores(st.crs, key));
        if 0 <= best < |st.crs| then AssignState(st.crs[best := st.crs[best].(default := want)], st.seen + {key})
        else st
  }

  function AssignFrom(st: AssignState, types: seq<RoadType>, i: nat): (r: AssignState)
    requires i <= |types|
    ensures |r.crs| == |st.crs|
    decreases |types| - i
  {
    if i == |types| then st else AssignFrom(AssignStep(st, types[i]), types, i + 1)
  }

  /** assignCrossroadDefaults (Go edits the slice in place; here the
      edited list is returned). */
  function AssignCrossroadDefaults(types: seq<RoadType>, crs: seq<CrossroadType>): (r: seq<CrossroadType>)
    ensures |r| == |crs|
  {
    AssignFrom(AssignState(crs, SeenKeys(crs)), types, 0).crs
  }

  /** The choice one step makes for a road type not yet seen: among the
      crossroads without a default, the first with the highest connection
      score, and nothing when no such crossroad touches the road type. */
  lemma AssignStepChoice(st: AssignState, rt: RoadType)
    requires !Text.IsBlank(rt.name) && TypeKey(rt) !in st.seen
    ensures var key := TypeKey(rt); var r := AssignStep(st, rt);
      var sc := AssignScores(st.crs, key);
      && (r == st <==> forall j :: 0 <= j < |sc| ==> sc[j] < 0)
      && (r != st ==> exists b :: (Reorder.IsBest(sc, |sc|, b) && !HasDefault(st.crs[b])
            && r.crs == st.crs[b := st.crs[b].(default := Text.TrimSpace(rt.name))]))
  {
    var key := TypeKey(rt);
    var sc := AssignScores(st.crs, key);
    Reorder.BestMatchSpec(sc);
    var best := Reorder.BestMatch(sc);
    if best >= 0 {
      assert key in AssignStep(st, rt).seen;
    }
  }

  /** A newly given key is the only one with its value. */
  predicate FreshKeysUnique(ks0: seq<Option<string>>, ks: seq<Option<string>>)
    requires |ks0| == |ks|
  {
    forall i, j :: (0 <= i < |ks| && 0 <= j < |ks| && i != j && ks0[i].None? && ks[i].Some? && ks[j].Some?
      ==> ks[i].value != ks[j].value)
  }

  /** Position `i` had no default and has been given one; nothing else of
      it changed. */
  predicate Assigned(crs0: seq<CrossroadType>, crs: seq<CrossroadType>, i: nat)
    requires i < |crs0| && i < |crs|
  {
    !HasDefault(crs0[i]) && HasDefault(crs[i]) && crs[i] == crs0[i].(default := crs[i].default)
  }

  /** What the generator keeps while it assigns, relative to the original
      list `crs0`: the seen keys are the current defaults' keys, every
      crossroad is unchanged or has gained a default, and gained defaults
      have unique keys. */
  predicate AssignInv(crs0: seq<CrossroadType>, st: AssignState) {
    && |st.crs| == |crs0|
    && st.seen == SeenKeys(st.crs)
    && (forall i :: 0 <= i < |crs0| ==> st.crs[i] == crs0[i] || Assigned(crs0, st.crs, i))
    && FreshKeysUnique(Keys(crs0), Keys(st.crs))
  }

  /** Giving a key to a position without one adds it to the key set. */
  lemma KeySetAdd(ks: seq<Option<string>>, b: nat, k: string)
    requires b < |ks| && ks[b].None?
    ensures KeySet(ks[b := Some(k)]) == KeySet(ks) + {k}
  {
    var ks' := ks[b := Some(k)];
    forall x | x in KeySet(ks) + {k}
      ensures x in KeySet(ks')
    {
      if x != k {
        var i :| 0 <= i < |ks| && ks[i].Some? && ks[i].value == x;
        assert ks'[i] == ks[i];
      } else {
        assert ks'[b] == Some(k);
      }
    }
  }

  /** Giving a key not in the key set keeps new keys unique. */
  lemma FreshAdd(ks0: seq<Option<string>>, ks: seq<Option<string>>, b: nat, k: string)
    requires |ks0| == |ks| && b < |ks| && k !in KeySet(ks)
    requires FreshKeysUnique(ks0, ks)
    ensures FreshKeysUnique(ks0, ks[b := Some(k)])
  {
    var ks' := ks[b := Some(k)];
    forall i, j | 0 <= i < |ks'| && 0 <= j < |ks'| && i != j && ks0[i].None? && ks'[i].Some? && ks'[j].Some?
      ensures ks'[i].value != ks'[j].value
    {
      if i == b {
        assert ks'[j] == ks[j];
      } else if j == b {
        assert ks'[i] == ks[i];
      }
    }
  }

  /** A trimmed non-empty name is a non-blank default with the name's key. */
  lemma TrimmedDefault(cr: CrossroadType, want: string)
    requires want == Text.TrimSpace(want) && want != ""
    ensures KeyOf(cr.(default := want)) == Some(Text.Lower(want))
  {
  }

  /** Setting one default changes one key. */
  lemma KeysAfterAssign(crs: seq<CrossroadType>, b: nat, want: string)
    requires b < |crs| && want == Text.TrimSpace(want) && want != ""
    ensures Keys(crs[b := crs[b].(default := want)]) == Keys(crs)[b := Some(Text.Lower(want))]
  {
    TrimmedDefault(crs[b], want);
  }

  lemma AssignStepInv(crs0: seq<CrossroadType>, st: AssignState, rt: RoadType)
    requires AssignInv(crs0, st)
    ensures AssignInv(crs0, AssignStep(st, rt))
  {
    var want := Text.TrimSpace(rt.name);
    if want != "" {
      var key := Text.Lower(want);
      if key !in st.seen {
        var sc := AssignScores(st.crs, key);
        Reorder.BestMatchSpec(sc);
        var b := Reorder.BestMatch(sc);
        if 0 <= b < |st.crs| {
          assert !HasDefault(st.crs[b]);
          assert !Assigned(crs0, st.crs, b);
          var crs := st.crs[b := st.crs[b].(default := want)];
          Text.TrimSpaceIdempotent(rt.name);
          KeysAfterAssign(st.crs, b, want);
          KeySetAdd(Keys(st.crs), b, key);
          FreshAdd(Keys(crs0), Keys(st.crs), b, key);
          TrimmedDefault(st.crs[b], want);
          forall i | 0 <= i < |crs0|
            ensures crs[i] == crs0[i] || Assigned(crs0, crs, i)
          {
            if i != b {
              assert crs[i] == st.crs[i];
            }
          }
        }
      }
    }
  }

  lemma {:induction false} AssignFromInv(crs0: seq<CrossroadType>, st: AssignState, types: seq<RoadType>, i: nat)
    requires i <= |types| && AssignInv(crs0, st)
    ensures AssignInv(crs0, AssignFrom(st, types, i))
    decreases |types| - i
  {
    if i < |types| {
      AssignStepInv(crs0, st, types[i]);
      AssignFromInv(crs0, AssignStep(st, types[i]), types, i + 1);
    }
  }

  /** The generator's defaults: a crossroad that already had a default is
      left alone, any other either stays as it was or only gains a
      default, and a default it gains is the only one in the list with
      that road type key, so no second default appears for a road type
      that already had one. */
  lemma AssignDefaultsSpec(types: seq<RoadType>, crs: seq<CrossroadType>)
    ensures var r := AssignCrossroadDefaults(types, crs);
      && (forall i :: 0 <= i < |crs| && HasDefault(crs[i]) ==> r[i] == crs[i])
      && (forall i :: 0 <= i < |crs| ==> r[i] == crs[i] || Assigned(crs, r, i))
      && FreshKeysUnique(Keys(crs), Keys(r))
  {
    AssignFromInv(crs, AssignState(crs, SeenKeys(crs)), types, 0);
  }

  /** Unique defaults stay unique: if no two crossroads shared a default
      key before, none do after. */
  lemma AssignKeepsDefaultsUnique(types: seq<RoadType>, crs: seq<CrossroadType>)
    requires forall i, j :: (0 <= i < |crs| && 0 <= j < |crs| && i != j && HasDefault(crs[i]) && HasDefault(crs[j])
      ==> DefaultKey(crs[i]) != DefaultKey(crs[j]))
    ensures var r := AssignCrossroadDefaults(types, crs);
      forall i, j :: (0 <= i < |r| && 0 <= j < |r| && i != j && HasDefault(r[i]) && HasDefault(r[j])
        ==> DefaultKey(r[i]) != DefaultKey(r[j]))
  {
    var r := AssignCrossroadDefaults(types, crs);
    AssignDefaultsSpec(types, crs);
    var ks0, ks := Keys(crs), Keys(r);
    forall i, j | 0 <= i < |r| && 0 <= j < |r| && i != j && HasDefault(r[i]) && HasDefault(r[j])
      ensures DefaultKey(r[i]) != DefaultKey(r[j])
    {
      if !HasDefault(crs[i]) {
        assert ks0[i].None? && ks[i].Some? && ks[j].Some?;
      } else if !HasDefault(crs[j]) {
        assert ks0[j].None? && ks[j].Some? && ks[i].Some?;
      } else {
        assert r[i] == crs[i] && r[j] == crs[j];
      }
    }
  }
}
