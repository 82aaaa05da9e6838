/** The reordering of crossroad definitions before a patch
    (shouldReorderCrossroads and reorderCrossroadsByRoadTypeIndex,
    internal/tv4p/write.go:213-325): position i of the definitions list is
    filled, by swapping, with the crossroad that best fits road type i. */
module Reorder {
  import opened Model
  import opened Scoring
  import Text

  /** shouldReorderCrossroads: both lists are non-empty, and some crossroad
      has an explicit default or some crossroad carries no raw data. */
  function ShouldReorder(types: seq<RoadType>, crs: seq<CrossroadType>): (r: bool)
    ensures r <==> (&& |types| > 0 && |crs| > 0
                    && exists i :: 0 <= i < |crs| && (HasDefault(crs[i]) || (crs[i].def.None? && crs[i].link.None?)))
  {
    if |crs| == 0 || |types| == 0 then false
    else AnyDefault(crs, 0) || AnyGenerated(crs, 0)
  }

  /** The first loop of shouldReorderCrossroads. */
  function AnyDefault(crs: seq<CrossroadType>, i: nat): (r: bool)
    ensures r <==> exists j :: i <= j < |crs| && HasDefault(crs[j])
    decreases |crs| - i
  {
    if i >= |crs| then false else HasDefault(crs[i]) || AnyDefault(crs, i + 1)
  }

  /** The second loop: an entry with raw data is skipped, the first one
      without any decides. */
  function AnyGenerated(crs: seq<CrossroadType>, i: nat): (r: bool)
    ensures r <==> exists j :: i <= j < |crs| && crs[j].def.None? && crs[j].link.None?
    decreases |crs| - i
  {
    if i >= |crs| then false
    else if crs[i].def.Some? || crs[i].link.Some? then AnyGenerated(crs, i + 1)
    else true
  }

  // ---------------------------------------------------------------------
  // One step: the best candidate for road type `rtIdx`.

  /** A locked position may only be chosen for its own road type. */
  predicate Eligible(locked: set<nat>, rtIdx: nat, j: nat) {
    j !in locked || j == rtIdx
  }

  /** The scores the inner loop compares: a position it skips (locked for
      another road type) counts as -1, like a crossroad that does not
      match at all. */
  function Candidates(crs: seq<CrossroadType>, locked: set<nat>, rtIdx: nat, want: string): (sc: seq<int>)
    ensures |sc| == |crs|
  {
    var all := Scores(crs, want);
    seq(|crs|, j requires 0 <= j < |crs| => if Eligible(locked, rtIdx, j) then all[j] else -1)
  }

  /** The match score of every crossroad, in order. */
  function Scores(crs: seq<CrossroadType>, want: string): (sc: seq<int>)
    ensures |sc| == |crs|
  {
    if |crs| == 0 then [] else [MatchScore(crs[0], want)] + Scores(crs[1..], want)
  }

  lemma {:induction false} ScoresAt(crs: seq<CrossroadType>, want: string, j: nat)
    requires j < |crs|
    ensures Scores(crs, want)[j] == MatchScore(crs[j], want)
  {
    if j > 0 {
      ScoresAt(crs[1..], want, j - 1);
    }
  }

  /** The inner scan from `j`: the first index with the highest
      non-negative score, or -1. */
  function BestFrom(sc: seq<int>, j: nat, best: int, bestScore: int): (r: int)
    ensures r == best || (j <= r < |sc|)
    decreases |sc| - j
  {
    if j >= |sc| then best
    else if sc[j] < 0 || sc[j] <= bestScore then BestFrom(sc, j + 1, best, bestScore)
    else BestFrom(sc, j + 1, j, sc[j])
  }

  function BestMatch(sc: seq<int>): int {
    BestFrom(sc, 0, -1, -1)
  }

  /** `best` is the first index below `j` with the highest score there,
      and that score is not -1. */
  predicate IsBest(sc: seq<int>, j: nat, best: int) {
    0 <= best < j <= |sc| && sc[best] >= 0
    && (forall k :: 0 <= k < j ==> sc[k] <= sc[best])
    && (forall k :: 0 <= k < best ==> sc[k] < sc[best])
  }

  /** What the scan has established after looking at the indices below `j`. */
  predicate ScanSoFar(sc: seq<int>, j: nat, best: int, bestScore: int) {
    j <= |sc|
    && (best == -1 ==> bestScore == -1 && forall k :: 0 <= k < j ==> sc[k] < 0)
    && (best != -1 ==> IsBest(sc, j, best) && bestScore == sc[best])
  }

  lemma {:induction false} BestFromSpec(sc: seq<int>, j: nat, best: int, bestScore: int)
    requires ScanSoFar(sc, j, best, bestScore)
    ensures var r := BestFrom(sc, j, best, bestScore);
      && (r == -1 ==> forall k :: 0 <= k < |sc| ==> sc[k] < 0)
      && (r != -1 ==> IsBest(sc, |sc|, r))
    decreases |sc| - j
  {
    if j < |sc| {
      if sc[j] < 0 || sc[j] <= bestScore {
        BestFromSpec(sc, j + 1, best, bestScore);
      } else {
        BestFromSpec(sc, j + 1, j, sc[j]);
      }
    }
  }

  /** The scan picks the first crossroad with the highest score, and none
      when every score is -1. */
  lemma BestMatchSpec(sc: seq<int>)
    ensures BestMatch(sc) == -1 <==> forall k :: 0 <= k < |sc| ==> sc[k] < 0
    ensures BestMatch(sc) != -1 ==> IsBest(sc, |sc|, BestMatch(sc))
  {
    BestFromSpec(sc, 0, -1, -1);
  }

  function Swap(s: seq<CrossroadType>, i: nat, j: nat): (r: seq<CrossroadType>)
    requires i < |s| && j < |s|
  {
    s[i := s[j]][j := s[i]]
  }

  /** One pass of the outer loop: a blank road type name is skipped; a
      best candidate elsewhere is swapped into position `rtIdx`, which is
      then locked. */
  function Step(types: seq<RoadType>, st: (seq<CrossroadType>, set<nat>), rtIdx: nat): (r: (seq<CrossroadType>, set<nat>))
    requires rtIdx < |types| && rtIdx < |st.0|
  {
    var want := Text.Lower(types[rtIdx].name);
    if want == "" then st
    else
      var b := BestMatch(Candidates(st.0, st.1, rtIdx, want));
      if b == -1 || b == rtIdx then st
      else
        BestFromSpec(Candidates(st.0, st.1, rtIdx, want), 0, -1, -1);
        (Swap(st.0, rtIdx, b), st.1 + {rtIdx})
  }

  /** The number of road types that can be aligned. */
  function Limit(types: seq<RoadType>, crs: seq<CrossroadType>): nat {
    if |types| < |crs| then |types| else |crs|
  }

  /** The state after the first `k` passes of the outer loop. */
  function Run(types: seq<RoadType>, crs: seq<CrossroadType>, k: nat): (r: (seq<CrossroadType>, set<nat>))
    requires k <= Limit(types, crs)
    ensures |r.0| == |crs|
    ensures forall i :: i in r.1 ==> i < k
  {
    if k == 0 then (crs, {})
    else Step(types, Run(types, crs, k - 1), k - 1)
  }

  /** reorderCrossroadsByRoadTypeIndex. */
  function ReorderCrossroads(types: seq<RoadType>, crs: seq<CrossroadType>): (r: seq<CrossroadType>)
    ensures |r| == |crs|
  {
    if |types| == 0 || |crs| == 0 then crs else Run(types, crs, Limit(types, crs)).0
  }

  // ---------------------------------------------------------------------
  // Properties.

  /** Reordering only swaps: the result is a permutation of the input. */
  lemma ReorderPermutation(types: seq<RoadType>, crs: seq<CrossroadType>)
    ensures multiset(ReorderCrossroads(types, crs)) == multiset(crs)
  {
    if |types| > 0 && |crs| > 0 {
      RunPermutation(types, crs, Limit(types, crs));
    }
  }

  lemma {:induction false} RunPermutation(types: seq<RoadType>, crs: seq<CrossroadType>, k: nat)
    requires k <= Limit(types, crs)
    ensures multiset(Run(types, crs, k).0) == multiset(crs)
  {
    if k > 0 {
      var st := Run(types, crs, k - 1);
      RunPermutation(types, crs, k - 1);
      StepSpec(types, st, k - 1);
      var r := Step(types, st, k - 1);
      assert Run(types, crs, k) == r;
      if k - 1 in r.1 {
        var b :| 0 <= b < |st.0| && r.0 == Swap(st.0, k - 1, b);
        SwapPermutation(st.0, k - 1, b);
      }
    }
  }

  lemma SwapPermutation(s: seq<CrossroadType>, i: nat, j: nat)
    requires i < |s| && j < |s|
    ensures multiset(Swap(s, i, j)) == multiset(s)
  {
    var t := s[i := s[j]];
    assert multiset(t) == multiset(s) - multiset{s[i]} + multiset{s[j]};
    assert multiset(t[j := s[i]]) == multiset(t) - multiset{t[j]} + multiset{s[i]};
  }

  /** What a step does to the state: nothing at a locked position, and
      either nothing at all or a swap into position `rtIdx`, which it
      then locks. */
  ghost predicate StepFrame(st: (seq<CrossroadType>, set<nat>), rtIdx: nat, r: (seq<CrossroadType>, set<nat>))
    requires rtIdx < |st.0|
  {
    && |r.0| == |st.0|
    && (forall i :: i in st.1 ==> i < |st.0| && r.0[i] == st.0[i])
    && (rtIdx !in r.1 ==> r == st)
    && (rtIdx in r.1 ==> r.1 == st.1 + {rtIdx} && exists b :: 0 <= b < |st.0| && r.0 == Swap(st.0, rtIdx, b))
  }

  /** Which crossroad a swapping step brings in: the first eligible one
      that matches road type `rtIdx` best. */
  ghost predicate StepChoice(types: seq<RoadType>, st: (seq<CrossroadType>, set<nat>), rtIdx: nat, r: (seq<CrossroadType>, set<nat>))
    requires rtIdx < |types| && rtIdx < |st.0|
  {
    rtIdx in r.1 ==> exists b :: SwappedIn(types, st, rtIdx, b, r.0)
  }

  /** Position `rtIdx` took crossroad `b`, the scan's choice. */
  predicate SwappedIn(types: seq<RoadType>, st: (seq<CrossroadType>, set<nat>), rtIdx: nat, b: int, r: seq<CrossroadType>)
    requires rtIdx < |types| && rtIdx < |st.0|
  {
    && b != rtIdx && 0 <= b < |st.0| && b !in st.1
    && IsBest(Candidates(st.0, st.1, rtIdx, Text.Lower(types[rtIdx].name)), |st.0|, b)
    && r == Swap(st.0, rtIdx, b)
  }

  lemma StepSpec(types: seq<RoadType>, st: (seq<CrossroadType>, set<nat>), rtIdx: nat)
    requires rtIdx < |types| && rtIdx < |st.0|
    requires forall i :: i in st.1 ==> i < rtIdx
    ensures StepFrame(st, rtIdx, Step(types, st, rtIdx))
    ensures StepChoice(types, st, rtIdx, Step(types, st, rtIdx))
  {
    var want := Text.Lower(types[rtIdx].name);
    if want != "" {
      var sc := Candidates(st.0, st.1, rtIdx, want);
      var b := BestMatch(sc);
      BestMatchSpec(sc);
      if b != -1 && b != rtIdx {
        assert b !in st.1 by {
          assert sc[b] >= 0;
        }
        var r := Step(types, st, rtIdx);
        assert r == (Swap(st.0, rtIdx, b), st.1 + {rtIdx});
        SwapElsewhere(st.0, rtIdx, b, st.1);
        assert SwappedIn(types, st, rtIdx, b, r.0);
      }
    }
  }

  lemma SwapElsewhere(s: seq<CrossroadType>, i: nat, j: nat, others: set<nat>)
    requires i < |s| && j < |s| && i !in others && j !in others
    requires forall k :: k in others ==> k < |s|
    ensures forall k :: k in others ==> Swap(s, i, j)[k] == s[k]
  {
  }

  /** State `b` keeps every lock of state `a` and the crossroad at it. */
  ghost predicate Keeps(a: (seq<CrossroadType>, set<nat>), b: (seq<CrossroadType>, set<nat>)) {
    && a.1 <= b.1
    && (forall i :: i in a.1 ==> i < |a.0| && i < |b.0| && b.0[i] == a.0[i])
  }

  lemma StepKeeps(types: seq<RoadType>, st: (seq<CrossroadType>, set<nat>), rtIdx: nat)
    requires rtIdx < |types| && rtIdx < |st.0|
    requires forall i :: i in st.1 ==> i < rtIdx
    ensures Keeps(st, Step(types, st, rtIdx))
  {
    StepSpec(types, st, rtIdx);
  }

  lemma KeepsTrans(a: (seq<CrossroadType>, set<nat>), b: (seq<CrossroadType>, set<nat>), c: (seq<CrossroadType>, set<nat>))
    requires Keeps(a, b) && Keeps(b, c)
    ensures Keeps(a, c)
  {
  }

  /** A later state keeps every lock of an earlier one. */
  lemma {:induction false} RunLocks(types: seq<RoadType>, crs: seq<CrossroadType>, k: nat, m: nat)
    requires k <= m <= Limit(types, crs)
    ensures Keeps(Run(types, crs, k), Run(types, crs, m))
    decreases m
  {
    if k < m {
      RunLocks(types, crs, k, m - 1);
      var prev := Run(types, crs, m - 1);
      StepKeeps(types, prev, m - 1);
      assert Run(types, crs, m) == Step(types, prev, m - 1);
      KeepsTrans(Run(types, crs, k), prev, Run(types, crs, m));
    }
  }

  /** A position filled by a swap is never moved by a later pass, and the
      crossroad there matches that position's road type: its score for
      the road type is not -1. */
  lemma ReorderPlaced(types: seq<RoadType>, crs: seq<CrossroadType>, i: nat)
    requires |types| > 0 && |crs| > 0
    requires i in Run(types, crs, Limit(types, crs)).1
    ensures i < Limit(types, crs)
    ensures i in Run(types, crs, i + 1).1
    ensures ReorderCrossroads(types, crs)[i] == Run(types, crs, i + 1).0[i]
    ensures MatchScore(ReorderCrossroads(types, crs)[i], Text.Lower(types[i].name)) >= 0
  {
    var n := Limit(types, crs);
    LockedAt(types, crs, i, n);
    RunLocks(types, crs, i + 1, n);
    var st := Run(types, crs, i);
    StepSpec(types, st, i);
    assert Run(types, crs, i + 1) == Step(types, st, i);
    var b :| SwappedIn(types, st, i, b, Run(types, crs, i + 1).0);
    ScoresAt(st.0, Text.Lower(types[i].name), b);
  }

  /** Position `i` is locked after `m` passes only if pass `i` locked it. */
  lemma {:induction false} LockedAt(types: seq<RoadType>, crs: seq<CrossroadType>, i: nat, m: nat)
    requires m <= Limit(types, crs) && i in Run(types, crs, m).1
    ensures i < m && i in Run(types, crs, i + 1).1 && i !in Run(types, crs, i).1
    decreases m
  {
    var prev := Run(types, crs, m - 1);
    StepLocks(types, prev, m - 1);
    assert Run(types, crs, m) == Step(types, prev, m - 1);
    if i != m - 1 {
      LockedAt(types, crs, i, m - 1);
    }
  }

  /** A step adds no lock but its own. */
  lemma StepLocks(types: seq<RoadType>, st: (seq<CrossroadType>, set<nat>), rtIdx: nat)
    requires rtIdx < |types| && rtIdx < |st.0|
    requires forall i :: i in st.1 ==> i < rtIdx
    ensures forall i :: i in Step(types, st, rtIdx).1 ==> i == rtIdx || i in st.1
  {
    StepSpec(types, st, rtIdx);
  }
}
