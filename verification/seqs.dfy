/** Generic scans over sequences, kept apart from the text functions so
    that proofs about them never unfold string operations. */
module Seqs {
  import opened Wrappers

  /** The last index below `n` whose flag is set. */
  function LastSet(flags: seq<bool>, n: nat): (r: Option<nat>)
    requires n <= |flags|
    ensures r.Some? ==> r.value < n && flags[r.value] && forall j :: r.value < j < n ==> !flags[j]
    ensures r.None? ==> forall j :: 0 <= j < n ==> !flags[j]
    decreases n
  {
    if n == 0 then None
    else if flags[n - 1] then Some(n - 1)
    else LastSet(flags, n - 1)
  }

  /** The values of the present options, in order. */
  function Somes<T>(ps: seq<Option<T>>): (r: seq<T>)
    ensures |r| <= |ps|
    decreases |ps|
  {
    if |ps| == 0 then []
    else match ps[0]
      case Some(x) => [x] + Somes(ps[1..])
      case None => Somes(ps[1..])
  }

  /** Every value collected is one of the options' values. */
  lemma {:induction false} SomesFrom<T>(ps: seq<Option<T>>, k: nat)
    requires k < |Somes(ps)|
    ensures exists t :: 0 <= t < |ps| && ps[t] == Some(Somes(ps)[k])
    decreases |ps|
  {
    var tail := Somes(ps[1..]);
    match ps[0]
    case Some(x) =>
      if k == 0 {
        assert ps[0] == Some(Somes(ps)[k]);
      } else {
        assert Somes(ps)[k] == tail[k - 1];
        SomesFrom(ps[1..], k - 1);
        var t :| 0 <= t < |ps[1..]| && ps[1..][t] == Some(tail[k - 1]);
        assert ps[t + 1] == ps[1..][t];
      }
    case None =>
      SomesFrom(ps[1..], k);
      var t :| 0 <= t < |ps[1..]| && ps[1..][t] == Some(tail[k]);
      assert ps[t + 1] == ps[1..][t];
  }

  /** Where each collected value came from: strictly increasing positions
      of present options, one per value, covering every present option. */
  lemma {:induction false} SomesPositions<T>(ps: seq<Option<T>>) returns (ts: seq<nat>)
    ensures |ts| == |Somes(ps)|
    ensures forall k :: 0 <= k < |ts| ==> ts[k] < |ps| && ps[ts[k]] == Some(Somes(ps)[k])
    ensures forall k, l :: 0 <= k < l < |ts| ==> ts[k] < ts[l]
    ensures forall t :: 0 <= t < |ps| && ps[t].Some? ==> t in ts
    decreases |ps|
  {
    if |ps| == 0 {
      ts := [];
    } else {
      var rest := SomesPositions(ps[1..]);
      ts := ShiftPositions(ps, rest);
    }
  }

  /** The step of SomesPositions: the positions in the tail, moved up by
      one, behind position 0 when the head is present. */
  function Shifted(present: bool, rest: seq<nat>): (ts: seq<nat>)
    ensures |ts| == |rest| + (if present then 1 else 0)
  {
    (if present then [0] else []) + seq(|rest|, k requires 0 <= k < |rest| => rest[k] + 1)
  }

  lemma ShiftedAt(present: bool, rest: seq<nat>, k: nat)
    requires k < |Shifted(present, rest)|
    ensures present && k == 0 ==> Shifted(present, rest)[k] == 0
    ensures present && k > 0 ==> Shifted(present, rest)[k] == rest[k - 1] + 1
    ensures !present ==> Shifted(present, rest)[k] == rest[k] + 1
  {
  }

  lemma ShiftPositions<T>(ps: seq<Option<T>>, rest: seq<nat>) returns (ts: seq<nat>)
    requires |ps| > 0
    requires |rest| == |Somes(ps[1..])|
    requires forall k :: 0 <= k < |rest| ==> rest[k] < |ps[1..]| && ps[1..][rest[k]] == Some(Somes(ps[1..])[k])
    requires forall k, l :: 0 <= k < l < |rest| ==> rest[k] < rest[l]
    requires forall t :: 0 <= t < |ps[1..]| && ps[1..][t].Some? ==> t in rest
    ensures |ts| == |Somes(ps)|
    ensures forall k :: 0 <= k < |ts| ==> ts[k] < |ps| && ps[ts[k]] == Some(Somes(ps)[k])
    ensures forall k, l :: 0 <= k < l < |ts| ==> ts[k] < ts[l]
    ensures forall t :: 0 <= t < |ps| && ps[t].Some? ==> t in ts
  {
    var present := ps[0].Some?;
    ts := Shifted(present, rest);
    ShiftedValues(ps, rest);
    ShiftedOrder(present, rest);
    ShiftedCovers(ps, rest);
  }

  lemma ShiftedValues<T>(ps: seq<Option<T>>, rest: seq<nat>)
    requires |ps| > 0
    requires |rest| == |Somes(ps[1..])|
    requires forall k :: 0 <= k < |rest| ==> rest[k] < |ps[1..]| && ps[1..][rest[k]] == Some(Somes(ps[1..])[k])
    ensures var ts := Shifted(ps[0].Some?, rest);
      |ts| == |Somes(ps)| && forall k :: 0 <= k < |ts| ==> ts[k] < |ps| && ps[ts[k]] == Some(Somes(ps)[k])
  {
    var present := ps[0].Some?;
    var ts := Shifted(present, rest);
    var tail := Somes(ps[1..]);
    var lead := if present then 1 else 0;
    SomesUnfold(ps);
    forall k | 0 <= k < |ts|
      ensures ts[k] < |ps| && ps[ts[k]] == Some(Somes(ps)[k])
    {
      ShiftedAt(present, rest, k);
      if k >= lead {
        var i := k - lead;
        assert ts[k] == rest[i] + 1;
        assert ps[rest[i] + 1] == ps[1..][rest[i]];
      }
    }
  }

  /** One step of Somes. */
  lemma SomesUnfold<T>(ps: seq<Option<T>>)
    requires |ps| > 0
    ensures Somes(ps) == (if ps[0].Some? then [ps[0].value] else []) + Somes(ps[1..])
  {
  }

  lemma ShiftedOrder(present: bool, rest: seq<nat>)
    requires forall k, l :: 0 <= k < l < |rest| ==> rest[k] < rest[l]
    ensures var ts := Shifted(present, rest); forall k, l :: 0 <= k < l < |ts| ==> ts[k] < ts[l]
  {
    var ts := Shifted(present, rest);
    forall k, l | 0 <= k < l < |ts|
      ensures ts[k] < ts[l]
    {
      ShiftedAt(present, rest, k);
      ShiftedAt(present, rest, l);
    }
  }

  lemma ShiftedCovers<T>(ps: seq<Option<T>>, rest: seq<nat>)
    requires |ps| > 0
    requires forall t :: 0 <= t < |ps[1..]| && ps[1..][t].Some? ==> t in rest
    ensures var ts := Shifted(ps[0].Some?, rest); forall t :: 0 <= t < |ps| && ps[t].Some? ==> t in ts
  {
    var present := ps[0].Some?;
    var ts := Shifted(present, rest);
    var lead := if present then 1 else 0;
    forall t | 0 <= t < |ps| && ps[t].Some?
      ensures t in ts
    {
      if t > 0 {
        assert ps[1..][t - 1].Some?;
        var i :| 0 <= i < |rest| && rest[i] == t - 1;
        ShiftedAt(present, rest, i + lead);
      } else {
        ShiftedAt(present, rest, 0);
      }
    }
  }

  /** How many options are present. */
  function CountSome<T>(ps: seq<Option<T>>): nat
    decreases |ps|
  {
    if |ps| == 0 then 0 else (if ps[0].Some? then 1 else 0) + CountSome(ps[1..])
  }

  /** Every present value is collected, and nothing is collected exactly
      when no option is present. */
  lemma {:induction false} SomesCount<T>(ps: seq<Option<T>>)
    ensures |Somes(ps)| == CountSome(ps)
    ensures (forall t :: 0 <= t < |ps| ==> ps[t].None?) <==> Somes(ps) == []
    decreases |ps|
  {
    if |ps| > 0 {
      SomesCount(ps[1..]);
      if ps[0].None? && Somes(ps[1..]) != [] {
        var t :| 0 <= t < |ps[1..]| && ps[1..][t].Some?;
        assert ps[t + 1].Some?;
      }
      if forall t :: 0 <= t < |ps| ==> ps[t].None? {
        forall t | 0 <= t < |ps[1..]|
          ensures ps[1..][t].None?
        {
          assert ps[1..][t] == ps[t + 1];
        }
      }
    }
  }
}
