/** The end of a patch (internal/tv4p/write.go:177-210): the replacements
    are sorted by start, applied from the end of the file backwards, and
    then two offset-like u32 fields are shifted by the size changes of the
    lists before them. The road types list (0x88), the crossroad
    definitions (0x89) and the crossroad links (0x8A) change size by
    `d88`, `d89` and `d8A`; the field with tag 0x18 follows all three
    and the field with tag 0x3E follows 0x88 and 0x89 only. */
module Repair {
  import opened Wrappers
  import opened Errors
  import opened Bytes
  import opened Splice
  import opened Offsets

  const LinksOffsetTag: byte := 0x18
  const DefsOffsetTag: byte := 0x3E
  const U32Type: byte := 0x0D

  /** The repair as written: it runs only when the replacements changed
      the total size. */
  function RepairOffsetsAsWritten(out: bytes, totalDelta: int, d88: int, d89: int, d8A: int): (r: Result<bytes, Error>)
    ensures totalDelta == 0 ==> r == Success(out)
  {
    if totalDelta != 0 then
      var a :- AdjustOffsetsByTag(out, LinksOffsetTag, U32Type, d88 + d89 + d8A);
      AdjustOffsetsByTag(a, DefsOffsetTag, U32Type, d88 + d89)
    else Success(out)
  }

  /** The repair as intended: each field is shifted by the size change of
      the lists before it, whatever the total (a zero shift is already a
      no-op in adjustOffsetsByTag). */
  function RepairOffsets(out: bytes, d88: int, d89: int, d8A: int): (r: Result<bytes, Error>)
    ensures r.Success? ==> |r.value| == |out|
    ensures d88 + d89 == 0 && d8A == 0 ==> r == Success(out)
  {
    var a :- AdjustOffsetsByTag(out, LinksOffsetTag, U32Type, d88 + d89 + d8A);
    AdjustOffsetsByTag(a, DefsOffsetTag, U32Type, d88 + d89)
  }

  /** When the size changed, or when no list changed size, the gate makes
      no difference. */
  lemma RepairAgrees(out: bytes, totalDelta: int, d88: int, d89: int, d8A: int)
    requires totalDelta != 0 || (d88 + d89 == 0 && d8A == 0)
    ensures RepairOffsetsAsWritten(out, totalDelta, d88, d89, d8A) == RepairOffsets(out, d88, d89, d8A)
  {
  }

  /** The gate's blind spot: when the links list shrinks by exactly what
      the lists before it grow (d8A = -(d88 + d89) != 0), the total is
      zero and the code as written returns the spliced bytes unrepaired,
      while the 0x3E field should move by d88 + d89. */
  lemma SkippedRepair(out: bytes, d88: int, d89: int, d8A: int, p: nat)
    requires d88 + d89 != 0 && d8A == -(d88 + d89) && -0x7fff_ffff <= d88 + d89 <= 0x7fff_ffff
    requires OnlyFit(out, Head(DefsOffsetTag, U32Type), 0, p)
    requires 0 <= ReadU32(out[p + 3..]) + d88 + d89 <= 0xFFFF_FFFF
    ensures RepairOffsetsAsWritten(out, d88 + d89 + d8A, d88, d89, d8A) == Success(out)
    ensures var r := RepairOffsets(out, d88, d89, d8A);
      r.Success? && ReadU32(r.value[p + 3..]) == ReadU32(out[p + 3..]) + d88 + d89 != ReadU32(out[p + 3..])
  {
    AdjustOffsetsSpec(out, DefsOffsetTag, U32Type, d88 + d89);
  }

  /** The end of a patch as written: sort, splice, then the gated repair. */
  function FinishPatchAsWritten(data: bytes, repls: seq<Replacement>, d88: int, d89: int, d8A: int): Result<bytes, Error> {
    var spliced :- ApplyAll(data, SortReplsDesc(repls));
    RepairOffsetsAsWritten(spliced.0, spliced.1, d88, d89, d8A)
  }

  /** The end of a patch as intended: sort, splice, then the repair. */
  function FinishPatch(data: bytes, repls: seq<Replacement>, d88: int, d89: int, d8A: int): Result<bytes, Error> {
    var spliced :- ApplyAll(data, SortReplsDesc(repls));
    RepairOffsets(spliced.0, d88, d89, d8A)
  }

  /** For replacements that do not overlap, lie inside the file and start
      at distinct offsets, the patch is every range replaced by its blob,
      all taken as offsets into the original file, and then repaired; the
      result is as long as the file plus the size changes. */
  lemma FinishPatchSpec(data: bytes, repls: seq<Replacement>, d88: int, d89: int, d8A: int)
    requires Disjoint(repls, |data|) && DistinctStarts(repls)
    ensures var sorted := SortReplsDesc(repls);
      && Chain(sorted, |data|)
      && FinishPatch(data, repls, d88, d89, d8A) == RepairOffsets(Piece(data, sorted), d88, d89, d8A)
      && (FinishPatch(data, repls, d88, d89, d8A).Success? ==>
            |FinishPatch(data, repls, d88, d89, d8A).value| == |data| + Delta(repls))
  {
    var sorted := SortReplsDesc(repls);
    SortedChain(data, repls);
    SpliceDescending(data, sorted);
    SortSpec(repls);
    DeltaPermutation(repls, sorted);
  }

  /** The total size change does not depend on the order of the
      replacements. */
  lemma {:induction false} DeltaPermutation(a: seq<Replacement>, b: seq<Replacement>)
    requires multiset(a) == multiset(b)
    ensures Delta(a) == Delta(b)
    decreases |a|
  {
    if |a| == 0 {
      assert |b| == |multiset(b)| == 0;
    } else {
      assert a[0] in multiset(b);
      var i :| 0 <= i < |b| && b[i] == a[0];
      MultisetRemove(a, b, i);
      DeltaPermutation(a[1..], b[..i] + b[i + 1..]);
      DeltaRemove(b, i);
    }
  }

  lemma MultisetRemove(a: seq<Replacement>, b: seq<Replacement>, i: nat)
    requires |a| > 0 && i < |b| && b[i] == a[0] && multiset(a) == multiset(b)
    ensures multiset(a[1..]) == multiset(b[..i] + b[i + 1..])
  {
    assert a == [a[0]] + a[1..];
    assert b == b[..i] + [b[i]] + b[i + 1..];
    assert multiset(a) == multiset{a[0]} + multiset(a[1..]);
    assert multiset(b) == multiset(b[..i]) + multiset{b[i]} + multiset(b[i + 1..]);
    assert multiset(b[..i] + b[i + 1..]) == multiset(b[..i]) + multiset(b[i + 1..]);
    forall e
      ensures multiset(a[1..])[e] == multiset(b[..i] + b[i + 1..])[e]
    {
      assert multiset(a)[e] == multiset(b)[e];
    }
  }

  /** Taking one replacement out of the list takes its size change out
      of the total. */
  lemma DeltaRemove(b: seq<Replacement>, i: nat)
    requires i < |b|
    ensures Delta(b) == |b[i].blob| - (b[i].end - b[i].start) + Delta(b[..i] + b[i + 1..])
  {
    assert b == b[..i] + ([b[i]] + b[i + 1..]);
    DeltaConcat(b[..i], [b[i]] + b[i + 1..]);
    DeltaConcat(b[..i], b[i + 1..]);
    assert ([b[i]] + b[i + 1..])[1..] == b[i + 1..];
  }

  /** With consistent deltas (the total is the sum of the three list
      changes), the patch as written and as intended differ only when
      the total is zero while d88 + d89 is not. */
  lemma FinishAgrees(data: bytes, repls: seq<Replacement>, d88: int, d89: int, d8A: int)
    requires Delta(repls) == d88 + d89 + d8A
    requires Delta(repls) != 0 || d88 + d89 == 0
    ensures FinishPatchAsWritten(data, repls, d88, d89, d8A) == FinishPatch(data, repls, d88, d89, d8A)
  {
    SortSpec(repls);
    DeltaPermutation(repls, SortReplsDesc(repls));
    var r := ApplyAll(data, SortReplsDesc(repls));
    if r.Success? {
      RepairAgrees(r.value.0, r.value.1, d88, d89, d8A);
    }
  }
}
