/** The u32 repairs of the patcher (internal/tv4p/write.go:466-537 and
    840-890): shifting an offset-like u32 field that is found by its
    three-byte head, and copying the first link entry's id into the
    crossroads metadata. Go writes into the caller's slice; here every
    repair returns the repaired bytes. */
module Offsets {
  import opened Wrappers
  import opened Errors
  import opened Bytes
  import Text

  /** The head of a field: its tag, a zero byte and its type code. */
  function Head(tag: byte, typ: byte): bytes {
    [tag, 0x00, typ]
  }

  /** A head at `p` whose u32 payload lies inside the buffer. */
  predicate FitsAt(data: bytes, pat: bytes, p: int) {
    Text.MatchAt(data, pat, p) && p + 7 <= |data|
  }

  /** `p` is the only fitting head at or after `off`. */
  ghost predicate OnlyFit(data: bytes, pat: bytes, off: nat, p: int) {
    off <= p && FitsAt(data, pat, p) && forall q :: off <= q && q != p ==> !FitsAt(data, pat, q)
  }

  /** `p` is the only occurrence of the head anywhere in the buffer. */
  ghost predicate OnlyMatch(data: bytes, pat: bytes, p: int) {
    Text.MatchAt(data, pat, p) && forall q :: q != p ==> !Text.MatchAt(data, pat, q)
  }

  /** `r` is `data` with the u32 after the head at `p` set to `v` and
      every other byte kept. */
  predicate PutU32At(data: bytes, p: nat, v: u32, r: bytes) {
    && p + 7 <= |data| && |r| == |data|
    && r[..p + 3] == data[..p + 3] && r[p + 7..] == data[p + 7..]
    && ReadU32(r[p + 3..]) == v
  }

  /** The Go code's clamp: a shifted value below zero becomes zero. */
  function ClampZero(v: int): (r: nat)
    ensures v >= 0 ==> r == v
    ensures v < 0 ==> r == 0
  {
    if v < 0 then 0 else v
  }

  /** The value a shift by `delta` writes after the head at `p`. */
  function Shifted(data: bytes, p: nat, delta: int): nat
    requires p + 3 <= |data|
  {
    ClampZero(ReadU32(data[p + 3..]) + delta)
  }

  /** Overwrite the u32 after the head at `p` (the result of the in-place
      writeU32FromInt on data[p+3:]). */
  function WriteAt(data: bytes, p: nat, v: int): (r: Result<bytes, Error>)
    requires p + 7 <= |data|
    ensures r.Success? <==> 0 <= v <= 0xFFFF_FFFF
    ensures r.Failure? ==> r.error == ValueOutOfUint32Range
    ensures r.Success? ==> PutU32At(data, p, v, r.value)
  {
    var w :- WriteU32FromInt(data[p + 3..], v);
    var r := data[..p + 3] + w;
    assert r[p + 3..] == w && r[..p + 3] == data[..p + 3];
    assert r[p + 7..] == w[4..];
    Success(r)
  }

  // ---------------------------------------------------------------------
  // adjustOffsetsByTag.

  /** The counting loop of adjustOffsetsByTag from `off`: every fitting
      head is counted, and the first head whose payload would run past the
      end stops the scan. */
  function CountFrom(data: bytes, pat: bytes, off: nat): nat
    decreases |data| - off
  {
    var idx := Text.IndexFrom(data, pat, off);
    if idx < 0 || idx + 7 > |data| then 0
    else 1 + CountFrom(data, pat, idx + 1)
  }

  /** The loop counts nothing exactly when no head at or after `off`
      fits. */
  lemma CountZero(data: bytes, pat: bytes, off: nat)
    ensures CountFrom(data, pat, off) == 0 <==> forall q :: off <= q ==> !FitsAt(data, pat, q)
  {
    var idx := Text.IndexFrom(data, pat, off);
    if idx >= 0 && idx + 7 <= |data| {
      assert FitsAt(data, pat, idx);
    }
  }

  /** The loop counts one exactly when a single head at or after `off`
      fits: the count is the number of fitting heads. */
  lemma CountOne(data: bytes, pat: bytes, off: nat)
    ensures CountFrom(data, pat, off) == 1 <==> exists p :: OnlyFit(data, pat, off, p)
  {
    var idx := Text.IndexFrom(data, pat, off);
    CountZero(data, pat, off);
    if idx >= 0 && idx + 7 <= |data| {
      CountZero(data, pat, idx + 1);
      assert FitsAt(data, pat, idx);
      if CountFrom(data, pat, off) == 1 {
        assert OnlyFit(data, pat, off, idx);
      }
      if p :| OnlyFit(data, pat, off, p) {
        assert p == idx;
      }
    }
  }

  /** adjustOffsetsByTag: a zero shift changes nothing; the shift must fit
      in an int32 range; exactly one head of the field must fit in the
      data, and its value is shifted (clamped at zero). The "not found"
      error after a successful count cannot happen (lemma AdjustFound). */
  function AdjustOffsetsByTag(data: bytes, tag: byte, typ: byte, delta: int): (r: Result<bytes, Error>)
    ensures delta == 0 ==> r == Success(data)
    ensures delta != 0 && (delta < -0x7fff_ffff || delta > 0x7fff_ffff) ==> r == Failure(OffsetDeltaOutOfRange)
    ensures r.Success? ==> |r.value| == |data|
  {
    if delta == 0 then Success(data)
    else if delta < -0x7fff_ffff || delta > 0x7fff_ffff then Failure(OffsetDeltaOutOfRange)
    else
      var pat := Head(tag, typ);
      if CountFrom(data, pat, 0) != 1 then Failure(OffsetTagCountMismatch)
      else
        var pos := Text.Index(data, pat);
        if pos < 0 || pos + 7 > |data| then Failure(OffsetTagNotFound)
        else WriteAt(data, pos, Shifted(data, pos, delta))
  }

  /** A non-zero shift in range succeeds or fails on the field's heads
      alone: with no single fitting head the count check fails, with one
      at `p` the value after it is shifted and nothing else changes, and
      the shift fails only when the shifted value leaves the u32 range. */
  lemma AdjustOffsetsSpec(data: bytes, tag: byte, typ: byte, delta: int)
    requires delta != 0 && -0x7fff_ffff <= delta <= 0x7fff_ffff
    ensures (forall p :: !OnlyFit(data, Head(tag, typ), 0, p)) ==>
      AdjustOffsetsByTag(data, tag, typ, delta) == Failure(OffsetTagCountMismatch)
    ensures forall p :: OnlyFit(data, Head(tag, typ), 0, p) ==>
      var r := AdjustOffsetsByTag(data, tag, typ, delta);
      && (Shifted(data, p, delta) > 0xFFFF_FFFF ==> r == Failure(ValueOutOfUint32Range))
      && (Shifted(data, p, delta) <= 0xFFFF_FFFF ==> r.Success? && PutU32At(data, p, Shifted(data, p, delta), r.value))
  {
    var pat := Head(tag, typ);
    CountOne(data, pat, 0);
    forall p | OnlyFit(data, pat, 0, p)
      ensures Text.Index(data, pat) == p
    {
      AdjustFound(data, pat, p);
    }
  }

  /** With a single fitting head, the first head is that one. */
  lemma AdjustFound(data: bytes, pat: bytes, p: int)
    requires OnlyFit(data, pat, 0, p)
    ensures Text.Index(data, pat) == p
  {
    var idx := Text.Index(data, pat);
    assert Text.MatchAt(data, pat, p);
    assert idx <= p;
    assert FitsAt(data, pat, idx);
  }

  /** Shifting back undoes a shift that neither clamped nor overflowed,
      as long as the written value did not create another fitting head. */
  lemma AdjustOffsetsUndo(data: bytes, tag: byte, typ: byte, delta: int, p: nat)
    requires delta != 0 && -0x7fff_ffff <= delta <= 0x7fff_ffff
    requires OnlyFit(data, Head(tag, typ), 0, p)
    requires 0 <= ReadU32(data[p + 3..]) + delta <= 0xFFFF_FFFF
    requires AdjustOffsetsByTag(data, tag, typ, delta).Success?
    requires OnlyFit(AdjustOffsetsByTag(data, tag, typ, delta).value, Head(tag, typ), 0, p)
    ensures AdjustOffsetsByTag(AdjustOffsetsByTag(data, tag, typ, delta).value, tag, typ, -delta) == Success(data)
  {
    AdjustOffsetsSpec(data, tag, typ, delta);
    var r := AdjustOffsetsByTag(data, tag, typ, delta).value;
    AdjustOffsetsSpec(r, tag, typ, -delta);
    var back := AdjustOffsetsByTag(r, tag, typ, -delta).value;
    PutBack(data, p, r, back);
  }

  /** Two writes at the same place, the second restoring the first value,
      give the original bytes. */
  lemma PutBack(data: bytes, p: nat, r: bytes, back: bytes)
    requires p + 7 <= |data| && |r| == |data|
    requires r[..p + 3] == data[..p + 3] && r[p + 7..] == data[p + 7..]
    requires PutU32At(r, p, ReadU32(data[p + 3..]), back)
    ensures back == data
  {
    LE32Injective(ReadU32(back[p + 3..]), ReadU32(data[p + 3..]));
    assert back[p + 3..p + 7] == back[p + 3..][..4];
    assert data[p + 3..p + 7] == data[p + 3..][..4];
    assert back == back[..p + 3] + back[p + 3..p + 7] + back[p + 7..];
    assert data == data[..p + 3] + data[p + 3..p + 7] + data[p + 7..];
  }

  // ---------------------------------------------------------------------
  // adjustU32FieldInSlice.

  /** adjustU32FieldInSlice: like adjustOffsetsByTag without the range
      check on the shift, but it takes the first head, requires its
      payload to fit, and rejects any later occurrence of the head. */
  function AdjustU32FieldInSlice(b: bytes, tag: byte, typ: byte, delta: int): (r: Result<bytes, Error>)
    ensures delta == 0 ==> r == Success(b)
    ensures r.Success? ==> |r.value| == |b|
  {
    if delta == 0 then Success(b)
    else
      var pat := Head(tag, typ);
      var pos := Text.Index(b, pat);
      if pos < 0 || pos + 7 > |b| then Failure(U32FieldNotFound)
      else if Text.IndexFrom(b, pat, pos + 1) >= 0 then Failure(U32FieldAmbiguous)
      else WriteAt(b, pos, Shifted(b, pos, delta))
  }

  /** A non-zero shift is written only where the head occurs exactly once
      and its payload fits; no occurrence is "not found", and two
      occurrences are always an error. */
  lemma AdjustFieldSpec(b: bytes, tag: byte, typ: byte, delta: int)
    requires delta != 0
    ensures (forall q :: !Text.MatchAt(b, Head(tag, typ), q)) ==>
      AdjustU32FieldInSlice(b, tag, typ, delta) == Failure(U32FieldNotFound)
    ensures forall p, q :: Text.MatchAt(b, Head(tag, typ), p) && Text.MatchAt(b, Head(tag, typ), q) && p != q ==>
      AdjustU32FieldInSlice(b, tag, typ, delta).Failure?
    ensures forall p :: OnlyMatch(b, Head(tag, typ), p) && p + 7 <= |b| ==>
      var r := AdjustU32FieldInSlice(b, tag, typ, delta);
      && (Shifted(b, p, delta) > 0xFFFF_FFFF ==> r == Failure(ValueOutOfUint32Range))
      && (Shifted(b, p, delta) <= 0xFFFF_FFFF ==> r.Success? && PutU32At(b, p, Shifted(b, p, delta), r.value))
  {
    var pat := Head(tag, typ);
    var pos := Text.Index(b, pat);
    forall p, q | Text.MatchAt(b, pat, p) && Text.MatchAt(b, pat, q) && p != q
      ensures AdjustU32FieldInSlice(b, tag, typ, delta).Failure?
    {
      var hi := if p < q then q else p;
      assert pos >= 0 && pos <= hi;
      if pos + 7 <= |b| {
        assert pos < hi;
        assert Text.IndexFrom(b, pat, pos + 1) >= 0;
      }
    }
    forall p | OnlyMatch(b, pat, p) && p + 7 <= |b|
      ensures pos == p && Text.IndexFrom(b, pat, p + 1) < 0
    {
      assert pos <= p;
    }
  }

  // ---------------------------------------------------------------------
  // setMetaLinkIDTail.

  /** The head of the meta field that carries the link id tail. */
  const MetaLinkHead: bytes := [0x19, 0x00, 0x20]

  /** The header bytes of an entry. */
  const EntryHead: bytes := [0x06, 0x00, 0x0D]

  /** setMetaLinkIDTail: the 0x19/0x20 field must occur once in the meta
      with three bytes after its head; an empty 0x8A list keeps the meta;
      otherwise the first link entry must be well framed and the upper
      three bytes of its id replace those three meta bytes. */
  function SetMetaLinkIDTail(meta: bytes, links: bytes): (r: Result<bytes, Error>)
    ensures r.Success? ==> |r.value| == |meta|
    ensures r.Success? ==> |meta| >= 6
  {
    var pos := Text.Index(meta, MetaLinkHead);
    if pos < 0 || pos + 6 > |meta| then Failure(MetaLinkFieldNotFound)
    else if Text.IndexFrom(meta, MetaLinkHead, pos + 1) >= 0 then Failure(MetaLinkFieldAmbiguous)
    else if |links| < 11 then Failure(InvalidLinksField)
    else if ReadU32(links[7..]) == 0 then Success(meta)
    else if |links| < 24 then Failure(InvalidLinksEntries)
    else if links[11..14] != EntryHead then Failure(InvalidLinksFirstHeader)
    else if ReadU32(links[14..]) < 6 then Failure(InvalidLinksFirstBody)
    else Success(meta[..pos + 3] + links[21..24] + meta[pos + 6..])
  }

  /** A link field whose first entry is `e`: the field head, the u32 list
      length, a non-zero count, then the entries starting with `e`. */
  predicate FirstLinkEntry(links: bytes, e: bytes) {
    && |links| >= 11 + |e| && links[11..11 + |e|] == e && ReadU32(links[7..]) != 0
    && |e| >= 13 && e[..3] == EntryHead && ReadU32(e[3..]) >= 6
  }

  /** With a single 0x19/0x20 head at `p` in the meta and a link list
      whose first entry is `e`, the meta keeps every byte except the three
      after the head, which become the upper three bytes of `e`'s id. An
      empty link list leaves the meta as it was. */
  lemma MetaTailIsFirstId(meta: bytes, links: bytes, p: nat, e: bytes)
    requires OnlyMatch(meta, MetaLinkHead, p) && p + 6 <= |meta|
    requires FirstLinkEntry(links, e)
    ensures var r := SetMetaLinkIDTail(meta, links);
      && r.Success? && |r.value| == |meta|
      && r.value[..p + 3] == meta[..p + 3] && r.value[p + 6..] == meta[p + 6..]
      && r.value[p + 3..p + 6] == LE32(ReadU32(e[9..]))[1..]
  {
    var pos := Text.Index(meta, MetaLinkHead);
    assert pos <= p;
    assert links[11..14] == e[..3];
    assert links[14..][..4] == e[3..][..4];
    ReadPrefix(links[14..], e[3..]);
    assert links[20..][..4] == e[9..][..4];
    ReadPrefix(links[20..], e[9..]);
    var r := meta[..p + 3] + links[21..24] + meta[p + 6..];
    assert r[p + 3..p + 6] == links[21..24];
    assert LE32(ReadU32(links[20..])) == links[20..24];
  }

  /** An empty link list (count 0) leaves the meta unchanged once its
      0x19/0x20 field is found. */
  lemma MetaTailEmptyList(meta: bytes, links: bytes, p: nat)
    requires OnlyMatch(meta, MetaLinkHead, p) && p + 6 <= |meta|
    requires |links| >= 11 && ReadU32(links[7..]) == 0
    ensures SetMetaLinkIDTail(meta, links) == Success(meta)
  {
    var pos := Text.Index(meta, MetaLinkHead);
    assert pos <= p;
  }
}
