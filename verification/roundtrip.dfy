/** Decoding inverts the reference serializer: the entry/field decoder of
    internal/tv4p/read.go:172-298 gives back every well-formed entry the
    builders of internal/tv4p/write.go lay out. */
module RoundTrip {
  import opened Wrappers
  import opened Bytes
  import opened Model
  import opened Decode
  import opened Wire

  /** The whole round trip: an encoded entry, read as a one-entry list,
      decodes to the entry itself. */
  lemma DecodeEncodeEntry(e: Entry)
    requires WellFormedEntry(e) && EncodableEntry(e)
    ensures ParseEntries(EncodeEntry(e), 0, |EncodeEntry(e)|, 1) == Some([e])
  {
    var data := EncodeEntry(e);
    var end := |data|;
    assert [e][1..] == [];
    assert EncodeEntries([e][1..]) == [];
    assert EncodeEntries([e]) == data;
    assert data[0..end] == data;
    EntriesIn(data, 0, end, [e], data);
  }

  /* The decoder's loops as seen from the lemmas below. Stating their
     results through these non-recursive views, with every offset a plain
     parameter, keeps each proof step a single use of a decoder equation. */

  function LoopView(data: bytes, pos: nat, end: nat, count: nat): Option<seq<Entry>> {
    if pos <= end <= |data| then ParseLoop(data, pos, end, count) else None
  }

  function EntryView(b: bytes): Option<Entry> {
    ParseEntry(b)
  }

  function FieldsView(data: bytes, pos: nat): Option<seq<Field>> {
    if pos <= |data| then ParseFields(data, pos) else None
  }

  /** A run of encoded entries at `data[pos..end]` decodes to the entries
      when the count matches. */
  lemma {:induction false} EntriesIn(data: bytes, pos: nat, end: nat, es: seq<Entry>, ees: bytes)
    requires AllWellFormed(es) && EncodableEntries(es) && ees == EncodeEntries(es)
    requires end == pos + |ees| <= |data| && data[pos..end] == ees
    ensures LoopView(data, pos, end, |es|) == Some(es)
    decreases es, 2
  {
    if |es| == 0 {
      assert ParseLoop(data, pos, end, 0) == Some([]);
    } else {
      var ee := EncodeEntry(es[0]);
      var rest := EncodeEntries(es[1..]);
      var next := pos + |ee|;
      EntriesSplit(es);
      Slices(data, pos, next, end, ee, rest);
      EntriesIn(data, next, end, es[1..], rest);
      EntryStep(data, pos, next, end, es, ee);
    }
  }

  /** The first entry and the rest of a well-formed, encodable entry list. */
  lemma EntriesSplit(es: seq<Entry>)
    requires |es| > 0 && AllWellFormed(es) && EncodableEntries(es)
    ensures WellFormedEntry(es[0]) && EncodableEntry(es[0])
    ensures AllWellFormed(es[1..]) && EncodableEntries(es[1..])
    ensures EncodeEntries(es) == EncodeEntry(es[0]) + EncodeEntries(es[1..])
  {
    assert forall i :: 0 <= i < |es[1..]| ==> es[1..][i] == es[i + 1];
  }

  /** The first entry read in front of the already decoded rest. */
  lemma {:induction false} EntryStep(data: bytes, pos: nat, next: nat, end: nat, es: seq<Entry>, ee: bytes)
    requires |es| > 0 && WellFormedEntry(es[0]) && EncodableEntry(es[0]) && ee == EncodeEntry(es[0])
    requires next == pos + |ee| <= end <= |data| && data[pos..next] == ee
    requires LoopView(data, next, end, |es[1..]|) == Some(es[1..])
    ensures LoopView(data, pos, end, |es|) == Some(es)
    decreases es, 1
  {
    var body := EntryBody(es[0]);
    EntryLayout(data, pos, next, es[0], ee);
    EntryBodyParses(es[0], body);
    LoopGlue(data, pos, next, end, body, es);
  }

  /** Where the parts of an encoded entry sit. */
  lemma EntryLayout(data: bytes, pos: nat, next: nat, e: Entry, ee: bytes)
    requires EncodableEntry(e) && ee == EncodeEntry(e)
    requires next == pos + |ee| <= |data| && data[pos..next] == ee
    ensures pos + 7 <= next
    ensures data[pos..pos + 3] == EntryMarker && ReadU32(data[pos + 3..]) == next - pos - 7
    ensures data[pos + 7..next] == EntryBody(e)
  {
    var body := EntryBody(e);
    var lenAt := pos + 3;
    var bodyAt := pos + 7;
    assert ee == EntryMarker + LE32(|body|) + body;
    Slices(data, pos, bodyAt, next, EntryMarker + LE32(|body|), body);
    Slices(data, pos, lenAt, bodyAt, EntryMarker, LE32(|body|));
    ReadAt32(data, lenAt, |body|);
  }

  /** The entry loop step in terms of the decoder alone. */
  lemma LoopGlue(data: bytes, pos: nat, next: nat, end: nat, b: bytes, es: seq<Entry>)
    requires pos + 7 <= next <= end <= |data| && |es| > 0
    requires data[pos..pos + 3] == EntryMarker && ReadU32(data[pos + 3..]) == next - pos - 7
    requires b == data[pos + 7..next] && EntryView(b) == Some(es[0])
    requires LoopView(data, next, end, |es[1..]|) == Some(es[1..])
    ensures LoopView(data, pos, end, |es|) == Some(es)
  {
    ParseLoopStep(data, pos, next, end, |es|, b, es[0], end, |es[1..]|, es[1..]);
    assert [es[0]] + es[1..] == es;
  }

  /** An entry body decodes to its entry. */
  lemma {:induction false} EntryBodyParses(e: Entry, body: bytes)
    requires WellFormedEntry(e) && EncodableEntry(e) && body == EntryBody(e)
    ensures EntryView(body) == Some(e)
    decreases e, 0
  {
    var efs := EncodeFields(e.fields);
    EntryBodyLayout(e, body, efs);
    FieldsIn(body, 6, e.fields, efs);
    EntryGlue(body, e);
  }

  /** Where the parts of an entry body sit. */
  lemma EntryBodyLayout(e: Entry, body: bytes, efs: bytes)
    requires body == EntryBody(e) && efs == EncodeFields(e.fields)
    ensures |body| == 6 + |efs| && body[6..|body|] == efs
    ensures ReadU16(body) == e.typeId && ReadU32(body[2..]) == e.id
  {
    assert body == LE16(e.typeId) + (LE32(e.id) + efs);
    ReadLE(e.typeId, 0, LE32(e.id) + efs);
    assert body[2..] == LE32(e.id) + efs;
    ReadLE(0, e.id, efs);
  }

  /** The entry body step in terms of the decoder alone. */
  lemma EntryGlue(body: bytes, e: Entry)
    requires |body| >= 6 && ReadU16(body) == e.typeId && ReadU32(body[2..]) == e.id
    requires FieldsView(body, 6) == Some(e.fields)
    ensures EntryView(body) == Some(e)
  {
  }

  /** Encoded fields at the end of a body decode to the fields. */
  lemma {:induction false} FieldsIn(data: bytes, pos: nat, fs: seq<Field>, efs: bytes)
    requires FieldsWellFormed(fs) && EncodableFields(fs) && efs == EncodeFields(fs)
    requires pos + |efs| == |data| && data[pos..|data|] == efs
    ensures FieldsView(data, pos) == Some(fs)
    decreases fs, 2
  {
    if |fs| == 0 {
      assert ParseFields(data, pos) == Some([]);
    } else {
      var ef := EncodeField(fs[0]);
      var rest := EncodeFields(fs[1..]);
      var mid := pos + |ef|;
      FieldsSplit(fs);
      Slices(data, pos, mid, |data|, ef, rest);
      FieldsIn(data, mid, fs[1..], rest);
      FieldsStep(data, pos, mid, fs, ef);
    }
  }

  /** The first field and the rest of a well-formed, encodable field list. */
  lemma FieldsSplit(fs: seq<Field>)
    requires |fs| > 0 && FieldsWellFormed(fs) && EncodableFields(fs)
    ensures WellFormedField(fs[0]) && EncodableField(fs[0])
    ensures FieldsWellFormed(fs[1..]) && EncodableFields(fs[1..])
    ensures EncodeFields(fs) == EncodeField(fs[0]) + EncodeFields(fs[1..])
  {
    assert forall i :: 0 <= i < |fs[1..]| ==> fs[1..][i] == fs[i + 1];
  }

  /** The first field read in front of the already decoded rest. */
  lemma {:induction false} FieldsStep(data: bytes, pos: nat, mid: nat, fs: seq<Field>, ef: bytes)
    requires |fs| > 0 && WellFormedField(fs[0]) && EncodableField(fs[0]) && ef == EncodeField(fs[0])
    requires mid == pos + |ef| <= |data| && data[pos..mid] == ef
    requires FieldsView(data, mid) == Some(fs[1..])
    ensures FieldsView(data, pos) == Some(fs)
    decreases fs, 1
  {
    FieldIn(data, pos, mid, fs[0], ef);
    FieldsGlue(data, pos, mid, fs);
  }

  /** The field loop step in terms of the decoder alone. */
  lemma FieldsGlue(data: bytes, pos: nat, mid: nat, fs: seq<Field>)
    requires |fs| > 0 && FieldsView(data, pos) == Prepend(fs[0], FieldsView(data, mid))
    requires FieldsView(data, mid) == Some(fs[1..])
    ensures FieldsView(data, pos) == Some(fs)
  {
    assert [fs[0]] + fs[1..] == fs;
  }

  /** Decoding one encoded field at `data[pos..end]` consumes exactly its
      bytes. */
  lemma {:induction false} FieldIn(data: bytes, pos: nat, end: nat, f: Field, ef: bytes)
    requires WellFormedField(f) && EncodableField(f) && ef == EncodeField(f)
    requires end == pos + |ef| <= |data| && data[pos..end] == ef
    ensures FieldsView(data, pos) == Prepend(f, FieldsView(data, end))
    decreases f, 2
  {
    if f.typ == ListCode {
      ListFieldStep(data, pos, end, f, ef);
    } else if f.typ == StringCode {
      StringFieldIn(data, pos, end, f, ef);
    } else {
      FixedFieldIn(data, pos, end, f, ef);
    }
  }

  lemma {:induction false} ListFieldStep(data: bytes, pos: nat, end: nat, f: Field, ef: bytes)
    requires WellFormedField(f) && EncodableField(f) && f.typ == ListCode && ef == EncodeField(f)
    requires end == pos + |ef| <= |data| && data[pos..end] == ef
    ensures FieldsView(data, pos) == Prepend(f, FieldsView(data, end))
    decreases f, 1
  {
    ListFieldIn(data, pos, end, f, ef);
    ListGlue(data, pos, end, f);
  }

  lemma StringFieldIn(data: bytes, pos: nat, end: nat, f: Field, ef: bytes)
    requires WellFormedField(f) && f.typ == StringCode && ef == EncodeField(f)
    requires end == pos + |ef| <= |data| && data[pos..end] == ef
    ensures FieldsView(data, pos) == Prepend(f, FieldsView(data, end))
  {
    StringShape(f);
    StringLayout(data, pos, end, f, ef);
    StringGlue(data, pos, end, f);
  }

  lemma FixedFieldIn(data: bytes, pos: nat, end: nat, f: Field, ef: bytes)
    requires WellFormedField(f) && f.typ != StringCode && f.typ != ListCode && ef == EncodeField(f)
    requires end == pos + |ef| <= |data| && data[pos..end] == ef
    ensures FieldsView(data, pos) == Prepend(f, FieldsView(data, end))
  {
    FixedShape(f);
    FixedLayout(data, pos, end, f, ef);
    FixedGlue(data, pos, end, f);
  }

  /** A list field header at `pos`, followed up to `end` by entries that
      decode to the field's entries. */
  predicate ListHeadAt(data: bytes, pos: nat, end: nat, f: Field) {
    pos + 11 <= end <= |data| && f.typ == ListCode && f.raw == []
    && data[pos] == f.tag && data[pos + 1] == 0 && data[pos + 2] == ListCode
    && ReadU32(data[pos + 3..]) == end - pos - 7 && ReadU32(data[pos + 7..]) == |f.list|
    && LoopView(data, pos + 11, end, |f.list|) == Some(f.list)
  }

  /** What the field loop needs to read an encoded list field: its header,
      and its entries decoding in place. */
  lemma {:induction false} ListFieldIn(data: bytes, pos: nat, end: nat, f: Field, ef: bytes)
    requires WellFormedField(f) && EncodableField(f) && f.typ == ListCode && ef == EncodeField(f)
    requires end == pos + |ef| <= |data| && data[pos..end] == ef
    ensures ListHeadAt(data, pos, end, f)
    decreases f, 0
  {
    var payload := EncodeEntries(f.list);
    var start := pos + 11;
    ListShape(f);
    ListLayout(data, pos, start, end, f, ef, payload);
    EntriesIn(data, start, end, f.list, payload);
  }

  /** The encodings of the three kinds of field, spelled out. */
  lemma ListShape(f: Field)
    requires f.typ == ListCode && |EncodeEntries(f.list)| + 4 < U32Limit && |f.list| < U32Limit
    ensures EncodeField(f) == FieldHead(f.tag, ListCode)
      + (LE32(|EncodeEntries(f.list)| + 4) + LE32(|f.list|)) + EncodeEntries(f.list)
  {
    var n := |EncodeEntries(f.list)|;
    assert (n + 4) % U32Limit == n + 4 && |f.list| % U32Limit == |f.list|;
  }

  lemma StringShape(f: Field)
    requires f.typ == StringCode && |f.raw| <= 0xFFFF
    ensures EncodeField(f) == FieldHead(f.tag, StringCode) + (LE16(|f.raw|) + f.raw)
  {
    assert |f.raw| % 0x1_0000 == |f.raw|;
  }

  lemma FixedShape(f: Field)
    requires f.typ != StringCode && f.typ != ListCode
    ensures EncodeField(f) == FieldHead(f.tag, f.typ) + f.raw
  {
  }

  /** Where the parts of an encoded list field sit: the header, the two
      counts, then the entries from `start` to `end`. */
  lemma ListLayout(data: bytes, pos: nat, start: nat, end: nat, f: Field, ef: bytes, payload: bytes)
    requires |payload| + 4 < U32Limit && |f.list| < U32Limit
    requires ef == FieldHead(f.tag, ListCode) + (LE32(|payload| + 4) + LE32(|f.list|)) + payload
    requires start == pos + 11 && end == pos + |ef| <= |data| && data[pos..end] == ef
    ensures end == start + |payload|
    ensures data[pos] == f.tag && data[pos + 1] == 0 && data[pos + 2] == ListCode
    ensures ReadU32(data[pos + 3..]) == end - pos - 7 && ReadU32(data[pos + 7..]) == |f.list|
    ensures data[start..end] == payload
  {
    var counts := LE32(|payload| + 4) + LE32(|f.list|);
    var countsAt := pos + 3;
    var secondAt := pos + 7;
    Slices(data, pos, start, end, FieldHead(f.tag, ListCode) + counts, payload);
    HeadLayout(data, pos, start, f.tag, ListCode, counts);
    Slices(data, countsAt, secondAt, start, LE32(|payload| + 4), LE32(|f.list|));
    ReadAt32(data, countsAt, |payload| + 4);
    ReadAt32(data, secondAt, |f.list|);
  }

  /** Where the parts of an encoded string field sit. */
  lemma StringLayout(data: bytes, pos: nat, end: nat, f: Field, ef: bytes)
    requires |f.raw| <= 0xFFFF && ef == FieldHead(f.tag, StringCode) + (LE16(|f.raw|) + f.raw)
    requires end == pos + |ef| <= |data| && data[pos..end] == ef
    ensures end == pos + 5 + |f.raw|
    ensures data[pos] == f.tag && data[pos + 1] == 0 && data[pos + 2] == StringCode
    ensures ReadU16(data[pos + 3..]) == end - pos - 5 && data[pos + 5..end] == f.raw
  {
    var lenAt := pos + 3;
    var rawAt := pos + 5;
    HeadLayout(data, pos, end, f.tag, StringCode, LE16(|f.raw|) + f.raw);
    Slices(data, lenAt, rawAt, end, LE16(|f.raw|), f.raw);
    ReadAt16(data, lenAt, |f.raw|);
  }

  /** Where the parts of an encoded fixed-size field sit. */
  lemma FixedLayout(data: bytes, pos: nat, end: nat, f: Field, ef: bytes)
    requires ef == FieldHead(f.tag, f.typ) + f.raw
    requires end == pos + |ef| <= |data| && data[pos..end] == ef
    ensures end == pos + 3 + |f.raw|
    ensures data[pos] == f.tag && data[pos + 1] == 0 && data[pos + 2] == f.typ
    ensures data[pos + 3..end] == f.raw
  {
    HeadLayout(data, pos, end, f.tag, f.typ, f.raw);
  }

  /** A field header and what follows it, found at `data[pos..end]`. */
  lemma HeadLayout(data: bytes, pos: nat, end: nat, tag: byte, typ: byte, rest: bytes)
    requires end == pos + 3 + |rest| <= |data| && data[pos..end] == FieldHead(tag, typ) + rest
    ensures data[pos] == tag && data[pos + 1] == 0 && data[pos + 2] == typ
    ensures data[pos + 3..end] == rest
  {
    var restAt := pos + 3;
    Slices(data, pos, restAt, end, FieldHead(tag, typ), rest);
    assert data[pos] == data[pos..restAt][0];
    assert data[pos + 1] == data[pos..restAt][1];
    assert data[pos + 2] == data[pos..restAt][2];
  }

  /** The three field steps in terms of the decoder alone. */
  lemma ListGlue(data: bytes, pos: nat, end: nat, f: Field)
    requires ListHeadAt(data, pos, end, f)
    ensures FieldsView(data, pos) == Prepend(f, FieldsView(data, end))
  {
    ParseFieldsListStep(data, pos, end, f.list, end);
    assert Field(data[pos], ListCode, [], f.list) == f;
  }

  lemma StringGlue(data: bytes, pos: nat, end: nat, f: Field)
    requires f.typ == StringCode && f.list == [] && pos + 5 <= end <= |data|
    requires data[pos] == f.tag && data[pos + 1] == 0 && data[pos + 2] == StringCode
    requires ReadU16(data[pos + 3..]) == end - pos - 5 && data[pos + 5..end] == f.raw
    ensures FieldsView(data, pos) == Prepend(f, FieldsView(data, end))
  {
    ParseFieldsStringStep(data, pos, end);
    assert Field(data[pos], StringCode, data[pos + 5..end], []) == f;
  }

  lemma FixedGlue(data: bytes, pos: nat, end: nat, f: Field)
    requires f.typ == ByteCode || f.typ == ColorCode || f.typ == BytesCode
    requires f.list == [] && |f.raw| == FixedSize(f.typ) && end == pos + 3 + |f.raw| <= |data|
    requires data[pos] == f.tag && data[pos + 1] == 0 && data[pos + 2] == f.typ
    requires data[pos + 3..end] == f.raw
    ensures FieldsView(data, pos) == Prepend(f, FieldsView(data, end))
  {
    ParseFieldsFixedStep(data, pos, end);
    assert Field(data[pos], f.typ, data[pos + 3..end], []) == f;
  }

  /** The two pieces of a concatenation found at `data[pos..end]`, split
      at `mid`. */
  lemma Slices(data: bytes, pos: nat, mid: nat, end: nat, a: bytes, b: bytes)
    requires mid == pos + |a| && end == mid + |b| <= |data| && data[pos..end] == a + b
    ensures data[pos..mid] == a && data[mid..end] == b
  {
    assert data[pos..mid] == data[pos..end][..|a|];
    assert data[mid..end] == data[pos..end][|a|..];
  }

  /** A u32 / u16 layout found at `pos` reads back as its value. */
  lemma ReadAt32(data: bytes, pos: nat, v: u32)
    requires pos + 4 <= |data| && data[pos..pos + 4] == LE32(v)
    ensures ReadU32(data[pos..]) == v
  {
    assert data[pos..][..4] == LE32(v);
    LE32Injective(ReadU32(data[pos..]), v);
  }

  lemma ReadAt16(data: bytes, pos: nat, v: u16)
    requires pos + 2 <= |data| && data[pos..pos + 2] == LE16(v)
    ensures ReadU16(data[pos..]) == v
  {
    assert data[pos..][..2] == LE16(v);
    LE16Injective(ReadU16(data[pos..]), v);
  }
}
