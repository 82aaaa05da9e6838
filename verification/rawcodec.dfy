/** The verbatim write-back of raw entries (rawEntryToBytes and
    rawFieldToBytes, internal/tv4p/write.go:1347-1422) and the copy the
    reader keeps of a decoded entry (entryToRaw,
    internal/tv4p/crossroads.go:328-354). An entry copied by entryToRaw is
    written back byte for byte, without touching the allocator, as long as
    every id in it is set (lemma RawRoundTrip). */
module RawCodec {
  import opened Wrappers
  import opened Errors
  import opened Bytes
  import opened Model
  import opened Decode
  import opened Wire
  import opened Ids
  import opened Encode

  /** The fixed-size codes the raw writer copies without a length:
      bytes, colours, 8-byte blobs and the u32 / vector codes that the
      decoder itself does not accept. */
  predicate RawFixedCode(typ: byte) {
    typ == 0x09 || typ == 0x08 || typ == 0x14 || typ == 0x05 || typ == 0x0D || typ == 0x15 || typ == 0x20
  }

  /** rawEntryToBytes: a zero type is an error, a zero id is replaced by a
      fresh one (before the fields are written), and the fields are
      written in order with the allocator threaded through. */
  function RawEntryToBytes(e: EntryRaw, a: Allocator): (r: Result<(bytes, Allocator), Error>)
    ensures e.typ == 0 ==> r == Failure(RawEntryMissingType)
    ensures r.Success? ==> HeaderId(r.value.0) != 0 && (e.id != 0 ==> HeaderId(r.value.0) == e.id)
    ensures r.Success? ==> a.used <= r.value.1.used
    decreases e, 1
  {
    if e.typ == 0 then Failure(RawEntryMissingType)
    else
      var got :- if e.id != 0 then Success((e.id, a)) else UseOrAlloc(a, 0);
      var fields :- RawFieldsToBytes(e.fields, got.1);
      var b :- BuildEntry(e.typ, got.0, fields.0);
      BuildEntryHeader(e.typ, got.0, fields.0);
      Success((b, fields.1))
  }

  function RawFieldsToBytes(fs: seq<FieldRaw>, a: Allocator): (r: Result<(seq<bytes>, Allocator), Error>)
    ensures r.Success? ==> |r.value.0| == |fs| && a.used <= r.value.1.used
    decreases fs
  {
    if |fs| == 0 then Success(([], a))
    else
      var first :- RawFieldToBytes(fs[0], a);
      var rest :- RawFieldsToBytes(fs[1..], first.1);
      Success(([first.0] + rest.0, rest.1))
  }

  /** rawFieldToBytes: nested lists through fieldList, strings with a u16
      length, the fixed codes verbatim; any other code is an error. */
  function RawFieldToBytes(f: FieldRaw, a: Allocator): (r: Result<(bytes, Allocator), Error>)
    ensures f.typ != ListCode && f.typ != StringCode && !RawFixedCode(f.typ) ==>
      r == Failure(UnsupportedRawFieldType(f.typ))
    ensures f.typ == StringCode ==>
      (r.Failure? <==> |f.raw| > 0xFFFF)
      && (r.Success? ==> r.value == (EncodeField(Field(f.tag, StringCode, f.raw, [])), a))
    ensures RawFixedCode(f.typ) ==> r == Success((EncodeField(Field(f.tag, f.typ, f.raw, [])), a))
    ensures r.Success? ==> a.used <= r.value.1.used
    decreases f
  {
    if f.typ == ListCode then
      var entries :- RawEntriesToBytes(f.list, a);
      var b :- FieldList(f.tag, entries.0);
      Success((b, entries.1))
    else if f.typ == StringCode then
      var len :- WriteU16FromInt([0, 0], |f.raw|);
      assert len == LE16(|f.raw|) by { WriteU16Layout([0, 0], |f.raw|); }
      Success((FieldHead(f.tag, f.typ) + len + f.raw, a))
    else if RawFixedCode(f.typ) then Success((FieldHead(f.tag, f.typ) + f.raw, a))
    else Failure(UnsupportedRawFieldType(f.typ))
  }

  function RawEntriesToBytes(es: seq<EntryRaw>, a: Allocator): (r: Result<(seq<bytes>, Allocator), Error>)
    ensures r.Success? ==> |r.value.0| == |es| && a.used <= r.value.1.used
    decreases es
  {
    if |es| == 0 then Success(([], a))
    else
      var first :- RawEntryToBytes(es[0], a);
      var rest :- RawEntriesToBytes(es[1..], first.1);
      Success(([first.0] + rest.0, rest.1))
  }

  /** The id buildEntry writes is the one in the header. */
  lemma BuildEntryHeader(typeId: u16, id: u32, fields: seq<bytes>)
    requires BuildEntry(typeId, id, fields).Success?
    ensures HeaderId(BuildEntry(typeId, id, fields).value) == id
  {
    var b := BuildEntry(typeId, id, fields).value;
    var c := Concat(fields);
    assert b == (EntryMarker + LE32(6 + |c|)) + (LE16(typeId) + LE32(id) + c);
    assert b[9..13] == LE32(id);
    LE32Injective(ReadU32(b[9..13]), id);
  }

  /** entryToRaw: a structural copy of a decoded entry. */
  function EntryToRaw(e: Entry): (r: EntryRaw)
    ensures r.typ == e.typeId && r.id == e.id && |r.fields| == |e.fields|
    decreases e, 1
  {
    EntryRaw(e.typeId, e.id, FieldsToRaw(e.fields))
  }

  function FieldsToRaw(fs: seq<Field>): (r: seq<FieldRaw>)
    ensures |r| == |fs|
    decreases fs
  {
    if |fs| == 0 then [] else [FieldToRaw(fs[0])] + FieldsToRaw(fs[1..])
  }

  function FieldToRaw(f: Field): (r: FieldRaw)
    ensures r.tag == f.tag && r.typ == f.typ && r.raw == f.raw
    decreases f
  {
    FieldRaw(f.tag, f.typ, f.raw, EntriesToRaw(f.list))
  }

  function EntriesToRaw(es: seq<Entry>): (r: seq<EntryRaw>)
    ensures |r| == |es|
    decreases es
  {
    if |es| == 0 then [] else [EntryToRaw(es[0])] + EntriesToRaw(es[1..])
  }

  /** An entry the raw writer copies verbatim: a type and an id are set
      everywhere in it and every field code is one the writer supports. */
  predicate WritableEntry(e: Entry)
    decreases e, 1
  {
    e.typeId != 0 && e.id != 0 && WritableFields(e.fields)
  }

  predicate WritableFields(fs: seq<Field>)
    decreases fs, 0
  {
    forall i :: 0 <= i < |fs| ==> WritableField(fs[i])
  }

  predicate WritableField(f: Field)
    decreases f, 0
  {
    if f.typ == ListCode then WritableEntries(f.list)
    else if f.typ == StringCode then |f.raw| <= 0xFFFF
    else RawFixedCode(f.typ)
  }

  predicate WritableEntries(es: seq<Entry>)
    decreases es, 0
  {
    forall i :: 0 <= i < |es| ==> WritableEntry(es[i])
  }

  /** Writing back the copy entryToRaw keeps gives the reference encoding
      of the entry and allocates nothing. */
  lemma {:induction false} RawRoundTrip(e: Entry, a: Allocator)
    requires WritableEntry(e) && EncodableEntry(e)
    ensures RawEntryToBytes(EntryToRaw(e), a) == Success((EncodeEntry(e), a))
    decreases e, 1
  {
    RawFieldsRoundTrip(e.fields, a);
    ConcatFields(e.fields);
    BuildEntryEncodes(e);
  }

  lemma {:induction false} RawFieldsRoundTrip(fs: seq<Field>, a: Allocator)
    requires WritableFields(fs) && EncodableFields(fs)
    ensures RawFieldsToBytes(FieldsToRaw(fs), a) == Success((EncodeEach(fs), a))
    decreases fs, 0
  {
    if |fs| > 0 {
      FieldsTail(fs);
      RawFieldRoundTrip(fs[0], a);
      RawFieldsRoundTrip(fs[1..], a);
      var raws := FieldsToRaw(fs);
      assert raws[0] == FieldToRaw(fs[0]) && raws[1..] == FieldsToRaw(fs[1..]);
      RawFieldsStep(raws, a, EncodeField(fs[0]), EncodeEach(fs[1..]));
      assert EncodeEach(fs) == [EncodeField(fs[0])] + EncodeEach(fs[1..]);
    }
  }

  /** The fields are written one after the other. */
  lemma RawFieldsStep(fs: seq<FieldRaw>, a: Allocator, first: bytes, rest: seq<bytes>)
    requires |fs| > 0
    requires RawFieldToBytes(fs[0], a) == Success((first, a))
    requires RawFieldsToBytes(fs[1..], a) == Success((rest, a))
    ensures RawFieldsToBytes(fs, a) == Success(([first] + rest, a))
  {
  }

  lemma FieldsTail(fs: seq<Field>)
    requires |fs| > 0 && WritableFields(fs) && EncodableFields(fs)
    ensures WritableFields(fs[1..]) && EncodableFields(fs[1..])
    ensures WritableField(fs[0]) && EncodableField(fs[0])
  {
    assert forall i :: 0 <= i < |fs[1..]| ==> fs[1..][i] == fs[i + 1];
  }

  lemma {:induction false} RawFieldRoundTrip(f: Field, a: Allocator)
    requires WritableField(f) && EncodableField(f)
    ensures RawFieldToBytes(FieldToRaw(f), a) == Success((EncodeField(f), a))
    decreases f, 1
  {
    if f.typ == ListCode {
      RawListFieldRoundTrip(f, a);
    } else {
      RawFlatFieldRoundTrip(f, a);
    }
  }

  /** A string or fixed-size field is copied as its head and payload. */
  lemma RawFlatFieldRoundTrip(f: Field, a: Allocator)
    requires f.typ != ListCode && WritableField(f)
    ensures RawFieldToBytes(FieldToRaw(f), a) == Success((EncodeField(f), a))
  {
    assert EncodeField(f) == EncodeField(Field(f.tag, f.typ, f.raw, []));
  }

  lemma {:induction false} RawListFieldRoundTrip(f: Field, a: Allocator)
    requires f.typ == ListCode && WritableField(f) && EncodableField(f)
    ensures RawFieldToBytes(FieldToRaw(f), a) == Success((EncodeField(f), a))
    decreases f, 0
  {
    var raw := FieldToRaw(f);
    assert raw.list == EntriesToRaw(f.list);
    RawEntriesRoundTrip(f.list, a);
    FieldListEncodes(f.tag, f.list);
    assert EncodeField(f) == EncodeField(Field(f.tag, ListCode, [], f.list));
    RawListStep(raw, a, EncodeEachEntry(f.list), EncodeField(f));
  }

  /** A list field is written as fieldList over its written entries. */
  lemma RawListStep(raw: FieldRaw, a: Allocator, entries: seq<bytes>, b: bytes)
    requires raw.typ == ListCode
    requires RawEntriesToBytes(raw.list, a) == Success((entries, a))
    requires FieldList(raw.tag, entries) == Success(b)
    ensures RawFieldToBytes(raw, a) == Success((b, a))
  {
  }

  lemma {:induction false} RawEntriesRoundTrip(es: seq<Entry>, a: Allocator)
    requires WritableEntries(es) && EncodableEntries(es)
    ensures RawEntriesToBytes(EntriesToRaw(es), a) == Success((EncodeEachEntry(es), a))
    decreases es, 0
  {
    if |es| > 0 {
      EntriesTail(es);
      RawRoundTrip(es[0], a);
      RawEntriesRoundTrip(es[1..], a);
      var raws := EntriesToRaw(es);
      assert raws[0] == EntryToRaw(es[0]) && raws[1..] == EntriesToRaw(es[1..]);
      RawEntriesStep(raws, a, EncodeEntry(es[0]), EncodeEachEntry(es[1..]));
      assert EncodeEachEntry(es) == [EncodeEntry(es[0])] + EncodeEachEntry(es[1..]);
    }
  }

  lemma EntriesTail(es: seq<Entry>)
    requires |es| > 0 && WritableEntries(es) && EncodableEntries(es)
    ensures WritableEntries(es[1..]) && EncodableEntries(es[1..])
    ensures WritableEntry(es[0]) && EncodableEntry(es[0])
  {
    assert forall i :: 0 <= i < |es[1..]| ==> es[1..][i] == es[i + 1];
  }

  /** The entries are written one after the other. */
  lemma RawEntriesStep(es: seq<EntryRaw>, a: Allocator, first: bytes, rest: seq<bytes>)
    requires |es| > 0
    requires RawEntryToBytes(es[0], a) == Success((first, a))
    requires RawEntriesToBytes(es[1..], a) == Success((rest, a))
    ensures RawEntriesToBytes(es, a) == Success(([first] + rest, a))
  {
  }
}
