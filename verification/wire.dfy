/** The byte layout of entries and fields, as one reference serializer.
    The builders of internal/tv4p/write.go produce exactly these bytes
    (see modules Encode and RawCodec), and the decoder of
    internal/tv4p/read.go inverts them (lemma DecodeEncodeEntry). */
module Wire {
  import opened Bytes
  import opened Model
  import opened Decode

  /** Concatenation of byte strings (`buildList`). */
  function Concat(bs: seq<bytes>): (r: bytes)
    ensures |bs| == 0 ==> r == []
    decreases |bs|
  {
    if |bs| == 0 then [] else bs[0] + Concat(bs[1..])
  }

  lemma {:induction false} ConcatSnoc(bs: seq<bytes>, b: bytes)
    ensures Concat(bs + [b]) == Concat(bs) + b
    decreases |bs|
  {
    if |bs| == 0 {
      assert bs + [b] == [b];
    } else {
      assert (bs + [b])[1..] == bs[1..] + [b];
      ConcatSnoc(bs[1..], b);
    }
  }

  /** The three-byte field header: tag, 00, type code. */
  function FieldHead(tag: byte, typ: byte): bytes {
    [tag, 0x00, typ]
  }

  /** An entry: marker, u32 body length, then the body. */
  function EncodeEntry(e: Entry): (r: bytes)
    ensures |r| == 13 + |EncodeFields(e.fields)|
    decreases e, 1
  {
    var body := EntryBody(e);
    EntryMarker + LE32(|body| % U32Limit) + body
  }

  /** An entry body: u16 type, u32 id, then the fields. */
  function EntryBody(e: Entry): (r: bytes)
    ensures |r| == 6 + |EncodeFields(e.fields)|
    decreases e, 0
  {
    LE16(e.typeId) + LE32(e.id) + EncodeFields(e.fields)
  }

  function EncodeFields(fs: seq<Field>): bytes
    decreases fs
  {
    if |fs| == 0 then [] else EncodeField(fs[0]) + EncodeFields(fs[1..])
  }

  /** A field: header, then a u16-length-prefixed string, a list (u32
      length counting the u32 count, u32 count, entries) or a fixed payload. */
  function EncodeField(f: Field): bytes
    decreases f
  {
    if f.typ == ListCode then
      var payload := EncodeEntries(f.list);
      FieldHead(f.tag, f.typ) + LE32((|payload| + 4) % U32Limit) + LE32(|f.list| % U32Limit) + payload
    else if f.typ == StringCode then
      FieldHead(f.tag, f.typ) + LE16(|f.raw| % 0x1_0000) + f.raw
    else
      FieldHead(f.tag, f.typ) + f.raw
  }

  function EncodeEntries(es: seq<Entry>): bytes
    decreases es
  {
    if |es| == 0 then [] else EncodeEntry(es[0]) + EncodeEntries(es[1..])
  }

  /** Every length field fits its u32. */
  predicate EncodableEntry(e: Entry)
    decreases e, 1
  {
    6 + |EncodeFields(e.fields)| < U32Limit && EncodableFields(e.fields)
  }

  predicate EncodableFields(fs: seq<Field>)
    decreases fs, 0
  {
    forall i :: 0 <= i < |fs| ==> EncodableField(fs[i])
  }

  predicate EncodableField(f: Field)
    decreases f, 0
  {
    f.typ == ListCode ==>
      |EncodeEntries(f.list)| + 4 < U32Limit && |f.list| < U32Limit && EncodableEntries(f.list)
  }

  predicate EncodableEntries(es: seq<Entry>)
    decreases es, 0
  {
    forall i :: 0 <= i < |es| ==> EncodableEntry(es[i])
  }
}
