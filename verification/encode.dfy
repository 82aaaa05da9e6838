/** The entry and field builders of internal/tv4p/write.go:538-697 and
    891-952. Each builder returns the bytes the reference serializer of
    module Wire lays out for the corresponding field tree, so the decoder
    reads the tree back (module RoundTrip). */
module Encode {
  import opened Wrappers
  import opened Errors
  import opened Bytes
  import opened Model
  import opened Decode
  import opened Wire
  import opened RoundTrip
  import opened Ids

  /** `make([]byte, n)`. */
  function Zeros(n: nat): (r: bytes)
    ensures |r| == n && forall i :: 0 <= i < n ==> r[i] == 0
  {
    seq(n, i => 0)
  }

  /** The encodings of a field sequence, one per field. */
  function EncodeEach(fs: seq<Field>): (r: seq<bytes>)
    ensures |r| == |fs| && forall i :: 0 <= i < |fs| ==> r[i] == EncodeField(fs[i])
  {
    seq(|fs|, i requires 0 <= i < |fs| => EncodeField(fs[i]))
  }

  /** The encodings of an entry sequence, one per entry. */
  function EncodeEachEntry(es: seq<Entry>): (r: seq<bytes>)
    ensures |r| == |es| && forall i :: 0 <= i < |es| ==> r[i] == EncodeEntry(es[i])
  {
    seq(|es|, i requires 0 <= i < |es| => EncodeEntry(es[i]))
  }

  lemma {:induction false} ConcatFields(fs: seq<Field>)
    ensures Concat(EncodeEach(fs)) == EncodeFields(fs)
    decreases |fs|
  {
    if |fs| > 0 {
      ConcatFields(fs[1..]);
      assert EncodeEach(fs)[1..] == EncodeEach(fs[1..]);
    }
  }

  lemma {:induction false} ConcatEntries(es: seq<Entry>)
    ensures Concat(EncodeEachEntry(es)) == EncodeEntries(es)
    decreases |es|
  {
    if |es| > 0 {
      ConcatEntries(es[1..]);
      assert EncodeEachEntry(es)[1..] == EncodeEachEntry(es[1..]);
    }
  }

  /** The field tree of a string field: the string's bytes as payload. */
  function StringField(tag: byte, s: string): Field {
    Field(tag, StringCode, StrBytes(s), [])
  }

  /** fieldString: a string longer than a u16 can count is an error. */
  function FieldString(tag: byte, s: string): (r: Result<bytes, Error>)
    ensures r.Failure? <==> |s| > 0xFFFF
    ensures r.Failure? ==> r.error == ValueOutOfUint16Range
    ensures r.Success? ==> r.value == EncodeField(StringField(tag, s))
  {
    var b := StrBytes(s);
    var len :- WriteU16FromInt([0, 0], |b|);
    Success(FieldHead(tag, StringCode) + len + b)
  }

  /** fieldByte. */
  function FieldByte(tag: byte, v: byte): (r: bytes)
    ensures r == EncodeField(Field(tag, ByteCode, [v], []))
  {
    [tag, 0x00, ByteCode, v]
  }

  /** fieldColor: alpha is always 0xFF, and the RGB channels are zero
      unless the colour is custom. */
  function FieldColor(tag: byte, c: Color, custom: bool): (r: bytes)
    ensures |r| == 7 && r == EncodeField(Field(tag, ColorCode, r[3..], []))
    ensures r[6] == 0xFF
    ensures custom ==> r[3..6] == [c.r, c.g, c.b]
    ensures !custom ==> r[3..6] == [0, 0, 0]
  {
    if !custom then [tag, 0x00, ColorCode, 0x00, 0x00, 0x00, 0xFF]
    else [tag, 0x00, ColorCode, c.r, c.g, c.b, 0xFF]
  }

  /** fieldBytes. */
  function FieldBytes(tag: byte, b: bytes): (r: bytes)
    ensures r == EncodeField(Field(tag, BytesCode, b, []))
  {
    FieldHead(tag, BytesCode) + b
  }

  /** fieldList over already built entries (buildList is Wire.Concat):
      the u32 list length counts the u32 count after it. */
  function FieldList(tag: byte, entries: seq<bytes>): (r: Result<bytes, Error>)
    ensures r.Failure? <==> |Concat(entries)| + 4 > 0xFFFF_FFFF || |entries| > 0xFFFF_FFFF
    ensures r.Failure? ==> r.error == ValueOutOfUint32Range
    ensures r.Success? ==>
      && r.value == FieldHead(tag, ListCode) + (LE32(|Concat(entries)| + 4) + LE32(|entries|)) + Concat(entries)
      && |r.value| == 11 + |Concat(entries)|
  {
    var list := Concat(entries);
    var listLen :- WriteU32FromInt([0, 0, 0, 0], |list| + 4);
    var count :- WriteU32FromInt([0, 0, 0, 0], |entries|);
    assert listLen == LE32(|list| + 4) by { WriteU32Layout([0, 0, 0, 0], |list| + 4); }
    assert count == LE32(|entries|) by { WriteU32Layout([0, 0, 0, 0], |entries|); }
    Success(FieldHead(tag, ListCode) + (listLen + count) + list)
  }

  /** buildEntry: marker, u32 body length, then the body (u16 type, u32 id,
      the fields). A body too long for its u32 length is an error. */
  function BuildEntry(typeId: u16, id: u32, fields: seq<bytes>): (r: Result<bytes, Error>)
    ensures r.Failure? <==> 6 + |Concat(fields)| > 0xFFFF_FFFF
    ensures r.Failure? ==> r.error == ValueOutOfUint32Range
    ensures r.Success? ==>
      && r.value == EntryMarker + LE32(6 + |Concat(fields)|) + LE16(typeId) + LE32(id) + Concat(fields)
      && |r.value| == 13 + |Concat(fields)|
  {
    var body := LE16(typeId) + LE32(id) + Concat(fields);
    var len :- WriteU32FromInt([0, 0, 0, 0], |body|);
    assert len == LE32(|body|) by { WriteU32Layout([0, 0, 0, 0], |body|); }
    Success(EntryMarker + len + body)
  }

  /** buildEntry over encoded fields is the reference entry layout. */
  lemma BuildEntryEncodes(e: Entry)
    requires 6 + |EncodeFields(e.fields)| < U32Limit
    ensures BuildEntry(e.typeId, e.id, EncodeEach(e.fields)) == Success(EncodeEntry(e))
  {
    ConcatFields(e.fields);
    EntryLayout(e);
  }

  lemma EntryLayout(e: Entry)
    requires 6 + |EncodeFields(e.fields)| < U32Limit
    ensures EncodeEntry(e) ==
      EntryMarker + LE32(6 + |EncodeFields(e.fields)|) + LE16(e.typeId) + LE32(e.id) + EncodeFields(e.fields)
  {
    var body := EntryBody(e);
    assert |body| % U32Limit == |body|;
  }

  /** fieldList over encoded entries is the reference list-field layout. */
  lemma FieldListEncodes(tag: byte, es: seq<Entry>)
    requires |EncodeEntries(es)| + 4 < U32Limit && |es| < U32Limit
    ensures FieldList(tag, EncodeEachEntry(es)) == Success(EncodeField(Field(tag, ListCode, [], es)))
  {
    var entries := EncodeEachEntry(es);
    ConcatEntries(es);
    FieldListOf(tag, entries, EncodeEntries(es));
    ListShape(Field(tag, ListCode, [], es));
  }

  lemma FieldListOf(tag: byte, entries: seq<bytes>, payload: bytes)
    requires Concat(entries) == payload && |payload| + 4 < U32Limit && |entries| < U32Limit
    ensures FieldList(tag, entries) == Success(FieldHead(tag, ListCode) + (LE32(|payload| + 4) + LE32(|entries|)) + payload)
  {
  }

  /** The id an encoded entry carries in its header (bytes 9..13). */
  function HeaderId(e: bytes): u32 {
    if |e| < 13 then 0 else ReadU32(e[9..13])
  }

  lemma HeaderIdOf(e: Entry)
    ensures HeaderId(EncodeEntry(e)) == e.id
  {
    var b := EncodeEntry(e);
    assert b == (EntryMarker + LE32(|EntryBody(e)| % U32Limit)) + (LE16(e.typeId) + LE32(e.id) + EncodeFields(e.fields));
    assert b[9..13] == LE32(e.id);
    LE32Injective(ReadU32(b[9..13]), e.id);
  }

  /** The fields of a parts-list entry: name, path, the 0x7D flag that only
      straight parts carry, and eight zero bytes under 0x7E. */
  function PartFields(p: RoadPart, flag: bool): seq<Field> {
    [StringField(0x33, p.name), StringField(0x7C, p.path)]
    + (if flag then [Field(0x7D, ByteCode, [0], [])] else [])
    + [Field(0x7E, BytesCode, Zeros(8), [])]
  }

  /** A part's entry type: its own when set, otherwise the list's default. */
  function PartType(p: RoadPart, defaultType: u16): (t: u16)
    ensures p.typ != 0 ==> t == p.typ
    ensures p.typ == 0 ==> t == defaultType
  {
    if p.typ == 0 then defaultType else p.typ
  }

  /** The entry tree written for a part that received `id`. */
  function PartEntry(p: RoadPart, defaultType: u16, flag: bool, id: u32): Entry {
    Entry(PartFields(p, flag), id, PartType(p, defaultType))
  }

  /** One pass of buildPartsList's loop: the entry and the id it got. */
  function BuildPart(p: RoadPart, defaultType: u16, flag: bool, a: Allocator): (r: Result<(bytes, u32, Allocator), Error>)
    ensures |p.name| > 0xFFFF || |p.path| > 0xFFFF ==> r == Failure(ValueOutOfUint16Range)
    ensures |p.name| <= 0xFFFF && |p.path| <= 0xFFFF ==> (r.Failure? <==> UseOrAlloc(a, p.id).Failure?)
    ensures r.Success? ==> UseOrAlloc(a, p.id) == Success((r.value.1, r.value.2))
    ensures r.Success? ==> r.value.0 == EncodeEntry(PartEntry(p, defaultType, flag, r.value.1))
  {
    var name :- FieldString(0x33, p.name);
    var path :- FieldString(0x7C, p.path);
    var fields := [name, path] + (if flag then [FieldByte(0x7D, 0)] else []) + [FieldBytes(0x7E, Zeros(8))];
    var got :- UseOrAlloc(a, p.id);
    PartFieldsEncode(p, flag, fields);
    BuildEntryEncodes(PartEntry(p, defaultType, flag, got.0));
    // buildEntry's error is unreachable here: a part's body is far below 2^32 bytes.
    var e := BuildEntry(PartType(p, defaultType), got.0, fields).value;
    Success((e, got.0, got.1))
  }

  lemma PartFieldsEncode(p: RoadPart, flag: bool, fields: seq<bytes>)
    requires |p.name| <= 0xFFFF && |p.path| <= 0xFFFF
    requires fields == [FieldString(0x33, p.name).value, FieldString(0x7C, p.path).value]
      + (if flag then [FieldByte(0x7D, 0)] else []) + [FieldBytes(0x7E, Zeros(8))]
    ensures fields == EncodeEach(PartFields(p, flag))
    ensures 6 + |EncodeFields(PartFields(p, flag))| < U32Limit
  {
    var fs := PartFields(p, flag);
    assert forall i :: 0 <= i < |fs| ==> |EncodeField(fs[i])| <= 0x1_0004;
    FieldsBound(fs);
  }

  /** Fields of at most 2^16 + 4 bytes each encode to at most that many
      bytes per field. */
  lemma {:induction false} FieldsBound(fs: seq<Field>)
    requires forall i :: 0 <= i < |fs| ==> |EncodeField(fs[i])| <= 0x1_0004
    ensures |EncodeFields(fs)| <= |fs| * 0x1_0004
    decreases |fs|
  {
    if |fs| > 0 {
      assert forall i :: 0 <= i < |fs[1..]| ==> fs[1..][i] == fs[i + 1];
      FieldsBound(fs[1..]);
    }
  }

  /** buildPartsList: one entry per part, in order, with the allocator
      threaded through. */
  function BuildPartsList(parts: seq<RoadPart>, defaultType: u16, flag: bool, a: Allocator)
    : (r: Result<(seq<bytes>, Allocator), Error>)
    ensures r.Success? ==> |r.value.0| == |parts|
    decreases |parts|
  {
    if |parts| == 0 then Success(([], a))
    else
      var first :- BuildPart(parts[0], defaultType, flag, a);
      var rest :- BuildPartsList(parts[1..], defaultType, flag, first.2);
      Success(([first.0] + rest.0, rest.1))
  }

  /** Each built entry is the part's entry tree under the id in its
      header; a part only gets built when its strings fit a u16 length. */
  predicate PartsEncoded(entries: seq<bytes>, parts: seq<RoadPart>, defaultType: u16, flag: bool) {
    |entries| == |parts| && forall i :: 0 <= i < |parts| ==> PartEncoded(entries[i], parts[i], defaultType, flag)
  }

  predicate PartEncoded(e: bytes, p: RoadPart, defaultType: u16, flag: bool) {
    && |p.name| <= 0xFFFF && |p.path| <= 0xFFFF
    && e == EncodeEntry(PartEntry(p, defaultType, flag, HeaderId(e)))
    && HeaderId(e) != 0 && (p.id != 0 ==> HeaderId(e) == p.id)
  }

  lemma {:induction false} BuildPartsListEncodes(parts: seq<RoadPart>, defaultType: u16, flag: bool, a: Allocator)
    ensures BuildPartsList(parts, defaultType, flag, a).Success? ==>
      PartsEncoded(BuildPartsList(parts, defaultType, flag, a).value.0, parts, defaultType, flag)
    decreases |parts|
  {
    var r := BuildPartsList(parts, defaultType, flag, a);
    if |parts| > 0 && r.Success? {
      var first := BuildPart(parts[0], defaultType, flag, a).value;
      var rest := BuildPartsList(parts[1..], defaultType, flag, first.2).value;
      BuildPartsListEncodes(parts[1..], defaultType, flag, first.2);
      HeaderIdOf(PartEntry(parts[0], defaultType, flag, first.1));
      PartsEncodedCons(first.0, rest.0, parts, defaultType, flag);
    }
  }

  lemma PartsEncodedCons(e: bytes, rest: seq<bytes>, parts: seq<RoadPart>, defaultType: u16, flag: bool)
    requires |parts| > 0 && PartEncoded(e, parts[0], defaultType, flag)
    requires PartsEncoded(rest, parts[1..], defaultType, flag)
    ensures PartsEncoded([e] + rest, parts, defaultType, flag)
  {
    assert forall i :: 0 < i < |parts| ==> ([e] + rest)[i] == rest[i - 1] && parts[i] == parts[1..][i - 1];
  }

  /** The ids in the headers of built entries. */
  function HeaderIdSet(entries: seq<bytes>): (r: set<u32>)
    ensures forall x :: x in r <==> exists i :: 0 <= i < |entries| && HeaderId(entries[i]) == x
  {
    set i | 0 <= i < |entries| :: HeaderId(entries[i])
  }

  /** The id a part ended up with: non-zero and registered; its own id when
      it had one, otherwise one that was free before the list was built. */
  predicate IdOk(id: u32, p: RoadPart, before: set<u32>, after: set<u32>) {
    id != 0 && id in after && (p.id != 0 ==> id == p.id) && (p.id == 0 ==> id !in before)
  }

  /** The id discipline of a built parts list: every id is IdOk, a freshly
      allocated id differs from every id handed out before it in the list,
      and the allocator afterwards knows exactly the old ids plus these. */
  predicate FreshIds(entries: seq<bytes>, parts: seq<RoadPart>, before: set<u32>, after: set<u32>) {
    && |entries| == |parts|
    && AllIdOk(entries, parts, before, after)
    && FreshDistinct(entries, parts)
    && after == before + HeaderIdSet(entries)
  }

  predicate AllIdOk(entries: seq<bytes>, parts: seq<RoadPart>, before: set<u32>, after: set<u32>)
    requires |entries| == |parts|
  {
    forall i :: 0 <= i < |parts| ==> IdOk(HeaderId(entries[i]), parts[i], before, after)
  }

  predicate FreshDistinct(entries: seq<bytes>, parts: seq<RoadPart>)
    requires |entries| == |parts|
  {
    forall i, j :: 0 <= i < j < |parts| && parts[j].id == 0 ==> HeaderId(entries[i]) != HeaderId(entries[j])
  }

  lemma {:induction false} BuildPartsListIds(parts: seq<RoadPart>, defaultType: u16, flag: bool, a: Allocator)
    ensures BuildPartsList(parts, defaultType, flag, a).Success? ==>
      FreshIds(BuildPartsList(parts, defaultType, flag, a).value.0, parts, a.used,
        BuildPartsList(parts, defaultType, flag, a).value.1.used)
    decreases |parts|
  {
    var r := BuildPartsList(parts, defaultType, flag, a);
    if |parts| > 0 && r.Success? {
      var first := BuildPart(parts[0], defaultType, flag, a).value;
      var rest := BuildPartsList(parts[1..], defaultType, flag, first.2).value;
      BuildPartsListIds(parts[1..], defaultType, flag, first.2);
      PartIdStep(parts[0], defaultType, flag, a, first);
      FreshIdsCons(first.0, rest.0, parts, a.used, first.2.used, rest.1.used);
    } else if r.Success? {
      assert HeaderIdSet([]) == {};
    }
  }

  /** What one pass of the loop does to the ids. */
  lemma PartIdStep(p: RoadPart, defaultType: u16, flag: bool, a: Allocator, first: (bytes, u32, Allocator))
    requires BuildPart(p, defaultType, flag, a) == Success(first)
    ensures HeaderId(first.0) == first.1 && first.2.used == a.used + {first.1}
    ensures first.1 != 0 && (p.id != 0 ==> first.1 == p.id) && (p.id == 0 ==> first.1 !in a.used)
  {
    HeaderIdOf(PartEntry(p, defaultType, flag, first.1));
  }

  lemma FreshIdsCons(e: bytes, rest: seq<bytes>, parts: seq<RoadPart>, before: set<u32>, mid: set<u32>, after: set<u32>)
    requires |parts| > 0 && mid == before + {HeaderId(e)}
    requires HeaderId(e) != 0 && (parts[0].id != 0 ==> HeaderId(e) == parts[0].id)
    requires parts[0].id == 0 ==> HeaderId(e) !in before
    requires FreshIds(rest, parts[1..], mid, after)
    ensures FreshIds([e] + rest, parts, before, after)
  {
    AllIdOkCons(e, rest, parts, before, mid, after);
    FreshDistinctCons(e, rest, parts, mid, after);
    HeaderIdSetCons(e, rest);
  }

  lemma AllIdOkCons(e: bytes, rest: seq<bytes>, parts: seq<RoadPart>, before: set<u32>, mid: set<u32>, after: set<u32>)
    requires |parts| > 0 && |rest| == |parts| - 1 && mid == before + {HeaderId(e)} && mid <= after
    requires IdOk(HeaderId(e), parts[0], before, after)
    requires AllIdOk(rest, parts[1..], mid, after)
    ensures AllIdOk([e] + rest, parts, before, after)
  {
    assert forall i :: 0 < i < |parts| ==> ([e] + rest)[i] == rest[i - 1] && parts[i] == parts[1..][i - 1];
  }

  lemma FreshDistinctCons(e: bytes, rest: seq<bytes>, parts: seq<RoadPart>, mid: set<u32>, after: set<u32>)
    requires |parts| > 0 && |rest| == |parts| - 1 && HeaderId(e) in mid
    requires AllIdOk(rest, parts[1..], mid, after)
    requires FreshDistinct(rest, parts[1..])
    ensures FreshDistinct([e] + rest, parts)
  {
    var all := [e] + rest;
    forall i, j | 0 <= i < j < |parts| && parts[j].id == 0
      ensures HeaderId(all[i]) != HeaderId(all[j])
    {
      assert all[j] == rest[j - 1] && parts[j] == parts[1..][j - 1];
      assert IdOk(HeaderId(rest[j - 1]), parts[1..][j - 1], mid, after);
      if i > 0 {
        assert all[i] == rest[i - 1];
      }
    }
  }

  lemma HeaderIdSetCons(e: bytes, rest: seq<bytes>)
    ensures HeaderIdSet([e] + rest) == {HeaderId(e)} + HeaderIdSet(rest)
  {
    var all := [e] + rest;
    forall x | x in HeaderIdSet(rest) ensures x in HeaderIdSet(all) {
      var i :| 0 <= i < |rest| && HeaderId(rest[i]) == x;
      assert all[i + 1] == rest[i];
    }
    assert all[0] == e;
  }

  /** The RGBA payload fieldColor writes. */
  function ColorPayload(c: Color, custom: bool): bytes {
    if custom then [c.r, c.g, c.b, 0xFF] else [0, 0, 0, 0xFF]
  }

  lemma FieldColorEncodes(tag: byte, c: Color, custom: bool)
    ensures FieldColor(tag, c, custom) == EncodeField(Field(tag, ColorCode, ColorPayload(c, custom), []))
  {
  }

  /** A road type's entry type: its own when set, otherwise 0x12. */
  function RoadTypeType(rt: RoadType): (t: u16)
    ensures rt.typ != 0 ==> t == rt.typ
    ensures rt.typ == 0 ==> t == RoadTypeEntry
  {
    if rt.typ == 0 then RoadTypeEntry else rt.typ
  }

  /** The twelve fields buildRoadTypeEntry writes, around the part entries
      of its three lists; 0x7A is always an empty list. */
  function RoadTypeFields(rt: RoadType, straight: seq<Entry>, corners: seq<Entry>, terminators: seq<Entry>): seq<Field> {
    [ StringField(0x33, rt.name),
      Field(0x71, ByteCode, [BoolByte(rt.keyCustom)], []),
      Field(0x72, ByteCode, [BoolByte(rt.normalCustom)], []),
      Field(0x73, ColorCode, ColorPayload(rt.normalColor, rt.normalCustom), []),
      Field(0x74, ColorCode, ColorPayload(rt.keyColor, rt.keyCustom), []),
      Field(0x75, ByteCode, [0], []),
      Field(0x76, BytesCode, Zeros(8), []),
      Field(0x77, BytesCode, Zeros(8), []),
      Field(0x78, ListCode, [], straight),
      Field(0x79, ListCode, [], corners),
      Field(0x7A, ListCode, [], []),
      Field(0x7B, ListCode, [], terminators) ]
  }

  /** The scalar fields that come before the lists. */
  function HeadFields(rt: RoadType, name: bytes): seq<bytes> {
    [ name,
      FieldByte(0x71, BoolByte(rt.keyCustom)),
      FieldByte(0x72, BoolByte(rt.normalCustom)),
      FieldColor(0x73, rt.normalColor, rt.normalCustom),
      FieldColor(0x74, rt.keyColor, rt.keyCustom),
      FieldByte(0x75, 0),
      FieldBytes(0x76, Zeros(8)),
      FieldBytes(0x77, Zeros(8)) ]
  }

  /** What buildRoadTypeEntry has computed when it calls buildEntry. */
  datatype Stages = Stages(
    name: bytes,
    straight: seq<bytes>, corners: seq<bytes>, terminators: seq<bytes>,
    straightField: bytes, cornerField: bytes, emptyField: bytes, terminatorField: bytes,
    id: u32, alloc: Allocator)

  /** buildRoadTypeEntry up to its final buildEntry call: the parts lists
      are built straight, corner, terminator in that order with one
      allocator, and the road type's own id is settled after its parts'. */
  function RoadTypeStages(rt: RoadType, a: Allocator): (r: Result<Stages, Error>)
    ensures |rt.name| > 0xFFFF ==> r == Failure(ValueOutOfUint16Range)
    ensures r.Success? ==> |r.value.straight| == |rt.straightParts| && |r.value.corners| == |rt.cornerParts|
    ensures r.Success? ==> |r.value.terminators| == |rt.terminatorParts|
  {
    var name :- FieldString(0x33, rt.name);
    var straight :- PartsListField(rt.straightParts, StraightEntry, true, 0x78, a);
    var corners :- PartsListField(rt.cornerParts, CornerEntry, false, 0x79, straight.2);
    // fieldList of no entries cannot fail.
    var emptyField := FieldList(0x7A, []).value;
    var terminators :- PartsListField(rt.terminatorParts, TerminatorEntry, false, 0x7B, corners.2);
    var got :- UseOrAlloc(terminators.2, rt.id);
    Success(Stages(name, straight.0, corners.0, terminators.0,
      straight.1, corners.1, emptyField, terminators.1, got.0, got.1))
  }

  /** One parts list and the list field wrapping it: the entries, the
      field and the allocator after the list. */
  function PartsListField(parts: seq<RoadPart>, defaultType: u16, flag: bool, tag: byte, a: Allocator)
    : (r: Result<(seq<bytes>, bytes, Allocator), Error>)
    ensures r.Success? ==> |r.value.0| == |parts|
  {
    var list :- BuildPartsList(parts, defaultType, flag, a);
    var field :- FieldList(tag, list.0);
    Success((list.0, field, list.1))
  }

  /** The field bytes handed to buildEntry. */
  function StageFields(rt: RoadType, st: Stages): seq<bytes> {
    HeadFields(rt, st.name) + [st.straightField, st.cornerField, st.emptyField, st.terminatorField]
  }

  /** buildRoadTypeEntry. */
  function BuildRoadTypeEntry(rt: RoadType, a: Allocator): (r: Result<(bytes, Allocator), Error>)
    ensures |rt.name| > 0xFFFF ==> r == Failure(ValueOutOfUint16Range)
  {
    var st :- RoadTypeStages(rt, a);
    var e :- BuildEntry(RoadTypeType(rt), st.id, StageFields(rt, st));
    Success((e, st.alloc))
  }

  /** buildRoadTypesEntries: one entry per road type, in order, all drawing
      ids from one allocator seeded with the file's ids and the
      configuration's. */
  function BuildRoadTypesEntries(types: seq<RoadType>, existing: set<u32>): (r: Result<seq<bytes>, Error>)
    ensures r.Success? ==> |r.value| == |types|
  {
    var built :- BuildEntriesFrom(types, NewAllocator(existing, types));
    Success(built.0)
  }

  function BuildEntriesFrom(types: seq<RoadType>, a: Allocator): (r: Result<(seq<bytes>, Allocator), Error>)
    ensures r.Success? ==> |r.value.0| == |types|
    decreases |types|
  {
    if |types| == 0 then Success(([], a))
    else
      var first :- BuildRoadTypeEntry(types[0], a);
      var rest :- BuildEntriesFrom(types[1..], first.1);
      Success(([first.0] + rest.0, rest.1))
  }
}
