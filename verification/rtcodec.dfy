/** Writing a road type and reading it back: the entry buildRoadTypeEntry
    (internal/tv4p/write.go:555-616) lays out decodes, under the reader of
    internal/tv4p/read.go, to the same road type, with every zero id
    replaced by an allocated one, default entry types filled in and the
    colours as fieldColor stores them. */
module RoadTypeCodec {
  import opened Wrappers
  import opened Bytes
  import opened Model
  import opened Decode
  import opened Wire
  import opened RoundTrip
  import opened Ids
  import opened Encode

  /** The colour the reader gets back from fieldColor's payload. */
  function WrittenColor(c: Color, custom: bool): Color {
    if custom then Color(c.r, c.g, c.b, 0xFF) else Color(0, 0, 0, 0xFF)
  }

  /** A decoded part is the written part, with its entry type defaulted and
      a non-zero id that is the written one whenever that was non-zero. */
  predicate PartRecovered(d: RoadPart, p: RoadPart, defaultType: u16) {
    d.name == p.name && d.path == p.path && d.typ == PartType(p, defaultType)
    && d.id != 0 && (p.id != 0 ==> d.id == p.id)
  }

  predicate PartsRecovered(ds: seq<RoadPart>, ps: seq<RoadPart>, defaultType: u16) {
    |ds| == |ps| && forall i :: 0 <= i < |ps| ==> PartRecovered(ds[i], ps[i], defaultType)
  }

  /** What survives a write and a read of a road type. */
  predicate Recovered(d: RoadType, rt: RoadType) {
    && d.name == rt.name
    && d.keyCustom == rt.keyCustom && d.normalCustom == rt.normalCustom
    && d.normalColor == WrittenColor(rt.normalColor, rt.normalCustom)
    && d.keyColor == WrittenColor(rt.keyColor, rt.keyCustom)
    && d.typ == RoadTypeType(rt) && d.id != 0 && (rt.id != 0 ==> d.id == rt.id)
    && PartsRecovered(d.straightParts, rt.straightParts, StraightEntry)
    && PartsRecovered(d.cornerParts, rt.cornerParts, CornerEntry)
    && PartsRecovered(d.terminatorParts, rt.terminatorParts, TerminatorEntry)
  }

  /** A part the reader can give back: its strings are byte strings, and
      it has a name or a path (the reader drops parts with neither). */
  predicate PartsReadable(ps: seq<RoadPart>) {
    forall i :: 0 <= i < |ps| ==> IsByteString(ps[i].name) && IsByteString(ps[i].path) && Named(ps[i])
  }

  predicate Readable(rt: RoadType) {
    IsByteString(rt.name) && PartsReadable(rt.straightParts)
    && PartsReadable(rt.cornerParts) && PartsReadable(rt.terminatorParts)
  }

  /** The round trip for one road type. */
  lemma WriteThenRead(rt: RoadType, a: Allocator)
    requires Readable(rt)
    ensures BuildRoadTypeEntry(rt, a).Success? ==>
      var b := BuildRoadTypeEntry(rt, a).value.0;
      && ParseEntries(b, 0, |b|, 1).Some?
      && |ParseEntries(b, 0, |b|, 1).value| == 1
      && Recovered(RoadTypeOf(ParseEntries(b, 0, |b|, 1).value[0]), rt)
  {
    if BuildRoadTypeEntry(rt, a).Success? {
      var st := RoadTypeStages(rt, a).value;
      StagesFactsOf(rt, a, st);
      var tree := TreeOf(rt, st);
      BuiltIsTree(rt, a, st);
      TreeWellFormed(rt, st);
      DecodeEncodeEntry(tree);
      TreeRecovered(rt, st);
    }
  }

  /** A parts list as built: one encoded entry per part, wrapped by
      fieldList into `field`. */
  predicate ListBuilt(tag: byte, entries: seq<bytes>, field: bytes, parts: seq<RoadPart>, defaultType: u16, flag: bool) {
    PartsEncoded(entries, parts, defaultType, flag) && FieldList(tag, entries) == Success(field)
  }

  /** What a successful RoadTypeStages guarantees about its results. */
  predicate StagesFacts(rt: RoadType, st: Stages) {
    && |rt.name| <= 0xFFFF && st.name == EncodeField(StringField(0x33, rt.name))
    && ListBuilt(0x78, st.straight, st.straightField, rt.straightParts, StraightEntry, true)
    && ListBuilt(0x79, st.corners, st.cornerField, rt.cornerParts, CornerEntry, false)
    && FieldList(0x7A, []) == Success(st.emptyField)
    && ListBuilt(0x7B, st.terminators, st.terminatorField, rt.terminatorParts, TerminatorEntry, false)
    && st.id != 0 && (rt.id != 0 ==> st.id == rt.id)
  }

  lemma StagesFactsOf(rt: RoadType, a: Allocator, st: Stages)
    requires RoadTypeStages(rt, a) == Success(st)
    ensures StagesFacts(rt, st)
  {
    var straight := PartsListField(rt.straightParts, StraightEntry, true, 0x78, a).value;
    ListFieldBuilt(rt.straightParts, StraightEntry, true, 0x78, a);
    var corners := PartsListField(rt.cornerParts, CornerEntry, false, 0x79, straight.2).value;
    ListFieldBuilt(rt.cornerParts, CornerEntry, false, 0x79, straight.2);
    var terminators := PartsListField(rt.terminatorParts, TerminatorEntry, false, 0x7B, corners.2).value;
    ListFieldBuilt(rt.terminatorParts, TerminatorEntry, false, 0x7B, corners.2);
    var got := UseOrAlloc(terminators.2, rt.id).value;
    assert st == Stages(FieldString(0x33, rt.name).value, straight.0, corners.0, terminators.0,
      straight.1, corners.1, FieldList(0x7A, []).value, terminators.1, got.0, got.1);
  }

  lemma ListFieldBuilt(parts: seq<RoadPart>, defaultType: u16, flag: bool, tag: byte, a: Allocator)
    ensures PartsListField(parts, defaultType, flag, tag, a).Success? ==>
      var r := PartsListField(parts, defaultType, flag, tag, a).value;
      ListBuilt(tag, r.0, r.1, parts, defaultType, flag)
  {
    BuildPartsListEncodes(parts, defaultType, flag, a);
  }

  /** The part entries of a built list as trees. */
  function PartTrees(parts: seq<RoadPart>, defaultType: u16, flag: bool, entries: seq<bytes>): (r: seq<Entry>)
    requires |entries| == |parts|
    ensures |r| == |parts|
  {
    seq(|parts|, i requires 0 <= i < |parts| => PartEntry(parts[i], defaultType, flag, HeaderId(entries[i])))
  }

  /** The road type's entry tree. */
  function TreeOf(rt: RoadType, st: Stages): Entry
    requires |st.straight| == |rt.straightParts| && |st.corners| == |rt.cornerParts|
    requires |st.terminators| == |rt.terminatorParts|
  {
    Entry(RoadTypeFields(rt,
        PartTrees(rt.straightParts, StraightEntry, true, st.straight),
        PartTrees(rt.cornerParts, CornerEntry, false, st.corners),
        PartTrees(rt.terminatorParts, TerminatorEntry, false, st.terminators)),
      st.id, RoadTypeType(rt))
  }

  /** A built parts list is the encoding of its trees, and the list field
      is the encoding of a list field holding them. */
  lemma ListIsTree(tag: byte, entries: seq<bytes>, field: bytes, parts: seq<RoadPart>, defaultType: u16, flag: bool)
    requires ListBuilt(tag, entries, field, parts, defaultType, flag)
    ensures var trees := PartTrees(parts, defaultType, flag, entries);
      && field == EncodeField(Field(tag, ListCode, [], trees))
      && |EncodeEntries(trees)| + 4 < U32Limit && |trees| < U32Limit
  {
    var trees := PartTrees(parts, defaultType, flag, entries);
    assert entries == EncodeEachEntry(trees);
    ConcatEntries(trees);
    FieldListEncodes(tag, trees);
  }

  /** A part's entry tree is well formed and encodable. */
  lemma PartEntryShape(p: RoadPart, defaultType: u16, flag: bool, id: u32)
    requires |p.name| <= 0xFFFF && |p.path| <= 0xFFFF
    ensures WellFormedEntry(PartEntry(p, defaultType, flag, id))
    ensures EncodableEntry(PartEntry(p, defaultType, flag, id))
  {
    PartFieldsEncode(p, flag, [FieldString(0x33, p.name).value, FieldString(0x7C, p.path).value]
      + (if flag then [FieldByte(0x7D, 0)] else []) + [FieldBytes(0x7E, Zeros(8))]);
  }

  lemma PartTreesShape(parts: seq<RoadPart>, defaultType: u16, flag: bool, entries: seq<bytes>)
    requires PartsEncoded(entries, parts, defaultType, flag)
    ensures AllWellFormed(PartTrees(parts, defaultType, flag, entries))
    ensures EncodableEntries(PartTrees(parts, defaultType, flag, entries))
  {
    forall i | 0 <= i < |parts|
      ensures WellFormedEntry(PartEntry(parts[i], defaultType, flag, HeaderId(entries[i])))
      ensures EncodableEntry(PartEntry(parts[i], defaultType, flag, HeaderId(entries[i])))
    {
      PartEntryShape(parts[i], defaultType, flag, HeaderId(entries[i]));
    }
  }

  /** The bytes buildRoadTypeEntry returns encode the tree, and the tree's
      every length fits its field. */
  lemma BuiltIsTree(rt: RoadType, a: Allocator, st: Stages)
    requires RoadTypeStages(rt, a) == Success(st) && BuildRoadTypeEntry(rt, a).Success?
    requires StagesFacts(rt, st)
    ensures BuildRoadTypeEntry(rt, a).value.0 == EncodeEntry(TreeOf(rt, st))
    ensures EncodableEntry(TreeOf(rt, st))
  {
    var tree := TreeOf(rt, st);
    StageFieldsEncode(rt, st);
    ConcatFields(tree.fields);
    BuildEntryEncodes(tree);
    TreeEncodableFields(rt, st);
  }

  lemma StageFieldsEncode(rt: RoadType, st: Stages)
    requires StagesFacts(rt, st)
    ensures StageFields(rt, st) == EncodeEach(TreeOf(rt, st).fields)
  {
    var s := PartTrees(rt.straightParts, StraightEntry, true, st.straight);
    var c := PartTrees(rt.cornerParts, CornerEntry, false, st.corners);
    var t := PartTrees(rt.terminatorParts, TerminatorEntry, false, st.terminators);
    ListIsTree(0x78, st.straight, st.straightField, rt.straightParts, StraightEntry, true);
    ListIsTree(0x79, st.corners, st.cornerField, rt.cornerParts, CornerEntry, false);
    ListIsTree(0x7B, st.terminators, st.terminatorField, rt.terminatorParts, TerminatorEntry, false);
    FieldListEncodes(0x7A, []);
    assert EncodeEachEntry([]) == [];
    FieldsEncode(rt, st.name, st.straightField, st.cornerField, st.emptyField, st.terminatorField, s, c, t);
  }

  /** The byte strings buildRoadTypeEntry hands to buildEntry are the
      encodings of the road type's fields, one by one. */
  lemma FieldsEncode(rt: RoadType, name: bytes, sf: bytes, cf: bytes, ef: bytes, tf: bytes,
                     s: seq<Entry>, c: seq<Entry>, t: seq<Entry>)
    requires name == EncodeField(StringField(0x33, rt.name))
    requires sf == EncodeField(Field(0x78, ListCode, [], s)) && cf == EncodeField(Field(0x79, ListCode, [], c))
    requires ef == EncodeField(Field(0x7A, ListCode, [], [])) && tf == EncodeField(Field(0x7B, ListCode, [], t))
    ensures HeadFields(rt, name) + [sf, cf, ef, tf] == EncodeEach(RoadTypeFields(rt, s, c, t))
  {
    FieldColorEncodes(0x73, rt.normalColor, rt.normalCustom);
    FieldColorEncodes(0x74, rt.keyColor, rt.keyCustom);
  }

  /** A list of entries that fits a list field. */
  predicate ListFits(es: seq<Entry>) {
    |EncodeEntries(es)| + 4 < U32Limit && |es| < U32Limit && EncodableEntries(es)
  }

  lemma TreeEncodableFields(rt: RoadType, st: Stages)
    requires StagesFacts(rt, st)
    ensures EncodableFields(TreeOf(rt, st).fields)
  {
    var s := PartTrees(rt.straightParts, StraightEntry, true, st.straight);
    var c := PartTrees(rt.cornerParts, CornerEntry, false, st.corners);
    var t := PartTrees(rt.terminatorParts, TerminatorEntry, false, st.terminators);
    ListIsTree(0x78, st.straight, st.straightField, rt.straightParts, StraightEntry, true);
    ListIsTree(0x79, st.corners, st.cornerField, rt.cornerParts, CornerEntry, false);
    ListIsTree(0x7B, st.terminators, st.terminatorField, rt.terminatorParts, TerminatorEntry, false);
    PartTreesShape(rt.straightParts, StraightEntry, true, st.straight);
    PartTreesShape(rt.cornerParts, CornerEntry, false, st.corners);
    PartTreesShape(rt.terminatorParts, TerminatorEntry, false, st.terminators);
    FieldsEncodable(rt, s, c, t);
  }

  lemma FieldsEncodable(rt: RoadType, s: seq<Entry>, c: seq<Entry>, t: seq<Entry>)
    requires ListFits(s) && ListFits(c) && ListFits(t)
    ensures EncodableFields(RoadTypeFields(rt, s, c, t))
  {
    assert EncodeEntries([]) == [];
  }

  lemma TreeWellFormed(rt: RoadType, st: Stages)
    requires StagesFacts(rt, st)
    ensures WellFormedEntry(TreeOf(rt, st))
  {
    var s := PartTrees(rt.straightParts, StraightEntry, true, st.straight);
    var c := PartTrees(rt.cornerParts, CornerEntry, false, st.corners);
    var t := PartTrees(rt.terminatorParts, TerminatorEntry, false, st.terminators);
    PartTreesShape(rt.straightParts, StraightEntry, true, st.straight);
    PartTreesShape(rt.cornerParts, CornerEntry, false, st.corners);
    PartTreesShape(rt.terminatorParts, TerminatorEntry, false, st.terminators);
    FieldsWellFormedOf(rt, s, c, t);
  }

  lemma FieldsWellFormedOf(rt: RoadType, s: seq<Entry>, c: seq<Entry>, t: seq<Entry>)
    requires |rt.name| <= 0xFFFF && AllWellFormed(s) && AllWellFormed(c) && AllWellFormed(t)
    ensures FieldsWellFormed(RoadTypeFields(rt, s, c, t))
  {
  }

  lemma TreeRecovered(rt: RoadType, st: Stages)
    requires Readable(rt) && StagesFacts(rt, st)
    ensures Recovered(RoadTypeOf(TreeOf(rt, st)), rt)
  {
    var s := PartTrees(rt.straightParts, StraightEntry, true, st.straight);
    var c := PartTrees(rt.cornerParts, CornerEntry, false, st.corners);
    var t := PartTrees(rt.terminatorParts, TerminatorEntry, false, st.terminators);
    FieldsRead(rt, s, c, t, st.id, RoadTypeType(rt));
    PartsRead(rt.straightParts, StraightEntry, true, st.straight);
    PartsRead(rt.cornerParts, CornerEntry, false, st.corners);
    PartsRead(rt.terminatorParts, TerminatorEntry, false, st.terminators);
  }

  /** Reading the road type's fields gives back its name, flags and the
      colours as written, and the parts of each of the three lists. */
  lemma FieldsRead(rt: RoadType, s: seq<Entry>, c: seq<Entry>, t: seq<Entry>, id: u32, typ: u16)
    requires IsByteString(rt.name)
    ensures var d := ApplyFields(BlankRoadType(id, typ), RoadTypeFields(rt, s, c, t));
      && d.name == rt.name && d.keyCustom == rt.keyCustom && d.normalCustom == rt.normalCustom
      && d.normalColor == WrittenColor(rt.normalColor, rt.normalCustom)
      && d.keyColor == WrittenColor(rt.keyColor, rt.keyCustom)
      && d.straightParts == ExtractParts(s) && d.cornerParts == ExtractParts(c)
      && d.terminatorParts == ExtractParts(t) && d.id == id && d.typ == typ
  {
    var fs := RoadTypeFields(rt, s, c, t);
    LastFieldsOf(fs);
    StrBytesRoundTrip(rt.name, []);
    ColorRead(rt.normalColor, rt.normalCustom);
    ColorRead(rt.keyColor, rt.keyCustom);
    FlagRead(rt.keyCustom);
    FlagRead(rt.normalCustom);
    ReadLast(BlankRoadType(id, typ), fs);
  }

  /** fieldColor's payload reads back as the colour it wrote. */
  lemma ColorRead(c: Color, custom: bool)
    ensures |ColorPayload(c, custom)| == 4 && RawColor(ColorPayload(c, custom)) == WrittenColor(c, custom)
  {
  }

  /** A flag byte reads back as the flag. */
  lemma FlagRead(v: bool)
    ensures var raw: bytes := [BoolByte(v)]; (|raw| > 0 && raw[0] != 0) == v
  {
  }

  /** What the reader makes of fields whose last 0x33 ... 0x7B fields are
      the given ones. */
  lemma ReadLast(rt: RoadType, fs: seq<Field>)
    requires LastField(fs, 0x33).Some? && LastField(fs, 0x71).Some? && LastField(fs, 0x72).Some?
    requires LastField(fs, 0x73).Some? && |LastField(fs, 0x73).value.raw| >= 4
    requires LastField(fs, 0x74).Some? && |LastField(fs, 0x74).value.raw| >= 4
    requires LastField(fs, 0x78).Some? && LastField(fs, 0x79).Some? && LastField(fs, 0x7B).Some?
    ensures var d := ApplyFields(rt, fs);
      && d.name == BytesStr(LastField(fs, 0x33).value.raw)
      && d.keyCustom == (|LastField(fs, 0x71).value.raw| > 0 && LastField(fs, 0x71).value.raw[0] != 0)
      && d.normalCustom == (|LastField(fs, 0x72).value.raw| > 0 && LastField(fs, 0x72).value.raw[0] != 0)
      && d.normalColor == RawColor(LastField(fs, 0x73).value.raw)
      && d.keyColor == RawColor(LastField(fs, 0x74).value.raw)
      && d.straightParts == ExtractParts(LastField(fs, 0x78).value.list)
      && d.cornerParts == ExtractParts(LastField(fs, 0x79).value.list)
      && d.terminatorParts == ExtractParts(LastField(fs, 0x7B).value.list)
      && d.id == rt.id && d.typ == rt.typ
  {
    ApplyFieldsLastWins(rt, fs);
    ApplyFieldsFlags(rt, fs);
    ApplyFieldsColors(rt, fs);
  }

  /** Each tag the reader looks at occurs once among the fields. */
  lemma LastFieldsOf(fs: seq<Field>)
    requires |fs| == 12 && fs[0].tag == 0x33 && fs[1].tag == 0x71 && fs[2].tag == 0x72
    requires fs[3].tag == 0x73 && fs[4].tag == 0x74 && fs[5].tag == 0x75 && fs[6].tag == 0x76
    requires fs[7].tag == 0x77 && fs[8].tag == 0x78 && fs[9].tag == 0x79 && fs[10].tag == 0x7A
    requires fs[11].tag == 0x7B
    ensures LastField(fs, 0x33) == Some(fs[0]) && LastField(fs, 0x71) == Some(fs[1])
    ensures LastField(fs, 0x72) == Some(fs[2]) && LastField(fs, 0x73) == Some(fs[3])
    ensures LastField(fs, 0x74) == Some(fs[4]) && LastField(fs, 0x78) == Some(fs[8])
    ensures LastField(fs, 0x79) == Some(fs[9]) && LastField(fs, 0x7B) == Some(fs[11])
  {
    assert IncreasingTags(fs);
    LastOfIncreasing(fs, 0);
    LastOfIncreasing(fs, 1);
    LastOfIncreasing(fs, 2);
    LastOfIncreasing(fs, 3);
    LastOfIncreasing(fs, 4);
    LastOfIncreasing(fs, 8);
    LastOfIncreasing(fs, 9);
    LastOfIncreasing(fs, 11);
  }

  /** Field tags that strictly increase, as buildRoadTypeEntry writes them. */
  predicate IncreasingTags(fs: seq<Field>) {
    forall k :: 0 < k < |fs| ==> fs[k - 1].tag < fs[k].tag
  }

  /** With strictly increasing tags, every field is the last with its tag. */
  lemma LastOfIncreasing(fs: seq<Field>, i: nat)
    requires IncreasingTags(fs) && i < |fs|
    ensures LastField(fs, fs[i].tag) == Some(fs[i])
  {
    forall j | i < j < |fs| ensures fs[j].tag != fs[i].tag {
      TagsGrow(fs, i, j);
    }
    LastFieldAt(fs, fs[i].tag, i);
  }

  lemma {:induction false} TagsGrow(fs: seq<Field>, i: nat, j: nat)
    requires IncreasingTags(fs) && i < j < |fs|
    ensures fs[i].tag < fs[j].tag
    decreases j - i
  {
    if i + 1 < j {
      TagsGrow(fs, i, j - 1);
    }
  }

  /** A built list reads back as its parts. */
  lemma PartsRead(parts: seq<RoadPart>, defaultType: u16, flag: bool, entries: seq<bytes>)
    requires PartsEncoded(entries, parts, defaultType, flag) && PartsReadable(parts)
    ensures PartsRecovered(ExtractParts(PartTrees(parts, defaultType, flag, entries)), parts, defaultType)
  {
    var trees := PartTrees(parts, defaultType, flag, entries);
    forall i | 0 <= i < |parts|
      ensures PartOf(trees[i]) == RoadPart(parts[i].name, parts[i].path, HeaderId(entries[i]), PartType(parts[i], defaultType))
    {
      PartRead(parts[i], defaultType, flag, HeaderId(entries[i]));
    }
    ExtractPartsKeepsNamed(trees);
  }

  /** The reader gives back a part's name and path, its entry type and the
      id in its header. */
  lemma PartRead(p: RoadPart, defaultType: u16, flag: bool, id: u32)
    requires IsByteString(p.name) && IsByteString(p.path)
    ensures PartOf(PartEntry(p, defaultType, flag, id)) == RoadPart(p.name, p.path, id, PartType(p, defaultType))
  {
    var fs := PartFields(p, flag);
    LastFieldAt(fs, 0x33, 0);
    LastFieldAt(fs, 0x7C, 1);
    StrBytesRoundTrip(p.name, []);
    StrBytesRoundTrip(p.path, []);
  }
}
