/** The read side of the crossroad lists (internal/tv4p/crossroads.go):
    the 0x89 list of crossroad definitions and the 0x8A list of crossroad
    links that follow the road types list, the field accessors the reader
    uses on their entries, and the name grammar `kr_t_<ab>_<c>` /
    `kr_x_<ab>_<c>[_<d>]` that supplies a crossroad's connections. */
module Crossroads {
  import opened Wrappers
  import opened Errors
  import opened Bytes
  import opened Model
  import opened Decode
  import opened RawCodec
  import DecodeShape
  import Text

  // ---------------------------------------------------------------------
  // Field accessors: the FIRST field that matches wins.

  /** A field with the tag, one of the type codes and a payload of at least
      `minLen` bytes. */
  predicate FieldIs(f: Field, tag: byte, codes: set<byte>, minLen: nat) {
    f.tag == tag && f.typ in codes && |f.raw| >= minLen
  }

  /** The index of the first field FieldIs accepts. */
  function FirstField(fs: seq<Field>, tag: byte, codes: set<byte>, minLen: nat): (r: Option<nat>)
    ensures r.Some? ==> r.value < |fs| && FieldIs(fs[r.value], tag, codes, minLen)
    ensures r.Some? ==> forall j :: 0 <= j < r.value ==> !FieldIs(fs[j], tag, codes, minLen)
    ensures r.None? <==> forall j :: 0 <= j < |fs| ==> !FieldIs(fs[j], tag, codes, minLen)
    decreases |fs|
  {
    if |fs| == 0 then None
    else if FieldIs(fs[0], tag, codes, minLen) then Some(0)
    else
      match FirstField(fs[1..], tag, codes, minLen)
      case None => None
      case Some(i) => Some(i + 1)
  }

  /** entryString: the first string field with the tag, or "". */
  function EntryString(e: Entry, tag: byte): string {
    match FirstField(e.fields, tag, {StringCode}, 0)
    case Some(i) => BytesStr(e.fields[i].raw)
    case None => ""
  }

  /** entryColor: the first colour field with the tag and four bytes, or
      the zero colour. */
  function EntryColor(e: Entry, tag: byte): Color {
    match FirstField(e.fields, tag, {ColorCode}, 4)
    case Some(i) => RawColor(e.fields[i].raw)
    case None => Color(0, 0, 0, 0)
  }

  /** entryByte: the first byte field with the tag, or 0. */
  function EntryByte(e: Entry, tag: byte): byte {
    match FirstField(e.fields, tag, {ByteCode}, 1)
    case Some(i) => e.fields[i].raw[0]
    case None => 0
  }

  /** The u32 codes entryU32 accepts: 0x05 and 0x0D. */
  const U32Codes: set<byte> := {0x05, U32Code}

  /** entryU32: the first field with the tag, a u32 code and four bytes. */
  function EntryU32(e: Entry, tag: byte): Option<u32> {
    match FirstField(e.fields, tag, U32Codes, 4)
    case Some(i) => Some(ReadU32(e.fields[i].raw))
    case None => None
  }

  /** The decoder never produces a u32 field, so entryU32 finds nothing in
      an entry read from a file. */
  lemma DecodedHasNoU32(e: Entry, tag: byte)
    requires WellFormedEntry(e)
    ensures EntryU32(e, tag).None?
  {
    forall j | 0 <= j < |e.fields|
      ensures !FieldIs(e.fields[j], tag, U32Codes, 4)
    {
      assert WellFormedField(e.fields[j]);
    }
  }

  /** A string field written in front of an entry's other fields is what
      entryString reads back. */
  lemma EntryStringFirst(e: Entry, tag: byte, s: bytes)
    requires |e.fields| > 0 && e.fields[0] == Field(tag, StringCode, s, [])
    ensures EntryString(e, tag) == BytesStr(s)
  {
  }

  // ---------------------------------------------------------------------
  // Tagged list scanning.

  /** The list validators of findTaggedListAfter. */
  datatype ListKind = DefsList | LinksList

  /** validateCrossroadDefs / validateCrossroadLinks. */
  predicate Valid(kind: ListKind, es: seq<Entry>) {
    match kind
    case DefsList =>
      forall i :: 0 <= i < |es| ==>
        es[i].typeId == CrossroadDefEntry && EntryString(es[i], 0x33) != "" && EntryString(es[i], 0x7C) != ""
    case LinksList =>
      forall i :: 0 <= i < |es| ==> es[i].typeId == CrossroadLinkEntry && EntryString(es[i], 0x91) != ""
  }

  /** A located list: its header offset, the stored list length (which
      counts the 4-byte count), the field's whole length, the header count
      and the decoded entries. */
  datatype TaggedList = TaggedList(entries: seq<Entry>, start: nat, listLen: nat, fieldLen: nat, count: u32)

  function ListHeader(tag: byte): bytes {
    [tag, 0x00, ListCode]
  }

  /** What the scan of findTaggedListAfter accepts at offset `i`. */
  function TaggedListAt(data: bytes, i: nat, tag: byte, kind: ListKind): (r: Option<TaggedList>)
    ensures r.Some? ==> i + 11 <= |data| && data[i..i + 3] == ListHeader(tag)
    ensures r.Some? ==> r.value.start == i && r.value.listLen >= 4 && r.value.fieldLen == r.value.listLen + 7
    ensures r.Some? ==> r.value.start + r.value.fieldLen <= |data|
    ensures r.Some? ==> r.value.listLen == ReadU32(data[i + 3..]) && r.value.count == ReadU32(data[i + 7..])
    ensures r.Some? ==>
      ParseEntries(data, i + 11, r.value.listLen - 4, r.value.count) == Some(r.value.entries)
    ensures r.Some? ==> Valid(kind, r.value.entries)
  {
    if i + 11 > |data| || data[i..i + 3] != ListHeader(tag) then None
    else
      var listLen := ReadU32(data[i + 3..]);
      var count := ReadU32(data[i + 7..]);
      if listLen < 4 || i + 11 + (listLen - 4) > |data| then None
      else
        match ParseEntries(data, i + 11, listLen - 4, count)
        case None => None
        case Some(es) =>
          if Valid(kind, es) then Some(TaggedList(es, i, listLen, 11 + (listLen - 4), count)) else None
  }

  /** No offset in `from .. to` (exclusive) holds an accepted list. */
  ghost predicate NoTaggedIn(data: bytes, from: nat, to: nat, tag: byte, kind: ListKind) {
    forall j :: from <= j < to ==> TaggedListAt(data, j, tag, kind).None?
  }

  /** The scan loop: the first accepted offset at or after `from`. */
  function FindTaggedFrom(data: bytes, from: nat, tag: byte, kind: ListKind): (r: Option<TaggedList>)
    ensures r.Some? ==> from <= r.value.start && TaggedListAt(data, r.value.start, tag, kind) == r
    ensures r.Some? ==> NoTaggedIn(data, from, r.value.start, tag, kind)
    ensures r.None? ==> forall j :: from <= j ==> TaggedListAt(data, j, tag, kind).None?
    decreases |data| - from
  {
    if from + 11 > |data| then None
    else
      match TaggedListAt(data, from, tag, kind)
      case Some(l) => Some(l)
      case None => FindTaggedFrom(data, from + 1, tag, kind)
  }

  /** findTaggedListAfter: a negative start counts from 0, and a start at
      or past the end finds nothing. */
  function FindTaggedListAfter(data: bytes, from: int, tag: byte, kind: ListKind): (r: Option<TaggedList>)
    ensures r.Some? ==> from <= r.value.start && TaggedListAt(data, r.value.start, tag, kind) == r
    ensures r.Some? ==> forall j: nat :: from <= j < r.value.start ==> TaggedListAt(data, j, tag, kind).None?
    ensures r.None? ==> forall j: nat :: from <= j ==> TaggedListAt(data, j, tag, kind).None?
  {
    var start := if from < 0 then 0 else from;
    if start >= |data| then None else FindTaggedFrom(data, start, tag, kind)
  }

  // ---------------------------------------------------------------------
  // Connections.

  /** idxToRoadType: the name of the road type at an index; the "empty
      side" marker 0xFFFFFFFF and indices past the end give "". */
  function IdxToRoadType(types: seq<RoadType>, idx: u32): (r: string)
    ensures idx < |types| && idx != 0xFFFF_FFFF ==> r == types[idx].name
    ensures idx >= |types| ==> r == ""
    ensures idx == 0xFFFF_FFFF ==> r == ""
  {
    if idx == 0xFFFF_FFFF then ""
    else if idx >= |types| then ""
    else types[idx].name
  }

  /** crossroadHasRoadType: some side names the road type, compared
      case-insensitively; an empty name is on no crossroad. */
  predicate HasRoadType(cr: CrossroadType, rtName: string) {
    var want := Text.Lower(rtName);
    want != "" && exists k :: 0 <= k < 4 && Text.Lower(Sides(cr.connections)[k]) == want
  }

  /** Only the lower-cased name matters, so the test ignores the case of
      the road type name as well as of the sides. */
  lemma HasRoadTypeIgnoresCase(cr: CrossroadType, rtName: string)
    ensures HasRoadType(cr, Text.Lower(rtName)) == HasRoadType(cr, rtName)
    ensures HasRoadType(cr, rtName) ==> rtName != ""
  {
    Text.LowerIdempotent(rtName);
    Text.LowerEmpty(rtName);
  }

  /** The prefixes of the T- and X-junction names. */
  const TPrefix: string := "kr_t_"
  const XPrefix: string := "kr_x_"

  /** parseCrossroadNameTypes: `kr_t_<ab>_<c>` gives (ab, c, ""), and
      `kr_x_<ab>_<c>` gives (ab, c, c) and `kr_x_<ab>_<c>_<d...>` gives
      (ab, c, d...); anything else is not a crossroad name. */
  function ParseNameTypes(name: string): (r: Option<(string, string, string)>)
    ensures r.Some? ==> Text.HasPrefix(name, TPrefix) || Text.HasPrefix(name, XPrefix)
    ensures r.Some? && Text.HasPrefix(name, TPrefix) ==> r.value.2 == ""
  {
    if Text.HasPrefix(name, TPrefix) then
      var parts := Text.Split(Text.TrimPrefix(name, TPrefix), '_');
      if |parts| != 2 then None else Some((parts[0], parts[1], ""))
    else if Text.HasPrefix(name, XPrefix) then
      var parts := Text.Split(Text.TrimPrefix(name, XPrefix), '_');
      if |parts| < 2 then None
      else Some((parts[0], parts[1], if |parts| > 2 then Text.Join(parts[2..], '_') else parts[1]))
    else None
  }

  /** A T-junction name parses back into the two road type names it was
      made of. */
  lemma TNameRoundTrip(ab: string, c: string)
    requires '_' !in ab && '_' !in c
    ensures ParseNameTypes(TPrefix + ab + "_" + c) == Some((ab, c, ""))
  {
    var name := TPrefix + ab + "_" + c;
    assert TPrefix <= name;
    assert Text.TrimPrefix(name, TPrefix) == ab + ['_'] + c;
    Text.SplitAfterPart(ab, '_', c);
    Text.SplitNoSeparator(c, '_');
  }

  /** An X-junction name parses back into its parts; everything after the
      third underscore is the D side, underscores included. */
  lemma XNameRoundTrip(ab: string, c: string, d: string)
    requires '_' !in ab && '_' !in c
    ensures ParseNameTypes(XPrefix + ab + "_" + c + "_" + d) == Some((ab, c, d))
  {
    var name := XPrefix + ab + "_" + c + "_" + d;
    assert !(TPrefix <= name) by { assert name[3] != TPrefix[3]; }
    assert XPrefix <= name;
    assert Text.TrimPrefix(name, XPrefix) == ab + ['_'] + (c + ['_'] + d);
    Text.SplitAfterPart(ab, '_', c + ['_'] + d);
    Text.SplitAfterPart(c, '_', d);
    var parts := [ab] + ([c] + Text.Split(d, '_'));
    assert parts[2..] == Text.Split(d, '_');
    Text.SplitJoin(d, '_');
  }

  /** An X-junction name with two parts repeats the C side on D. */
  lemma XShortNameRoundTrip(ab: string, c: string)
    requires '_' !in ab && '_' !in c
    ensures ParseNameTypes(XPrefix + ab + "_" + c) == Some((ab, c, c))
  {
    var name := XPrefix + ab + "_" + c;
    assert !(TPrefix <= name) by { assert name[3] != TPrefix[3]; }
    assert XPrefix <= name;
    assert Text.TrimPrefix(name, XPrefix) == ab + ['_'] + c;
    Text.SplitAfterPart(ab, '_', c);
    Text.SplitNoSeparator(c, '_');
  }

  /** The connections the name grammar gives (A and B share `ab`), or all
      empty when the name does not parse. */
  function NameConnections(name: string): CrossroadConnections {
    match ParseNameTypes(name)
    case Some(t) => CrossroadConnections(t.0, t.0, t.1, t.2)
    case None => CrossroadConnections("", "", "", "")
  }

  /** The connections from the u32 index fields 0x84..0x87. */
  function IndexConnections(e: Entry, types: seq<RoadType>): CrossroadConnections {
    CrossroadConnections(Side(e, 0x84, types), Side(e, 0x85, types), Side(e, 0x86, types), Side(e, 0x87, types))
  }

  function Side(e: Entry, tag: byte, types: seq<RoadType>): string {
    match EntryU32(e, tag)
    case Some(idx) => IdxToRoadType(types, idx)
    case None => ""
  }

  predicate AllEmpty(c: CrossroadConnections) {
    c.a == "" && c.b == "" && c.c == "" && c.d == ""
  }

  /** The connections of a definition: the indices, and the name grammar
      when they give four empty sides. */
  function ConnectionsOf(e: Entry, types: seq<RoadType>): CrossroadConnections {
    var byIndex := IndexConnections(e, types);
    if AllEmpty(byIndex) then NameConnections(EntryString(e, 0x33)) else byIndex
  }

  // ---------------------------------------------------------------------
  // ParseRoadToolConfig.

  /** linksByModel: link entries keyed by their non-empty 0x91 model path,
      a later entry replacing an earlier one with the same path. */
  function LinksByModel(links: seq<Entry>): (m: map<string, Entry>)
    ensures forall k :: k in m <==> k != "" && exists i :: 0 <= i < |links| && EntryString(links[i], 0x91) == k
    decreases |links|
  {
    if |links| == 0 then map[]
    else
      var init := links[..|links| - 1];
      var last := links[|links| - 1];
      var p := EntryString(last, 0x91);
      assert forall i :: 0 <= i < |init| ==> init[i] == links[i];
      if p != "" then LinksByModel(init)[p := last] else LinksByModel(init)
  }

  /** The entry kept for a model path is the last one carrying it. */
  lemma {:induction false} LinksByModelLastWins(links: seq<Entry>, i: nat)
    requires i < |links| && EntryString(links[i], 0x91) != ""
    requires forall j :: i < j < |links| ==> EntryString(links[j], 0x91) != EntryString(links[i], 0x91)
    ensures LinksByModel(links)[EntryString(links[i], 0x91)] == links[i]
    decreases |links|
  {
    var init := links[..|links| - 1];
    if i < |links| - 1 {
      assert init[i] == links[i];
      assert forall j :: i < j < |init| ==> init[j] == links[j];
      LinksByModelLastWins(init, i);
    }
  }

  /** The crossroad one definition entry describes, before the defaults
      are derived. */
  function CrossroadOf(e: Entry, types: seq<RoadType>, links: map<string, Entry>): CrossroadType {
    var model := EntryString(e, 0x7C);
    CrossroadType(
      EntryString(e, 0x33), model, EntryColor(e, 0x73), EntryByte(e, 0x71) != 0,
      ConnectionsOf(e, types), "", Some(EntryToRaw(e)),
      if model in links then Some(EntryToRaw(links[model])) else None)
  }

  /** The defaults pass: the i-th crossroad takes the i-th road type's name
      as its default when it has none yet and one of its sides names that
      road type. */
  function DeriveDefaults(types: seq<RoadType>, crs: seq<CrossroadType>): (r: seq<CrossroadType>)
    ensures |r| == |crs|
  {
    seq(|crs|, i requires 0 <= i < |crs| =>
      if i < |types| && types[i].name != "" && crs[i].default == "" && HasRoadType(crs[i], types[i].name)
      then crs[i].(default := types[i].name)
      else crs[i])
  }

  /** The defaults pass only fills in empty defaults, only with the road
      type of the same index, and only where a side names it; every other
      attribute is kept. */
  lemma DeriveDefaultsSound(types: seq<RoadType>, crs: seq<CrossroadType>, i: nat)
    requires i < |crs|
    ensures DeriveDefaults(types, crs)[i].(default := crs[i].default) == crs[i]
    ensures DeriveDefaults(types, crs)[i].default != crs[i].default ==>
      crs[i].default == "" && i < |types| && DeriveDefaults(types, crs)[i].default == types[i].name
      && HasRoadType(crs[i], types[i].name)
    ensures crs[i].default == "" && i < |types| && types[i].name != "" && HasRoadType(crs[i], types[i].name) ==>
      DeriveDefaults(types, crs)[i].default == types[i].name
  {
  }

  /** The crossroads of a definitions list, in list order, before the
      defaults are derived. */
  function CrossroadsOf(defs: seq<Entry>, types: seq<RoadType>, links: map<string, Entry>): (r: seq<CrossroadType>)
    ensures |r| == |defs|
  {
    seq(|defs|, i requires 0 <= i < |defs| => CrossroadOf(defs[i], types, links))
  }

  /** The model-path index of the links list that follows a definitions
      list, empty when there is none. */
  function LinksAfter(data: bytes, defs: TaggedList): map<string, Entry> {
    match FindTaggedListAfter(data, defs.start + defs.fieldLen, 0x8A, LinksList)
    case Some(l) => LinksByModel(l.entries)
    case None => map[]
  }

  /** The offset just past the road types list field. */
  function AfterRoadTypes(block: RoadTypesBlock): nat {
    block.list.start + 7 + block.list.listLen
  }

  /** The crossroads part of ParseRoadToolConfig: the first valid 0x89
      list after the road types, and the first valid 0x8A list after that.
      No definitions list (or an empty one) leaves the crossroads absent. */
  function ReadCrossroads(data: bytes, block: RoadTypesBlock): Option<seq<CrossroadType>> {
    match FindTaggedListAfter(data, AfterRoadTypes(block), 0x89, DefsList)
    case None => None
    case Some(defs) =>
      var crs := CrossroadsOf(defs.entries, block.types, LinksAfter(data, defs));
      if |crs| == 0 then None else Some(DeriveDefaults(block.types, crs))
  }

  /** ParseRoadToolConfig: the road types, then the crossroads. */
  function ParseRoadToolConfig(data: bytes): (r: Result<RoadConfig, Error>)
    ensures ParseRoadTypes(data).Failure? ==> r == Failure(ParseRoadTypes(data).error)
    ensures ParseRoadTypes(data).Success? ==> r.Success? && r.value.types == ParseRoadTypes(data).value.types
    ensures r.Success? ==> r.value.crossroads == ReadCrossroads(data, ParseRoadTypes(data).value)
  {
    var block :- ParseRoadTypes(data);
    Success(RoadConfig(block.types, ReadCrossroads(data, block)))
  }

  /** The crossroads read are the definitions of the first valid 0x89 list
      after the road types, one per entry and in order: each keeps its
      entry verbatim, has the name and model the validator insisted on,
      and takes its connections from its name, since the decoder never
      yields the u32 index fields. */
  lemma ConfigCrossroads(data: bytes, block: RoadTypesBlock)
    requires ReadCrossroads(data, block).Some?
    ensures var defs := FindTaggedListAfter(data, AfterRoadTypes(block), 0x89, DefsList);
      var crs := ReadCrossroads(data, block).value;
      defs.Some? && |crs| == |defs.value.entries| > 0
      && forall i :: 0 <= i < |crs| ==>
        crs[i].def == Some(EntryToRaw(defs.value.entries[i]))
        && crs[i].name == EntryString(defs.value.entries[i], 0x33) != ""
        && crs[i].model == EntryString(defs.value.entries[i], 0x7C) != ""
        && crs[i].connections == NameConnections(crs[i].name)
  {
    var defs := FindTaggedListAfter(data, AfterRoadTypes(block), 0x89, DefsList).value;
    var pre := CrossroadsOf(defs.entries, block.types, LinksAfter(data, defs));
    var crs := ReadCrossroads(data, block).value;
    assert crs == DeriveDefaults(block.types, pre);
    DefsRead(data, defs, block.types, LinksAfter(data, defs));
    forall i | 0 <= i < |crs|
      ensures crs[i].(default := pre[i].default) == pre[i]
    {
      DeriveDefaultsSound(block.types, pre, i);
    }
  }

  /** Each crossroad of a located definitions list, before the defaults. */
  lemma DefsRead(data: bytes, defs: TaggedList, types: seq<RoadType>, links: map<string, Entry>)
    requires TaggedListAt(data, defs.start, 0x89, DefsList) == Some(defs)
    ensures var crs := CrossroadsOf(defs.entries, types, links);
      forall i :: 0 <= i < |crs| ==>
        crs[i].def == Some(EntryToRaw(defs.entries[i]))
        && crs[i].name == EntryString(defs.entries[i], 0x33) != ""
        && crs[i].model == EntryString(defs.entries[i], 0x7C) != ""
        && crs[i].connections == NameConnections(crs[i].name)
  {
    var es := defs.entries;
    DecodeShape.ParseEntriesWellFormed(data, defs.start + 11, defs.listLen - 4, defs.count);
    forall i | 0 <= i < |es|
      ensures ConnectionsOf(es[i], types) == NameConnections(EntryString(es[i], 0x33))
    {
      assert WellFormedEntry(es[i]);
      DecodedHasNoU32(es[i], 0x84);
      DecodedHasNoU32(es[i], 0x85);
      DecodedHasNoU32(es[i], 0x86);
      DecodedHasNoU32(es[i], 0x87);
    }
  }

  /** A file without a valid definitions list after the road types reads
      with no crossroads at all, which the writer takes as "leave the
      crossroad lists alone". */
  lemma ConfigWithoutDefs(data: bytes)
    requires ParseRoadTypes(data).Success?
    requires FindTaggedListAfter(data, AfterRoadTypes(ParseRoadTypes(data).value), 0x89, DefsList).None?
    ensures ParseRoadToolConfig(data) == Success(RoadConfig(ParseRoadTypes(data).value.types, None))
  {
  }
}
