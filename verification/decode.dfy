/** The entry/field decoder and the road types list scanner
    (internal/tv4p/read.go). */
module Decode {
  import opened Wrappers
  import opened Errors
  import opened Bytes
  import opened Model
  import Text

  /** Every entry starts with this marker, then a u32 body length. */
  const EntryMarker: bytes := [0x06, 0x00, 0x0D]

  /** The field type codes the decoder accepts. */
  predicate KnownCode(typ: byte) {
    typ == StringCode || typ == ByteCode || typ == ColorCode || typ == BytesCode || typ == ListCode
  }

  /** Payload size of the fixed-size field types. */
  function FixedSize(typ: byte): nat {
    if typ == ByteCode then 1 else if typ == ColorCode then 4 else 8
  }

  /** The shape every decoded field has: a payload of the size its type code
      prescribes, or (for a list) nested well-formed entries and no payload. */
  predicate WellFormedField(f: Field) {
    if f.typ == StringCode then |f.raw| <= 0xFFFF && f.list == []
    else if f.typ == ByteCode || f.typ == ColorCode || f.typ == BytesCode then
      |f.raw| == FixedSize(f.typ) && f.list == []
    else if f.typ == ListCode then
      f.raw == [] && forall i :: 0 <= i < |f.list| ==> WellFormedEntry(f.list[i])
    else false
  }

  predicate WellFormedEntry(e: Entry) {
    FieldsWellFormed(e.fields)
  }

  predicate FieldsWellFormed(fs: seq<Field>) {
    forall i :: 0 <= i < |fs| ==> WellFormedField(fs[i])
  }

  predicate AllWellFormed(es: seq<Entry>) {
    forall i :: 0 <= i < |es| ==> WellFormedEntry(es[i])
  }

  /** parseEntries: up to `count` entries from the window
      `data[pos .. pos + listLen]`. Fewer than `count` entries is not an
      error, and the bytes after the last entry are ignored. */
  function ParseEntries(data: bytes, pos: nat, listLen: nat, count: nat): (r: Option<seq<Entry>>)
    ensures pos + listLen > |data| ==> r.None?
    ensures r.Some? ==> |r.value| <= count
    ensures count > 0 && pos + 7 <= pos + listLen <= |data| && data[pos..pos + 3] != EntryMarker ==> r.None?
    decreases listLen, 0, 1
  {
    if pos + listLen > |data| then None else ParseLoop(data, pos, pos + listLen, count)
  }

  /** The loop of parseEntries over `data[pos .. end]`. */
  function ParseLoop(data: bytes, pos: nat, end: nat, remaining: nat): (r: Option<seq<Entry>>)
    requires pos <= end <= |data|
    ensures r.Some? ==> |r.value| <= remaining
    ensures remaining > 0 && pos + 7 <= end && data[pos..pos + 3] != EntryMarker ==> r.None?
    decreases end - pos, 0, 0
  {
    if pos + 7 > end || remaining == 0 then Some([])
    else if data[pos..pos + 3] != EntryMarker then None
    else
      var bodyEnd := pos + 7 + ReadU32(data[pos + 3..]);
      if bodyEnd > end then None
      else
        match ParseEntry(data[pos + 7..bodyEnd])
        case None => None
        case Some(e) =>
          match ParseLoop(data, bodyEnd, end, remaining - 1)
          case None => None
          case Some(rest) => Some([e] + rest)
  }

  /** parseEntry: a body is a u16 type, a u32 id and fields up to the end;
      fewer than three trailing bytes are ignored. */
  function ParseEntry(body: bytes): (r: Option<Entry>)
    ensures |body| < 6 ==> r.None?
    ensures r.Some? ==> LE16(r.value.typeId) == body[..2] && LE32(r.value.id) == body[2..6]
    decreases |body|, 2, 0
  {
    if |body| < 6 then None
    else
      match ParseFields(body, 6)
      case None => None
      case Some(fs) =>
        assert body[2..][..4] == body[2..6];
        Some(Entry(fs, ReadU32(body[2..]), ReadU16(body)))
  }

  /** The field loop of parseEntry, from offset `pos` of the body. */
  function ParseFields(body: bytes, pos: nat): (r: Option<seq<Field>>)
    requires pos <= |body|
    ensures pos + 3 <= |body| && body[pos + 1] != 0 ==> r.None?
    ensures pos + 3 <= |body| && !KnownCode(body[pos + 2]) ==> r.None?
    decreases |body|, 1, |body| - pos
  {
    if pos + 3 > |body| then Some([])
    else if body[pos + 1] != 0 then None
    else
      var tag := body[pos];
      var typ := body[pos + 2];
      var p := pos + 3;
      if typ == StringCode then
        if p + 2 > |body| then None
        else
          var n := ReadU16(body[p..]);
          if p + 2 + n > |body| then None
          else
            match ParseFields(body, p + 2 + n)
            case None => None
            case Some(rest) => Some([Field(tag, typ, body[p + 2..p + 2 + n], [])] + rest)
      else if typ == ByteCode || typ == ColorCode || typ == BytesCode then
        var n := FixedSize(typ);
        if p + n > |body| then None
        else
          match ParseFields(body, p + n)
          case None => None
          case Some(rest) => Some([Field(tag, typ, body[p..p + n], [])] + rest)
      else if typ == ListCode then
        if p + 8 > |body| then None
        else
          var listLen := ReadU32(body[p..]);
          var count := ReadU32(body[p + 4..]);
          if listLen < 4 then None
          else if p + 8 + (listLen - 4) > |body| then None
          else
            match ParseEntries(body, p + 8, listLen - 4, count)
            case None => None
            case Some(es) =>
              match ParseFields(body, p + 8 + (listLen - 4))
              case None => None
              case Some(rest) => Some([Field(tag, typ, [], es)] + rest)
      else None
  }

  /** A decoded field list with one more field in front. */
  function Prepend(f: Field, o: Option<seq<Field>>): Option<seq<Field>> {
    match o
    case None => None
    case Some(rest) => Some([f] + rest)
  }

  /** One step of the field loop over a string field ending at `end`. */
  lemma ParseFieldsStringStep(body: bytes, pos: nat, end: nat)
    requires pos + 5 <= end <= |body| && body[pos + 1] == 0 && body[pos + 2] == StringCode
    requires ReadU16(body[pos + 3..]) == end - pos - 5
    ensures ParseFields(body, pos) ==
      Prepend(Field(body[pos], StringCode, body[pos + 5..end], []), ParseFields(body, end))
  {
  }

  /** One step of the field loop over a byte, colour or 8-byte field. */
  lemma ParseFieldsFixedStep(body: bytes, pos: nat, end: nat)
    requires pos + 3 <= |body| && body[pos + 1] == 0
    requires body[pos + 2] == ByteCode || body[pos + 2] == ColorCode || body[pos + 2] == BytesCode
    requires end == pos + 3 + FixedSize(body[pos + 2]) <= |body|
    ensures ParseFields(body, pos) ==
      Prepend(Field(body[pos], body[pos + 2], body[pos + 3..end], []), ParseFields(body, end))
  {
  }

  /** One step of the field loop over a nested list ending at `end`, whose
      entries (read up to `loopEnd`, the same offset) decode to `es`. */
  lemma ParseFieldsListStep(body: bytes, pos: nat, end: nat, es: seq<Entry>, loopEnd: nat)
    requires pos + 11 <= end <= |body| && body[pos + 1] == 0 && body[pos + 2] == ListCode
    requires ReadU32(body[pos + 3..]) == end - pos - 7 && ReadU32(body[pos + 7..]) == |es|
    requires loopEnd == end && ParseLoop(body, pos + 11, loopEnd, |es|) == Some(es)
    ensures ParseFields(body, pos) == Prepend(Field(body[pos], ListCode, [], es), ParseFields(body, end))
  {
  }

  /** One step of the entry loop: the entry whose body is `b`, then the
      rest read from `next` (up to `end2`, the same offset, with `rem2`,
      one fewer, still to read). */
  lemma ParseLoopStep(data: bytes, pos: nat, next: nat, end: nat, remaining: nat, b: bytes, e: Entry,
                      end2: nat, rem2: nat, rest: seq<Entry>)
    requires pos + 7 <= next <= end <= |data| && remaining > 0
    requires data[pos..pos + 3] == EntryMarker && ReadU32(data[pos + 3..]) == next - pos - 7
    requires b == data[pos + 7..next] && ParseEntry(b) == Some(e)
    requires end2 == end && rem2 == remaining - 1 && ParseLoop(data, next, end2, rem2) == Some(rest)
    ensures ParseLoop(data, pos, end, remaining) == Some([e] + rest)
  {
  }

  /** The entry `e` sits at data[p .. q] inside a window ending at `end`:
      the marker, a u32 body length that ends the body at q, and a body
      that decodes to `e`. */
  predicate EntryAt(data: bytes, p: nat, q: nat, end: nat, e: Entry) {
    && p + 7 <= q <= end <= |data|
    && data[p..p + 3] == EntryMarker
    && q == p + 7 + ReadU32(data[p + 3..])
    && ParseEntry(data[p + 7..q]) == Some(e)
  }

  /** Entry k of `es` sits at data[ps[k] .. ps[k + 1]]. */
  predicate EntryFrames(data: bytes, ps: seq<nat>, es: seq<Entry>, end: nat) {
    |ps| == |es| + 1 && forall k :: 0 <= k < |es| ==> EntryAt(data, ps[k], ps[k + 1], end, es[k])
  }

  /** Where the entry loop stops: the count is used up or fewer than 7
      bytes of the window remain. */
  predicate LoopStops(pos: nat, end: nat, remaining: nat) {
    pos + 7 > end || remaining == 0
  }

  /** A list the loop accepts is a run of entries, each one starting with
      the marker and ending inside the window, the first at `pos`, and the
      run ends where the loop stops. */
  lemma {:induction false} ParseLoopFrames(data: bytes, pos: nat, end: nat, remaining: nat) returns (ps: seq<nat>)
    requires pos <= end <= |data| && ParseLoop(data, pos, end, remaining).Some?
    ensures var es := ParseLoop(data, pos, end, remaining).value;
      && EntryFrames(data, ps, es, end) && ps[0] == pos
      && LoopStops(ps[|es|], end, remaining - |es|)
    decreases end - pos
  {
    if pos + 7 > end || remaining == 0 {
      ps := [pos];
    } else {
      var bodyEnd := pos + 7 + ReadU32(data[pos + 3..]);
      var e := ParseEntry(data[pos + 7..bodyEnd]).value;
      var rest := ParseLoop(data, bodyEnd, end, remaining - 1).value;
      var es := [e] + rest;
      assert ParseLoop(data, pos, end, remaining).value == es;
      var tail := ParseLoopFrames(data, bodyEnd, end, remaining - 1);
      ps := [pos] + tail;
      assert EntryAt(data, pos, bodyEnd, end, e);
      forall k | 0 <= k < |es|
        ensures EntryAt(data, ps[k], ps[k + 1], end, es[k])
      {
        if k > 0 {
          assert ps[k] == tail[k - 1] && ps[k + 1] == tail[k] && es[k] == rest[k - 1];
        }
      }
    }
  }

  /** Conversely, such a run of entries is what the loop reads. */
  lemma {:induction false} FramesParse(data: bytes, ps: seq<nat>, es: seq<Entry>, end: nat, remaining: nat)
    requires EntryFrames(data, ps, es, end) && ps[0] <= end <= |data|
    requires |es| <= remaining && LoopStops(ps[|es|], end, remaining - |es|)
    ensures ParseLoop(data, ps[0], end, remaining) == Some(es)
    decreases |es|
  {
    if |es| > 0 {
      assert EntryAt(data, ps[0], ps[1], end, es[0]);
      assert EntryFrames(data, ps[1..], es[1..], end) by {
        forall k | 0 <= k < |es[1..]|
          ensures EntryAt(data, ps[1..][k], ps[1..][k + 1], end, es[1..][k])
        {
          assert EntryAt(data, ps[k + 1], ps[k + 2], end, es[k + 1]);
        }
      }
      FramesParse(data, ps[1..], es[1..], end, remaining - 1);
      ParseLoopStep(data, ps[0], ps[1], end, remaining, data[ps[0] + 7..ps[1]], es[0], end, remaining - 1, es[1..]);
      assert [es[0]] + es[1..] == es;
    }
  }

  /** parseEntries succeeds only when the window lies in the data and
      every entry it reads, up to `count` of them, starts with the marker
      and ends inside the window. */
  lemma ParseEntriesFrames(data: bytes, pos: nat, listLen: nat, count: nat) returns (ps: seq<nat>)
    requires ParseEntries(data, pos, listLen, count).Some?
    ensures var es := ParseEntries(data, pos, listLen, count).value;
      && pos + listLen <= |data|
      && EntryFrames(data, ps, es, pos + listLen) && ps[0] == pos
      && LoopStops(ps[|es|], pos + listLen, count - |es|)
  {
    ps := ParseLoopFrames(data, pos, pos + listLen, count);
  }

  /** looksLikeRoadPath: the lower-cased path with '/' turned into '\'
      contains ".p3d". */
  predicate LooksLikeRoadPath(p: string) {
    Text.Contains(Text.ReplaceChar(Text.Lower(p), '/', '\\'), ".p3d")
  }

  /** The slash conversion cannot matter: ".p3d" has no slash in it. */
  lemma LooksLikeRoadPathIff(p: string)
    ensures LooksLikeRoadPath(p) <==> Text.Contains(Text.Lower(p), ".p3d")
  {
    var l := Text.Lower(p);
    var r := Text.ReplaceChar(l, '/', '\\');
    Text.ContainsIff(r, ".p3d");
    Text.ContainsIff(l, ".p3d");
    forall k
      ensures Text.MatchAt(r, ".p3d", k) <==> Text.MatchAt(l, ".p3d", k)
    {
      SlashFreeMatch(l, r, k);
    }
  }

  lemma SlashFreeMatch(l: string, r: string, k: int)
    requires r == Text.ReplaceChar(l, '/', '\\')
    ensures Text.MatchAt(r, ".p3d", k) <==> Text.MatchAt(l, ".p3d", k)
  {
    if 0 <= k && k + 4 <= |l| {
      var a := r[k..k + 4];
      var b := l[k..k + 4];
      assert forall j :: 0 <= j < 4 ==> a[j] == r[k + j] && b[j] == l[k + j];
      assert forall j :: 0 <= j < 4 ==> (a[j] == ".p3d"[j] <==> b[j] == ".p3d"[j]);
      if a == ".p3d" {
        assert b == ".p3d";
      }
      if b == ".p3d" {
        assert a == ".p3d";
      }
    }
  }

  /** entryHasRoadPath: a 0x7C field of the entry, or of an entry one list
      level down, looks like a model path. */
  predicate EntryHasRoadPath(e: Entry) {
    exists i :: 0 <= i < |e.fields| && FieldHasRoadPath(e.fields[i])
  }

  predicate FieldHasRoadPath(f: Field) {
    (f.tag == 0x7C && LooksLikeRoadPath(BytesStr(f.raw)))
    || exists j, k :: 0 <= j < |f.list| && 0 <= k < |f.list[j].fields| && PathField(f.list[j].fields[k])
  }

  predicate PathField(f: Field) {
    f.tag == 0x7C && LooksLikeRoadPath(BytesStr(f.raw))
  }

  /** entryHasRoadLists: the entry has a straight, corner or terminator list. */
  predicate EntryHasRoadLists(e: Entry) {
    exists i :: 0 <= i < |e.fields| && IsPartsListTag(e.fields[i].tag)
  }

  predicate IsPartsListTag(tag: byte) {
    tag == 0x78 || tag == 0x79 || tag == 0x7B
  }

  /** The located road types list: header offset, the stored list length
      (which counts the 4-byte count), the header count and the entries. */
  datatype TypesList = TypesList(start: nat, listLen: u32, count: u32, entries: seq<Entry>)

  const RoadTypesHeader: bytes := [0x88, 0x00, 0x0C]

  /** What the scan of findRoadTypesList accepts at offset `i`. */
  function RoadTypesListAt(data: bytes, i: nat): (r: Option<TypesList>)
    ensures r.Some? ==> i + 11 < |data| && data[i..i + 3] == RoadTypesHeader
    ensures r.Some? ==> r.value.start == i && r.value.listLen >= 4 && r.value.count <= 0x7FFF_FFFF
    ensures r.Some? ==> ParseEntries(data, i + 11, r.value.listLen - 4, r.value.count) == Some(r.value.entries)
    ensures r.Some? ==>
      (exists k :: 0 <= k < |r.value.entries| && (EntryHasRoadPath(r.value.entries[k]) || EntryHasRoadLists(r.value.entries[k])))
  {
    if i + 11 >= |data| || data[i..i + 3] != RoadTypesHeader then None
    else
      var listLen := ReadU32(data[i + 3..]);
      var count := ReadU32(data[i + 7..]);
      if count > 0x7FFF_FFFF || listLen < 4 then None
      else
        match ParseEntries(data, i + 11, listLen - 4, count)
        case None => None
        case Some(es) =>
          if exists k :: 0 <= k < |es| && (EntryHasRoadPath(es[k]) || EntryHasRoadLists(es[k]))
          then Some(TypesList(i, listLen, count, es))
          else None
  }

  /** No offset in `from .. to` (exclusive) holds an accepted list. */
  ghost predicate NoListIn(data: bytes, from: nat, to: nat) {
    forall j :: from <= j < to ==> RoadTypesListAt(data, j).None?
  }

  /** No offset from `from` on holds an accepted list. */
  ghost predicate NoListFrom(data: bytes, from: nat) {
    forall j :: from <= j ==> RoadTypesListAt(data, j).None?
  }

  /** findRoadTypesList from offset `from`: the first accepted offset. */
  function FindRoadTypesFrom(data: bytes, from: nat): (r: Option<TypesList>)
    ensures r.Some? ==> from <= r.value.start && RoadTypesListAt(data, r.value.start) == r
    ensures r.Some? ==> NoListIn(data, from, r.value.start)
    ensures r.None? ==> NoListFrom(data, from)
    decreases |data| - from
  {
    if from + 11 >= |data| then
      NoListPastEnd(data, from);
      None
    else
      match RoadTypesListAt(data, from)
      case Some(l) => Some(l)
      case None =>
        var r := FindRoadTypesFrom(data, from + 1);
        NoListExtend(data, from, r);
        r
  }

  /** Too close to the end for a header and its counts. */
  lemma NoListPastEnd(data: bytes, from: nat)
    requires from + 11 >= |data|
    ensures NoListFrom(data, from)
  {
  }

  /** A rejected offset extends the scanned range by one. */
  lemma NoListExtend(data: bytes, from: nat, r: Option<TypesList>)
    requires RoadTypesListAt(data, from).None?
    requires r.Some? ==> from + 1 <= r.value.start && NoListIn(data, from + 1, r.value.start)
    requires r.None? ==> NoListFrom(data, from + 1)
    ensures r.Some? ==> NoListIn(data, from, r.value.start)
    ensures r.None? ==> NoListFrom(data, from)
  {
  }

  /** findRoadTypesList: the earliest road types list in the file. */
  function FindRoadTypesList(data: bytes): (r: Result<TypesList, Error>)
    ensures r.Success? ==> RoadTypesListAt(data, r.value.start) == Some(r.value)
    ensures r.Success? ==> forall j :: 0 <= j < r.value.start ==> RoadTypesListAt(data, j).None?
    ensures r.Failure? ==> r.error == RoadTypesListNotFound
    ensures r.Failure? <==> forall j :: 0 <= j ==> RoadTypesListAt(data, j).None?
  {
    match FindRoadTypesFrom(data, 0)
    case None => Failure(RoadTypesListNotFound)
    case Some(l) => Success(l)
  }

  /** The last field with tag `tag`, if any: a later field with the same
      tag overrides an earlier one wherever the reader looks fields up. */
  function LastField(fields: seq<Field>, tag: byte): (r: Option<Field>)
    ensures r.None? <==> forall i :: 0 <= i < |fields| ==> fields[i].tag != tag
    ensures r.Some? ==>
      (exists i :: 0 <= i < |fields| && fields[i] == r.value && fields[i].tag == tag
        && forall j :: i < j < |fields| ==> fields[j].tag != tag)
  {
    if |fields| == 0 then None
    else if fields[|fields| - 1].tag == tag then Some(fields[|fields| - 1])
    else LastField(fields[..|fields| - 1], tag)
  }

  /** A field with the tag and no later one with it is the last field. */
  lemma LastFieldAt(fields: seq<Field>, tag: byte, i: nat)
    requires i < |fields| && fields[i].tag == tag
    requires forall j :: i < j < |fields| ==> fields[j].tag != tag
    ensures LastField(fields, tag) == Some(fields[i])
  {
    var k :| 0 <= k < |fields| && fields[k] == LastField(fields, tag).value && fields[k].tag == tag
      && forall j :: k < j < |fields| ==> fields[j].tag != tag;
    assert !(k < i) && !(i < k);
  }

  /** The value `string(f.Raw)` of the last field with tag `tag`, if any. */
  function LastString(fields: seq<Field>, tag: byte): (r: Option<string>)
    ensures r.None? <==> forall i :: 0 <= i < |fields| ==> fields[i].tag != tag
  {
    match LastField(fields, tag)
    case Some(f) => Some(BytesStr(f.raw))
    case None => None
  }

  /** The road part a parts-list entry describes (extractParts' inner loop). */
  function PartOf(e: Entry): RoadPart {
    var name := match LastString(e.fields, 0x33) case Some(s) => s case None => "";
    var path := match LastString(e.fields, 0x7C) case Some(s) => s case None => "";
    RoadPart(name, path, e.id, e.typeId)
  }

  predicate Named(p: RoadPart) {
    p.name != "" || p.path != ""
  }

  /** extractParts: the parts of a list, skipping entries with neither a
      name nor a path. */
  function ExtractParts(list: seq<Entry>): (parts: seq<RoadPart>)
    ensures |parts| <= |list|
  {
    if |list| == 0 then []
    else
      var p := PartOf(list[0]);
      var rest := ExtractParts(list[1..]);
      if Named(p) then [p] + rest else rest
  }

  /** Every extracted part is named and is the part of some entry. */
  lemma {:induction false} ExtractPartsSound(list: seq<Entry>)
    ensures forall k :: 0 <= k < |ExtractParts(list)| ==>
      Named(ExtractParts(list)[k]) && ExtractParts(list)[k] in PartsOf(list)
  {
    if |list| > 0 {
      ExtractPartsSound(list[1..]);
      PartsOfCons(list);
    }
  }

  /** Extraction is a filter that keeps order: extracting from two lists
      one after the other is extracting from their concatenation. */
  lemma {:induction false} ExtractPartsAppend(a: seq<Entry>, b: seq<Entry>)
    ensures ExtractParts(a + b) == ExtractParts(a) + ExtractParts(b)
    decreases |a|
  {
    if |a| > 0 {
      assert (a + b)[1..] == a[1..] + b;
      assert (a + b)[0] == a[0];
      ExtractPartsAppend(a[1..], b);
    } else {
      assert a + b == b;
    }
  }

  /** An entry appended to a list adds its part to the end exactly when
      the part has a name or a path. */
  lemma ExtractPartsSnoc(list: seq<Entry>, e: Entry)
    ensures ExtractParts(list + [e])
      == ExtractParts(list) + (if Named(PartOf(e)) then [PartOf(e)] else [])
  {
    ExtractPartsAppend(list, [e]);
    assert [e][1..] == [];
  }

  /** Every entry's part, named or not. */
  function PartsOf(list: seq<Entry>): (r: seq<RoadPart>)
    ensures |r| == |list| && forall i :: 0 <= i < |list| ==> r[i] == PartOf(list[i])
  {
    seq(|list|, i requires 0 <= i < |list| => PartOf(list[i]))
  }

  /** Every entry of the list has a name or a path. */
  predicate AllNamed(list: seq<Entry>) {
    forall i :: 0 <= i < |list| ==> Named(PartOf(list[i]))
  }

  /** When every entry has a name or a path, nothing is dropped. */
  lemma {:induction false} ExtractPartsKeepsNamed(list: seq<Entry>)
    requires AllNamed(list)
    ensures ExtractParts(list) == PartsOf(list)
  {
    if |list| > 0 {
      AllNamedTail(list);
      ExtractPartsKeepsNamed(list[1..]);
      PartsOfCons(list);
    }
  }

  lemma AllNamedTail(list: seq<Entry>)
    requires |list| > 0 && AllNamed(list)
    ensures Named(PartOf(list[0])) && AllNamed(list[1..])
  {
    assert forall i :: 0 <= i < |list[1..]| ==> list[1..][i] == list[i + 1];
  }

  lemma PartsOfCons(list: seq<Entry>)
    requires |list| > 0
    ensures PartsOf(list) == [PartOf(list[0])] + PartsOf(list[1..])
  {
    var a, b := PartsOf(list), [PartOf(list[0])] + PartsOf(list[1..]);
    assert |a| == |b|;
    forall i | 0 <= i < |a|
      ensures a[i] == b[i]
    {
      if i > 0 {
        assert b[i] == PartsOf(list[1..])[i - 1];
        assert list[1..][i - 1] == list[i];
      }
    }
  }

  /** A road type with every UI field at its zero value. */
  function BlankRoadType(id: u32, typ: u16): RoadType {
    RoadType("", [], [], [], id, typ, Color(0, 0, 0, 0), Color(0, 0, 0, 0), false, false)
  }

  /** The colour in the first four bytes of a colour payload. */
  function RawColor(raw: bytes): Color
    requires |raw| >= 4
  {
    Color(raw[0], raw[1], raw[2], raw[3])
  }

  /** One iteration of ParseRoadTypes' field switch. */
  function ApplyField(rt: RoadType, f: Field): RoadType {
    if f.tag == 0x33 then rt.(name := BytesStr(f.raw))
    else if f.tag == 0x71 then rt.(keyCustom := |f.raw| > 0 && f.raw[0] != 0)
    else if f.tag == 0x72 then rt.(normalCustom := |f.raw| > 0 && f.raw[0] != 0)
    else if f.tag == 0x73 then
      if |f.raw| >= 4 then rt.(normalColor := RawColor(f.raw)) else rt
    else if f.tag == 0x74 then
      if |f.raw| >= 4 then rt.(keyColor := RawColor(f.raw)) else rt
    else if f.tag == 0x78 then rt.(straightParts := ExtractParts(f.list))
    else if f.tag == 0x79 then rt.(cornerParts := ExtractParts(f.list))
    else if f.tag == 0x7B then rt.(terminatorParts := ExtractParts(f.list))
    else rt
  }

  /** The field switch run over all fields in order. */
  function ApplyFields(rt: RoadType, fields: seq<Field>): (r: RoadType)
    ensures r.id == rt.id && r.typ == rt.typ
  {
    if |fields| == 0 then rt
    else ApplyField(ApplyFields(rt, fields[..|fields| - 1]), fields[|fields| - 1])
  }

  /** The road type one entry of the list decodes to. */
  function RoadTypeOf(e: Entry): RoadType {
    ApplyFields(BlankRoadType(e.id, e.typeId), e.fields)
  }

  /** The last field with a tag decides that attribute: the name is the last
      0x33 string and each parts list comes from the last list with its tag. */
  lemma {:induction false} ApplyFieldsLastWins(rt: RoadType, fields: seq<Field>)
    ensures ApplyFields(rt, fields).name == (match LastString(fields, 0x33) case Some(s) => s case None => rt.name)
    ensures ApplyFields(rt, fields).straightParts ==
      (match LastList(fields, 0x78) case Some(l) => ExtractParts(l) case None => rt.straightParts)
    ensures ApplyFields(rt, fields).cornerParts ==
      (match LastList(fields, 0x79) case Some(l) => ExtractParts(l) case None => rt.cornerParts)
    ensures ApplyFields(rt, fields).terminatorParts ==
      (match LastList(fields, 0x7B) case Some(l) => ExtractParts(l) case None => rt.terminatorParts)
  {
    if |fields| > 0 {
      var init := fields[..|fields| - 1];
      ApplyFieldsLastWins(rt, init);
      ApplyFieldEffect(ApplyFields(rt, init), fields[|fields| - 1]);
      ApplyFieldEffectLists(ApplyFields(rt, init), fields[|fields| - 1]);
    }
  }

  /** What one field does to each attribute the lemma above tracks. */
  lemma ApplyFieldEffect(rt: RoadType, f: Field)
    ensures ApplyField(rt, f).name == if f.tag == 0x33 then BytesStr(f.raw) else rt.name
    ensures ApplyField(rt, f).straightParts == if f.tag == 0x78 then ExtractParts(f.list) else rt.straightParts
  {
    if f.tag == 0x33 {
    } else if f.tag == 0x71 {
    } else if f.tag == 0x72 {
    } else if f.tag == 0x73 {
    } else if f.tag == 0x74 {
    } else if f.tag == 0x78 {
    } else if f.tag == 0x79 {
    } else if f.tag == 0x7B {
    }
  }

  lemma ApplyFieldEffectLists(rt: RoadType, f: Field)
    ensures ApplyField(rt, f).cornerParts == if f.tag == 0x79 then ExtractParts(f.list) else rt.cornerParts
    ensures ApplyField(rt, f).terminatorParts == if f.tag == 0x7B then ExtractParts(f.list) else rt.terminatorParts
  {
    if f.tag == 0x33 {
    } else if f.tag == 0x71 {
    } else if f.tag == 0x72 {
    } else if f.tag == 0x73 {
    } else if f.tag == 0x74 {
    } else if f.tag == 0x78 {
    } else if f.tag == 0x79 {
    } else if f.tag == 0x7B {
    }
  }

  /** The custom flags come from the last 0x71 / 0x72 field. */
  lemma {:induction false} ApplyFieldsFlags(rt: RoadType, fields: seq<Field>)
    ensures ApplyFields(rt, fields).keyCustom ==
      (match LastField(fields, 0x71) case Some(f) => |f.raw| > 0 && f.raw[0] != 0 case None => rt.keyCustom)
    ensures ApplyFields(rt, fields).normalCustom ==
      (match LastField(fields, 0x72) case Some(f) => |f.raw| > 0 && f.raw[0] != 0 case None => rt.normalCustom)
  {
    if |fields| > 0 {
      var init := fields[..|fields| - 1];
      ApplyFieldsFlags(rt, init);
      ApplyFieldFlagEffect(ApplyFields(rt, init), fields[|fields| - 1]);
    }
  }

  lemma ApplyFieldFlagEffect(rt: RoadType, f: Field)
    ensures ApplyField(rt, f).keyCustom == if f.tag == 0x71 then |f.raw| > 0 && f.raw[0] != 0 else rt.keyCustom
    ensures ApplyField(rt, f).normalCustom == if f.tag == 0x72 then |f.raw| > 0 && f.raw[0] != 0 else rt.normalCustom
  {
    if f.tag == 0x33 {
    } else if f.tag == 0x71 {
    } else if f.tag == 0x72 {
    } else if f.tag == 0x73 {
    } else if f.tag == 0x74 {
    } else if f.tag == 0x78 {
    } else if f.tag == 0x79 {
    } else if f.tag == 0x7B {
    }
  }

  /** The colours come from the last 0x73 / 0x74 field when that field
      holds at least four bytes. */
  lemma {:induction false} ApplyFieldsColors(rt: RoadType, fields: seq<Field>)
    ensures LastField(fields, 0x73).Some? && |LastField(fields, 0x73).value.raw| >= 4 ==>
      ApplyFields(rt, fields).normalColor == RawColor(LastField(fields, 0x73).value.raw)
    ensures LastField(fields, 0x74).Some? && |LastField(fields, 0x74).value.raw| >= 4 ==>
      ApplyFields(rt, fields).keyColor == RawColor(LastField(fields, 0x74).value.raw)
  {
    if |fields| > 0 {
      var init := fields[..|fields| - 1];
      ApplyFieldsColors(rt, init);
      ApplyFieldColorEffect(ApplyFields(rt, init), fields[|fields| - 1]);
    }
  }

  lemma ApplyFieldColorEffect(rt: RoadType, f: Field)
    ensures ApplyField(rt, f).normalColor == if f.tag == 0x73 && |f.raw| >= 4 then RawColor(f.raw) else rt.normalColor
    ensures ApplyField(rt, f).keyColor == if f.tag == 0x74 && |f.raw| >= 4 then RawColor(f.raw) else rt.keyColor
  {
    if f.tag == 0x33 {
    } else if f.tag == 0x71 {
    } else if f.tag == 0x72 {
    } else if f.tag == 0x73 {
    } else if f.tag == 0x74 {
    } else if f.tag == 0x78 {
    } else if f.tag == 0x79 {
    } else if f.tag == 0x7B {
    }
  }

  /** The nested entries of the last field with tag `tag`, if any. */
  function LastList(fields: seq<Field>, tag: byte): (r: Option<seq<Entry>>)
    ensures r.None? <==> forall i :: 0 <= i < |fields| ==> fields[i].tag != tag
  {
    match LastField(fields, tag)
    case Some(f) => Some(f.list)
    case None => None
  }

  /** The result of ParseRoadTypes: the list and its decoded road types. */
  datatype RoadTypesBlock = RoadTypesBlock(list: TypesList, types: seq<RoadType>)

  /** ParseRoadTypes: locate the list, insist that its header count matches
      the decoded entries, and decode one road type per entry. */
  function ParseRoadTypes(data: bytes): (r: Result<RoadTypesBlock, Error>)
    ensures FindRoadTypesList(data).Failure? ==> r == Failure(RoadTypesListNotFound)
    ensures r.Success? ==> FindRoadTypesList(data) == Success(r.value.list)
    ensures r.Success? ==> |r.value.types| == |r.value.list.entries| == r.value.list.count
    ensures r.Success? ==> forall i :: 0 <= i < |r.value.types| ==>
      r.value.types[i] == RoadTypeOf(r.value.list.entries[i])
    ensures FindRoadTypesList(data).Success? && |FindRoadTypesList(data).value.entries| != FindRoadTypesList(data).value.count
      ==> r == Failure(EntryCountMismatch(FindRoadTypesList(data).value.count, |FindRoadTypesList(data).value.entries|))
  {
    var l :- FindRoadTypesList(data);
    if |l.entries| != l.count then Failure(EntryCountMismatch(l.count, |l.entries|))
    else Success(RoadTypesBlock(l, seq(|l.entries|, i requires 0 <= i < |l.entries| => RoadTypeOf(l.entries[i]))))
  }
}
