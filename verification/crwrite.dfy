/** The write side of the crossroad lists (internal/tv4p/write.go:965-1206):
    crossroad definition ids on a 0x178 stride, the definition entries
    (written back verbatim when they came from a file, synthesised from the
    configuration otherwise) and the 0x89 / 0x8A list fields. */
module CrossroadWrite {
  import opened Wrappers
  import opened Errors
  import opened Bytes
  import opened Model
  import opened Wire
  import opened Ids
  import opened Encode
  import opened RawCodec
  import opened Crossroads
  import Text

  // ---------------------------------------------------------------------
  // Definition ids.

  /** How many start values the batch allocation tries. */
  const DefAttempts: nat := 4096

  /** A crossroad without a raw definition entry, whose id is allocated. */
  predicate Generated(cr: CrossroadType) {
    cr.def.None?
  }

  /** The id slot `i` gets in a batch starting at `cur`: Terrain Builder
      spaces crossroad definition ids 0x178 apart. */
  function SlotId(cur: nat, i: nat): nat {
    cur + i * 0x178
  }

  /** A batch starting at `cur` works: every generated crossroad's slot id
      fits a u32, is non-zero and is not used yet. */
  predicate AttemptOk(crs: seq<CrossroadType>, used: set<u32>, cur: nat) {
    forall i :: 0 <= i < |crs| && Generated(crs[i]) ==>
      0 < SlotId(cur, i) < U32Limit && SlotId(cur, i) !in used
  }

  /** The ids of a working batch; 0 for crossroads with a raw definition. */
  function BatchIds(crs: seq<CrossroadType>, used: set<u32>, cur: nat): (ids: seq<u32>)
    requires AttemptOk(crs, used, cur)
    ensures |ids| == |crs|
  {
    seq(|crs|, i requires 0 <= i < |crs| => if Generated(crs[i]) then SlotId(cur, i) as u32 else 0)
  }

  /** The start value of attempt `k`: base + k in uint32 arithmetic. */
  function Start(base: u32, k: nat): u32 {
    Wrap(base + k)
  }

  /** Attempt `k` of the loop works. */
  predicate AttemptAt(crs: seq<CrossroadType>, used: set<u32>, base: u32, k: nat) {
    AttemptOk(crs, used, Start(base, k))
  }

  /** The attempt loop over attempts `attempt` .. 4095: the start value
      of the first that works. */
  function TryAttempts(crs: seq<CrossroadType>, used: set<u32>, base: u32, attempt: nat): (r: Option<u32>)
    ensures r.Some? ==> AttemptOk(crs, used, r.value)
    decreases DefAttempts - attempt
  {
    if attempt >= DefAttempts then None
    else if AttemptAt(crs, used, base, attempt) then Some(Start(base, attempt))
    else TryAttempts(crs, used, base, attempt + 1)
  }

  /** The loop settles on the first attempt that works, and gives up only
      when none of the remaining ones does. */
  lemma {:induction false} TryAttemptsFirst(crs: seq<CrossroadType>, used: set<u32>, base: u32, attempt: nat)
    requires TryAttempts(crs, used, base, attempt).Some?
    ensures exists k ::
              && attempt <= k < DefAttempts && TryAttempts(crs, used, base, attempt).value == Start(base, k)
              && forall m :: attempt <= m < k ==> !AttemptAt(crs, used, base, m)
    decreases DefAttempts - attempt
  {
    var r := TryAttempts(crs, used, base, attempt);
    if AttemptAt(crs, used, base, attempt) {
      assert r.value == Start(base, attempt);
    } else {
      TryAttemptsFirst(crs, used, base, attempt + 1);
      var k :| attempt + 1 <= k < DefAttempts && TryAttempts(crs, used, base, attempt + 1).value == Start(base, k)
        && forall m :: attempt + 1 <= m < k ==> !AttemptAt(crs, used, base, m);
      assert r == TryAttempts(crs, used, base, attempt + 1);
      assert r.value == Start(base, k);
    }
  }

  /** The loop gives up only when none of the remaining attempts works. */
  lemma {:induction false} TryAttemptsNone(crs: seq<CrossroadType>, used: set<u32>, base: u32, attempt: nat)
    ensures TryAttempts(crs, used, base, attempt).None? <==>
      forall k :: attempt <= k < DefAttempts ==> !AttemptAt(crs, used, base, k)
    decreases DefAttempts - attempt
  {
    if attempt < DefAttempts && !AttemptAt(crs, used, base, attempt) {
      TryAttemptsNone(crs, used, base, attempt + 1);
    }
  }

  /** The registration loop after a working batch: each non-zero id is
      marked used and moves `next` past it (uint32 addition). */
  function Register(a: Allocator, ids: seq<u32>): (r: Allocator)
    ensures r.used == a.used + (set i | 0 <= i < |ids| && ids[i] != 0 :: ids[i])
    decreases |ids|
  {
    if |ids| == 0 then a
    else
      var id := ids[0];
      var b := if id == 0 then a
        else Allocator(a.used + {id}, if id >= a.next then Wrap(id + 1) else a.next);
      var r := Register(b, ids[1..]);
      assert forall i :: 1 <= i < |ids| ==> ids[i] == ids[1..][i - 1];
      r
  }

  /** Away from the top of the id space, registration leaves `next` past
      every registered id and never moves it back. */
  lemma {:induction false} RegisterNext(a: Allocator, ids: seq<u32>)
    requires forall i :: 0 <= i < |ids| ==> ids[i] < 0xFFFF_FFFF
    ensures a.next <= Register(a, ids).next
    ensures forall i :: 0 <= i < |ids| && ids[i] != 0 ==> ids[i] < Register(a, ids).next
    ensures Register(a, ids).next == a.next
      || exists i :: 0 <= i < |ids| && ids[i] != 0 && Register(a, ids).next == ids[i] + 1
    decreases |ids|
  {
    if |ids| > 0 {
      var id := ids[0];
      var b := if id == 0 then a
        else Allocator(a.used + {id}, if id >= a.next then Wrap(id + 1) else a.next);
      assert forall i :: 0 <= i < |ids[1..]| ==> ids[1..][i] == ids[i + 1];
      RegisterNext(b, ids[1..]);
      assert forall i :: 1 <= i < |ids| ==> ids[i] == ids[1..][i - 1];
    }
  }

  /** What every outcome of the definition-id allocation promises: one
      slot per crossroad, non-zero exactly for the generated ones, each of
      those fresh with respect to the allocator it started from and
      registered in the one it returns, and no id handed out twice. */
  predicate SlotsOk(crs: seq<CrossroadType>, a: Allocator, r: (seq<u32>, Allocator)) {
    && |r.0| == |crs| && a.used <= r.1.used
    && (forall i :: 0 <= i < |crs| ==>
         (Generated(crs[i]) <==> r.0[i] != 0)
         && (Generated(crs[i]) ==> r.0[i] !in a.used && r.0[i] in r.1.used))
    && (forall i, j :: 0 <= i < j < |crs| && r.0[i] != 0 ==> r.0[i] != r.0[j])
  }

  /** No crossroad needs an allocated definition id. */
  predicate NoneGenerated(crs: seq<CrossroadType>) {
    forall i :: 0 <= i < |crs| ==> !Generated(crs[i])
  }

  /** A working batch: its ids registered and `next` re-aligned. */
  function Batch(crs: seq<CrossroadType>, a: Allocator, cur: nat): (r: (seq<u32>, Allocator))
    requires AttemptOk(crs, a.used, cur)
    ensures SlotsOk(crs, a, r) && r.1.next % 4 == 0
    ensures forall i :: 0 <= i < |crs| && Generated(crs[i]) ==> r.0[i] == SlotId(cur, i)
  {
    var ids := BatchIds(crs, a.used, cur);
    var b := Register(a, ids);
    BatchDistinct(crs, a.used, cur);
    assert forall i :: 0 <= i < |crs| && Generated(crs[i]) ==> ids[i] in b.used by {
      forall i | 0 <= i < |crs| && Generated(crs[i]) ensures ids[i] in b.used {
        assert ids[i] != 0;
      }
    }
    (ids, b.(next := Align4(b.next)))
  }

  /** Away from the top of the id space, a batch leaves `next` past every
      id it handed out and never moves it back. */
  lemma BatchNext(crs: seq<CrossroadType>, a: Allocator, cur: nat)
    requires AttemptOk(crs, a.used, cur)
    requires forall i :: 0 <= i < |crs| && Generated(crs[i]) ==> SlotId(cur, i) < 0xFFFF_FFFC
    requires a.next <= 0xFFFF_FFFC
    ensures var r := Batch(crs, a, cur);
      a.next <= r.1.next && forall i :: 0 <= i < |crs| && Generated(crs[i]) ==> r.0[i] < r.1.next
  {
    var ids := BatchIds(crs, a.used, cur);
    var b := Register(a, ids);
    RegisterNext(a, ids);
  }

  /** The fallback when no batch works: one allocNext per generated
      crossroad, in list order. */
  function FallbackIds(crs: seq<CrossroadType>, a: Allocator): (r: Result<(seq<u32>, Allocator), Error>)
    ensures r.Success? ==> SlotsOk(crs, a, r.value)
    ensures r.Failure? ==> r.error == IdSpaceExhausted
    decreases |crs|
  {
    if |crs| == 0 then Success(([], a))
    else if !Generated(crs[0]) then
      var rest :- FallbackIds(crs[1..], a);
      assert forall i :: 1 <= i < |crs| ==> crs[i] == crs[1..][i - 1];
      Success(([0] + rest.0, rest.1))
    else
      var got :- AllocNext(a);
      var rest :- FallbackIds(crs[1..], got.1);
      assert forall i :: 1 <= i < |crs| ==> crs[i] == crs[1..][i - 1];
      Success(([got.0] + rest.0, rest.1))
  }

  /** allocateCrossroadDefIDs: one slot per crossroad, 0 where a raw
      definition keeps its own id, searching from the 4-aligned `next`. */
  function AllocateCrossroadDefIDs(crs: seq<CrossroadType>, a: Allocator): (r: Result<(seq<u32>, Allocator), Error>)
    ensures r.Success? ==> SlotsOk(crs, a, r.value)
    ensures r.Failure? ==> r.error == IdSpaceExhausted
  {
    AllocateFrom(crs, a, Align4(a.next))
  }

  /** The allocation from a start value `base`: nothing to do when every
      crossroad keeps a raw definition; otherwise the generated crossroads
      get ids on the 0x178 stride from the first of base, base + 1, ...
      (4096 tries, uint32 addition) that collides with nothing, or one
      allocNext each if none does. */
  function AllocateFrom(crs: seq<CrossroadType>, a: Allocator, base: u32): (r: Result<(seq<u32>, Allocator), Error>)
    ensures r.Success? ==> SlotsOk(crs, a, r.value)
    ensures r.Failure? ==> r.error == IdSpaceExhausted
    ensures NoneGenerated(crs) ==> r == Success((seq(|crs|, i => 0), a))
    ensures !NoneGenerated(crs) && TryAttempts(crs, a.used, base, 0).Some? ==>
      var cur := TryAttempts(crs, a.used, base, 0).value;
      r.Success? && r.value.1.next % 4 == 0
      && forall i :: 0 <= i < |crs| && Generated(crs[i]) ==> r.value.0[i] == SlotId(cur, i)
    ensures !NoneGenerated(crs) && TryAttempts(crs, a.used, base, 0).None? ==> r == FallbackIds(crs, a)
  {
    if NoneGenerated(crs) then Success((seq(|crs|, i => 0), a))
    else
      match TryAttempts(crs, a.used, base, 0)
      case Some(cur) => Success(Batch(crs, a, cur))
      case None => FallbackIds(crs, a)
  }

  /** Slot ids of one batch are pairwise distinct. */
  lemma BatchDistinct(crs: seq<CrossroadType>, used: set<u32>, cur: nat)
    requires AttemptOk(crs, used, cur)
    ensures var ids := BatchIds(crs, used, cur);
      forall i, j :: 0 <= i < j < |crs| && ids[i] != 0 ==> ids[i] != ids[j]
  {
    var ids := BatchIds(crs, used, cur);
    forall i, j | 0 <= i < j < |crs| && ids[i] != 0
      ensures ids[i] != ids[j]
    {
      if ids[j] != 0 {
        assert SlotId(cur, i) < SlotId(cur, j);
      }
    }
  }

  // ---------------------------------------------------------------------
  // Definition entries.

  /** nameToIdx: the last index whose name is exactly `name`. */
  function NameIndex(types: seq<RoadType>, name: string): (r: Option<nat>)
    ensures r.Some? ==> r.value < |types| && types[r.value].name == name
    ensures r.Some? ==> forall j :: r.value < j < |types| ==> types[j].name != name
    ensures r.None? <==> forall j :: 0 <= j < |types| ==> types[j].name != name
    decreases |types|
  {
    if |types| == 0 then None
    else if types[|types| - 1].name == name then Some(|types| - 1)
    else NameIndex(types[..|types| - 1], name)
  }

  /** A connection that names no road type. */
  predicate UnknownSide(types: seq<RoadType>, v: string) {
    v != "" && NameIndex(types, v).None?
  }

  /** The side letters, in the order the errors are checked. */
  const SideNames: string := "ABCD"

  /** The index written for one known side: the "empty side" marker
      0xFFFFFFFF for an empty connection, otherwise the road type's index.
      idxToRoadType maps it back to the connection. */
  function SideValue(types: seq<RoadType>, v: string): (r: u32)
    requires |types| < 0xFFFF_FFFF && !UnknownSide(types, v)
    ensures IdxToRoadType(types, r) == v
    ensures v == "" <==> r == 0xFFFF_FFFF
  {
    if v == "" then 0xFFFF_FFFF else NameIndex(types, v).value
  }

  /** The four index fields of a synthesised definition, or the error for
      the first side (A, B, C, D in that order) that names no road type. */
  function SideIndices(cr: CrossroadType, types: seq<RoadType>): (r: Result<seq<u32>, Error>)
    requires |types| < 0xFFFF_FFFF
    ensures r.Success? ==>
              && |r.value| == 4
              && forall k :: 0 <= k < 4 ==> IdxToRoadType(types, r.value[k]) == Sides(cr.connections)[k]
    ensures r.Failure? <==> exists k :: 0 <= k < 4 && UnknownSide(types, Sides(cr.connections)[k])
  {
    var s := Sides(cr.connections);
    if UnknownSide(types, s[0]) then Failure(UnknownRoadTypeForSide(cr.name, 'A', s[0]))
    else if UnknownSide(types, s[1]) then Failure(UnknownRoadTypeForSide(cr.name, 'B', s[1]))
    else if UnknownSide(types, s[2]) then Failure(UnknownRoadTypeForSide(cr.name, 'C', s[2]))
    else if UnknownSide(types, s[3]) then Failure(UnknownRoadTypeForSide(cr.name, 'D', s[3]))
    else Success(seq(4, k requires 0 <= k < 4 => SideValue(types, s[k])))
  }

  /** The error names the first side, in A, B, C, D order, whose
      connection is unknown. */
  lemma SideIndicesError(cr: CrossroadType, types: seq<RoadType>)
    requires |types| < 0xFFFF_FFFF
    requires SideIndices(cr, types).Failure?
    ensures exists k ::
              && 0 <= k < 4 && UnknownSide(types, Sides(cr.connections)[k])
              && (forall m :: 0 <= m < k ==> !UnknownSide(types, Sides(cr.connections)[m]))
              && SideIndices(cr, types).error == UnknownRoadTypeForSide(cr.name, SideNames[k], Sides(cr.connections)[k])
  {
    var s := Sides(cr.connections);
    var k := if UnknownSide(types, s[0]) then 0 else if UnknownSide(types, s[1]) then 1
      else if UnknownSide(types, s[2]) then 2 else 3;
    assert SideIndices(cr, types).error == UnknownRoadTypeForSide(cr.name, SideNames[k], s[k]);
  }

  /** The shape code of a synthesised definition: 3 for an X junction,
      2 otherwise. */
  function DefShape(name: string): u32 {
    if Text.HasPrefix(name, XPrefix) then 3 else 2
  }

  /** The 0x73 payload: the colour when it is custom, else the standard
      sentinel 00 00 FF 00. */
  function DefColor(cr: CrossroadType): bytes {
    if cr.colorCustom then [cr.color.r, cr.color.g, cr.color.b, cr.color.a] else [0, 0, 0xFF, 0]
  }

  /** The fourteen fields of a synthesised definition, in write order; the
      last four carry the side indices. */
  function DefFields(cr: CrossroadType, ix: seq<u32>): (fs: seq<Field>)
    requires |ix| == 4
    ensures |fs| == 14
  {
    [ Field(0x33, StringCode, StrBytes(cr.name), []),
      Field(0x7C, StringCode, StrBytes(cr.model), []),
      Field(0x7F, 0x05, LE32(DefShape(cr.name)), []),
      Field(0x71, ByteCode, [BoolByte(cr.colorCustom)], []),
      Field(0x73, ColorCode, DefColor(cr), []),
      Field(0x75, ByteCode, [0], []),
      Field(0x80, BytesCode, Zeros(8), []),
      Field(0x81, BytesCode, Zeros(8), []),
      Field(0x82, BytesCode, Zeros(8), []),
      Field(0x83, ByteCode, [0], []),
      Field(0x84, 0x05, LE32(ix[0]), []),
      Field(0x85, 0x05, LE32(ix[1]), []),
      Field(0x86, 0x05, LE32(ix[2]), []),
      Field(0x87, 0x05, LE32(ix[3]), []) ]
  }

  /** The entry buildCrossroadDefEntry synthesises. */
  function DefEntry(cr: CrossroadType, entryId: u32, ix: seq<u32>): Entry
    requires |ix| == 4
  {
    Entry(DefFields(cr, ix), entryId, CrossroadDefEntry)
  }

  /** buildCrossroadDefEntry: a raw 0x17 entry is written back verbatim;
      otherwise the four sides are looked up and the synthesised entry is
      written with the forced id (0 allocates one). */
  function BuildCrossroadDefEntry(cr: CrossroadType, a: Allocator, types: seq<RoadType>, forcedId: u32)
    : (r: Result<(bytes, Allocator), Error>)
    requires |types| < 0xFFFF_FFFF
    ensures r.Success? ==> a.used <= r.value.1.used
    ensures !(cr.def.Some? && cr.def.value.typ == CrossroadDefEntry) && SideIndices(cr, types).Failure? ==>
      r == Failure(SideIndices(cr, types).error)
  {
    if cr.def.Some? && cr.def.value.typ == CrossroadDefEntry then RawEntryToBytes(cr.def.value, a)
    else
      var ix :- SideIndices(cr, types);
      RawEntryToBytes(EntryToRaw(DefEntry(cr, forcedId, ix)), a)
  }

  /** A definition read from a file is written back byte for byte, without
      touching the allocator, whatever id was forced. */
  lemma DefWriteBack(cr: CrossroadType, e: Entry, a: Allocator, types: seq<RoadType>, forcedId: u32)
    requires |types| < 0xFFFF_FFFF
    requires e.typeId == CrossroadDefEntry && WritableEntry(e) && EncodableEntry(e)
    requires cr.def == Some(EntryToRaw(e))
    ensures BuildCrossroadDefEntry(cr, a, types, forcedId) == Success((EncodeEntry(e), a))
  {
    RawRoundTrip(e, a);
  }

  /** With every side naming a known road type (or none), a synthesised
      definition with a forced id is written as the reference encoding of
      DefEntry, without touching the allocator. */
  lemma SynthDefEncodes(cr: CrossroadType, a: Allocator, types: seq<RoadType>, forcedId: u32)
    requires |types| < 0xFFFF_FFFF
    requires !(cr.def.Some? && cr.def.value.typ == CrossroadDefEntry)
    requires forall k :: 0 <= k < 4 ==> !UnknownSide(types, Sides(cr.connections)[k])
    requires forcedId != 0 && |cr.name| <= 0xFFFF && |cr.model| <= 0xFFFF
    ensures SideIndices(cr, types).Success?
    ensures BuildCrossroadDefEntry(cr, a, types, forcedId)
      == Success((EncodeEntry(DefEntry(cr, forcedId, SideIndices(cr, types).value)), a))
  {
    var ix := SideIndices(cr, types).value;
    var e := DefEntry(cr, forcedId, ix);
    DefEntryWritable(cr, forcedId, ix);
    RawRoundTrip(e, a);
    assert BuildCrossroadDefEntry(cr, a, types, forcedId) == RawEntryToBytes(EntryToRaw(e), a);
  }

  /** The four index fields of a synthesised definition read back, through
      idxToRoadType, as the crossroad's connections. */
  lemma DefIndicesReadBack(cr: CrossroadType, types: seq<RoadType>, forcedId: u32)
    requires |types| < 0xFFFF_FFFF
    requires SideIndices(cr, types).Success?
    ensures var e := DefEntry(cr, forcedId, SideIndices(cr, types).value);
      forall k :: 0 <= k < 4 ==> IdxToRoadType(types, ReadU32(e.fields[10 + k].raw)) == Sides(cr.connections)[k]
  {
    var ix := SideIndices(cr, types).value;
    var fs := DefEntry(cr, forcedId, ix).fields;
    forall k | 0 <= k < 4
      ensures IdxToRoadType(types, ReadU32(fs[10 + k].raw)) == Sides(cr.connections)[k]
    {
      assert fs[10 + k].raw == LE32(ix[k]);
      ReadLE32(ix[k]);
    }
  }

  lemma ReadLE32(v: u32)
    ensures ReadU32(LE32(v)) == v
  {
    ReadLE(0, v, []);
    assert LE32(v) + [] == LE32(v);
  }

  /** The synthesised entry is one the raw writer copies verbatim. */
  lemma DefEntryWritable(cr: CrossroadType, entryId: u32, ix: seq<u32>)
    requires |ix| == 4
    requires entryId != 0 && |cr.name| <= 0xFFFF && |cr.model| <= 0xFFFF
    ensures WritableEntry(DefEntry(cr, entryId, ix))
    ensures EncodableEntry(DefEntry(cr, entryId, ix))
  {
    var fs := DefFields(cr, ix);
    FlatFields(fs);
  }

  /** Fields with a short payload and no nested list can be copied and
      encoded, at most 2^16 + 4 bytes each. */
  lemma FlatFields(fs: seq<Field>)
    requires forall i :: 0 <= i < |fs| ==>
               && fs[i].typ != ListCode && |fs[i].raw| <= 0xFFFF
               && (fs[i].typ == StringCode || RawFixedCode(fs[i].typ))
    requires |fs| <= 0x100
    ensures WritableFields(fs) && EncodableFields(fs)
    ensures 6 + |EncodeFields(fs)| < U32Limit
  {
    assert forall i :: 0 <= i < |fs| ==> |EncodeField(fs[i])| <= 0x1_0004;
    FieldsBound(fs);
  }

  /** The definition entries, in list order, with the allocator threaded
      through. */
  function BuildCrossroadDefs(crs: seq<CrossroadType>, a: Allocator, types: seq<RoadType>, ids: seq<u32>)
    : (r: Result<(seq<bytes>, Allocator), Error>)
    requires |types| < 0xFFFF_FFFF && |ids| == |crs|
    ensures r.Success? ==> |r.value.0| == |crs| && a.used <= r.value.1.used
    decreases |crs|
  {
    if |crs| == 0 then Success(([], a))
    else
      var first :- BuildCrossroadDefEntry(crs[0], a, types, ids[0]);
      var rest :- BuildCrossroadDefs(crs[1..], first.1, types, ids[1..]);
      Success(([first.0] + rest.0, rest.1))
  }

  /** The link entry written back: the raw link of the first crossroad
      whose raw link is a 0x1A entry. */
  function PickLink(crs: seq<CrossroadType>): (r: Option<EntryRaw>)
    ensures r.Some? ==> r.value.typ == CrossroadLinkEntry
    ensures r.Some? ==> exists i ::
              && 0 <= i < |crs| && crs[i].link == r
              && (forall j :: 0 <= j < i ==> !(crs[j].link.Some? && crs[j].link.value.typ == CrossroadLinkEntry))
    ensures r.None? <==> forall i :: 0 <= i < |crs| ==> !(crs[i].link.Some? && crs[i].link.value.typ == CrossroadLinkEntry)
    decreases |crs|
  {
    if |crs| == 0 then None
    else if crs[0].link.Some? && crs[0].link.value.typ == CrossroadLinkEntry then crs[0].link
    else
      var r := PickLink(crs[1..]);
      assert forall i :: 1 <= i < |crs| ==> crs[i] == crs[1..][i - 1];
      r
  }

  /** The 0x8A entries: at most one, however many crossroads there are. */
  function BuildLinkEntries(crs: seq<CrossroadType>, a: Allocator): (r: Result<(seq<bytes>, Allocator), Error>)
    ensures r.Success? ==> (|r.value.0| == 1 <==> PickLink(crs).Some?) && |r.value.0| <= 1
  {
    match PickLink(crs)
    case None => Success(([], a))
    case Some(l) =>
      var e :- RawEntryToBytes(l, a);
      Success(([e.0], e.1))
  }

  /** buildCrossroadFields: a fresh allocator over the file's ids and the
      configuration's, the definition ids, the 0x89 field and, when links
      are written, the 0x8A field. */
  function BuildCrossroadFields(types: seq<RoadType>, crs: seq<CrossroadType>, existing: set<u32>, includeLinks: bool)
    : (r: Result<(bytes, Option<bytes>), Error>)
    requires |types| < 0xFFFF_FFFF
    ensures r.Success? ==> ListFieldOf(r.value.0, 0x89, |crs|)
    ensures r.Success? ==> (r.value.1.Some? <==> includeLinks)
    ensures r.Success? && includeLinks ==> ListFieldOf(r.value.1.value, 0x8A, if PickLink(crs).Some? then 1 else 0)
  {
    var ids :- AllocateCrossroadDefIDs(crs, NewAllocator(existing, types));
    var defs :- BuildCrossroadDefs(crs, ids.1, types, ids.0);
    var defField :- FieldList(0x89, defs.0);
    FieldListFrame(0x89, defs.0);
    if !includeLinks then Success((defField, None))
    else
      var links :- BuildLinkEntries(crs, defs.1);
      var linkField :- FieldList(0x8A, links.0);
      FieldListFrame(0x8A, links.0);
      Success((defField, Some(linkField)))
  }

  /** fieldList writes the frame of a list field over its entries. */
  lemma FieldListFrame(tag: byte, entries: seq<bytes>)
    requires FieldList(tag, entries).Success?
    ensures ListFieldOf(FieldList(tag, entries).value, tag, |entries|)
  {
    var f := FieldList(tag, entries).value;
    var c := Concat(entries);
    assert f[3..] == LE32(|c| + 4) + (LE32(|entries|) + c);
    assert f[7..] == LE32(|entries|) + c;
    ReadLE(0, |c| + 4, LE32(|entries|) + c);
    ReadLE(0, |entries|, c);
  }

  /** A list field's frame: its header, a u32 length that covers the rest
      of the field after it, and the entry count. */
  predicate ListFieldOf(f: bytes, tag: byte, count: nat) {
    |f| >= 11 && f[..3] == [tag, 0x00, ListCode]
    && ReadU32(f[3..]) == |f| - 7 && ReadU32(f[7..]) == count
  }
}
