# tv4p Road Tool codec and patcher, modelled in Dafny

This project models the core of `tv4p-road-tool`. The tool reads and rewrites
the Road Tool block of a Terrain Builder `.tv4p` project file. It covers:

- the road types list (`0x88`);
- the crossroad definitions list (`0x89`);
- the crossroad links list (`0x8A`);
- the small helpers of the command line tool around them.

Everything is modelled as pure functions over byte sequences and immutable
records. A Go slice the source mutates in place becomes a returned value, and
the id allocator becomes an explicit `(used, next)` record that every
allocating call threads through.

The modules follow the program's structure:

- `Bytes`, `Text`, `Seqs`, `Wrappers`, `Errors`: little-endian primitives, the Go
  `strings` operations used, generic scans, results and error values.
- `Model`: the records (`Entry`/`Field` trees, road types, parts, crossroads,
  raw entry copies, the configuration).
- `Decode`, `DecodeShape`: the entry/field decoder, the road types list scanner
  and `ParseRoadTypes`.
- `Wire`, `RoundTrip`: one reference serializer for entry trees, and the proof
  that the decoder inverts it.
- `Encode`, `RoadTypeCodec`, `RawCodec`: the field and entry builders, the road
  type writer (with a write-then-read round trip) and the verbatim raw
  write-back.
- `Crossroads`, `CrossroadWrite`: reading and writing the crossroad lists, the
  name grammar `kr_t_<ab>_<c>` / `kr_x_<ab>_<c>[_<d>]` and definition ids on a
  `0x178` stride.
- `Ids`, `IdAssign`: the id allocator, `collectEntryIDs`, id inheritance and the
  road type id series on a `0x48` stride.
- `Splice`, `Offsets`, `Repair`, `Patch`: the replacement sort and splice loop of
  a patch, the u32 offset repairs, the end of a patch and which lists a patch
  replaces.
- `Scoring`, `Reorder`, `Validate`, `Defaults`: the crossroad match scores, the
  reordering by road type index, `ValidateCrossroads`, and the two default
  heuristics of the command line tool.
- `Scope`, `Portable`, `RoadParts`, `Palette`, `Merge`, `Paths`: scope
  predicates, the portable projection, the road part file name grammar, colour
  mixing and the palette, the configuration merge and the path helpers.

## Model

| member | source | states |
|---|---|---|
| Bytes.ReadU16 | internal/tv4p/utils.go:11-17 | 0 on a slice shorter than 2 bytes; otherwise the value whose little-endian layout is the first two bytes |
| Bytes.ReadU32 | internal/tv4p/utils.go:20-26 | 0 on a slice shorter than 4 bytes; otherwise the value whose little-endian layout (b0, b1, b2, b3) is the first four bytes |
| Bytes.LE32Value | internal/tv4p/utils.go:20-26 | the four layout bytes weigh 1, 2^8, 2^16 and 2^24, i.e. b0 \| b1<<8 \| b2<<16 \| b3<<24 |
| Bytes.LE16Injective | internal/tv4p/utils.go:50-57 | equal u16 layouts come from equal values |
| Bytes.LE32Injective | internal/tv4p/utils.go:75-84 | equal u32 layouts come from equal values |
| Bytes.ReadPrefix | internal/tv4p/utils.go:11-26 | reading depends only on the first 2 / 4 bytes |
| Bytes.ReadLE | internal/tv4p/utils.go:11-26 | reading a written layout followed by anything gives the value back |
| Bytes.WriteU16 | internal/tv4p/utils.go:50-57 | a no-op on a buffer shorter than 2; otherwise it reads back as the value, keeps the length and changes nothing after byte 2 |
| Bytes.WriteU32 | internal/tv4p/utils.go:75-84 | a no-op on a buffer shorter than 4; otherwise it reads back as the value, keeps the length and changes nothing after byte 4 |
| Bytes.WriteU16FromInt | internal/tv4p/utils.go:60-72 | fails exactly on a value outside [0, 0xFFFF] (range error first) or a buffer shorter than 2, writing nothing; otherwise round-trips with readU16 and keeps the rest |
| Bytes.WriteU32FromInt | internal/tv4p/utils.go:87-101 | fails exactly on a value outside [0, 0xFFFFFFFF] (range error first) or a buffer shorter than 4, writing nothing; otherwise round-trips with readU32 and keeps the rest |
| Bytes.WriteU32Layout | internal/tv4p/utils.go:75-84 | writing into a 4-byte buffer yields exactly the little-endian layout |
| Bytes.WriteU16Layout | internal/tv4p/utils.go:50-57 | writing into a 2-byte buffer yields exactly the little-endian layout |
| Bytes.BoolByte | internal/tv4p/utils.go:29-35 | 1 exactly for true and 0 exactly for false |
| Bytes.StrBytesRoundTrip | internal/tv4p/read.go:28 | `string(b)` and `[]byte(s)` invert each other on byte strings |
| Text.Lower | internal/tv4p/validate.go:11-17 | ToLower keeps the length and lower-cases each character |
| Text.LowerIdempotent | internal/tv4p/validate.go:11-17 | lower-casing twice is lower-casing once |
| Text.TrimSpaceIdempotent | internal/tv4p/validate.go:11-17 | trimming twice is trimming once |
| Text.BlankIffAllSpace | internal/tv4p/validate.go:11-17 | a string trims to "" exactly when it is all white space |
| Text.SplitCount | internal/tv4p/crossroads.go:296-304 | Split yields one more part than there are separators |
| Text.SplitJoin | internal/tv4p/crossroads.go:307-323 | no part holds the separator, and joining the parts gives the string back |
| Text.JoinSplit | internal/tv4p/crossroads.go:307-323 | splitting a join of separator-free parts gives the parts back |
| Text.IndexFrom | internal/tv4p/write.go:841-889 | the first match at or after `from`, or -1 when there is none |
| Text.ContainsIff | internal/tv4p/read.go:165-169 | Contains holds exactly when the pattern occurs somewhere |
| Text.LastIndexOf | internal/roadparts/files.go:64-74 | the last occurrence of a character, -1 exactly when it does not occur |
| Text.Fields | internal/roadparts/files.go:84-95 | every field is a non-empty run of non-space characters |
| Text.FieldsBlank | internal/roadparts/files.go:84-95 | there are no fields exactly when the string is all white space |
| Text.FieldsFlatten | internal/roadparts/files.go:84-95 | the fields laid end to end are the string with its white space removed, so no character is lost |
| Text.FieldsSplit | internal/roadparts/files.go:84-95 | white space separates fields: the fields of `a + c + b` for a space `c` are the fields of `a` then those of `b`, so runs are maximal |
| Seqs.LastSet | cmd/tv4p-road-tool/utils.go:97-101 | the last set flag below n (a later map write wins), none exactly when no flag is set |
| Seqs.SomesPositions | cmd/tv4p-road-tool/patch.go:127-169 | each collected value comes from a present option at strictly increasing positions, and every present option is collected |
| Seqs.SomesCount | cmd/tv4p-road-tool/patch.go:127-169 | every present option is collected, and nothing is collected exactly when none is present |
| Scope.ScopeTable | internal/tv4p/scope.go:16-23 | "all" selects both lists, "roads" only road types, "crossroads" only crossroads, any other string nothing |
| Decode.ParseEntries | internal/tv4p/read.go:172-201 | no entries when the window leaves the data or the first entry lacks the 06 00 0D marker; at most `count` entries |
| Decode.ParseEntriesFrames | internal/tv4p/read.go:172-201 | a decoded list is a run of entries, each with the marker, its length and a decodable body, inside the window |
| Decode.ParseLoop | internal/tv4p/read.go:180-200 | at most `remaining` entries, and a wrong marker where an entry is due fails the whole list |
| Decode.ParseLoopFrames | internal/tv4p/read.go:180-200 | every entry read, not only the first, sits at its offset behind the marker and a length that ends at the next offset, and the loop stops when the count is used up or fewer than 7 bytes remain |
| Decode.FramesParse | internal/tv4p/read.go:180-200 | conversely, any such run of entries ending where the loop stops is exactly what the loop reads |
| Decode.ParseEntry | internal/tv4p/read.go:204-298 | a body shorter than 6 bytes fails; otherwise the type is the LE u16 at 0 and the id the LE u32 at 2 |
| Decode.ParseFields | internal/tv4p/read.go:216-296 | a non-zero byte after a tag or a type code outside 0x0B/0x09/0x08/0x14/0x0C fails the entry |
| DecodeShape.ParseEntriesWellFormed | internal/tv4p/read.go:172-298 | every decoded field has the payload size of its type code and lists carry no payload |
| Decode.LooksLikeRoadPathIff | internal/tv4p/read.go:165-169 | a road path is one whose lower-cased text contains ".p3d"; the slash conversion cannot matter |
| Decode.RoadTypesListAt | internal/tv4p/read.go:90-133 | an accepted offset holds 88 00 0C, a list length >= 4, entries decoding in the window and a road path or part list among them |
| Decode.FindRoadTypesFrom | internal/tv4p/read.go:90-133 | the first accepted offset at or after `from`, none exactly when no later offset is accepted |
| Decode.FindRoadTypesList | internal/tv4p/read.go:90-133 | the earliest accepted offset in the file; an error exactly when there is none |
| Decode.LastField | internal/tv4p/read.go:25-48 | the last field with the tag, none exactly when no field has it |
| Decode.ExtractParts | internal/tv4p/read.go:64-87 | never more parts than list entries |
| Decode.ExtractPartsAppend | internal/tv4p/read.go:64-87 | extraction is an order-keeping filter: the parts of a concatenation are the parts of each list in turn |
| Decode.ExtractPartsSnoc | internal/tv4p/read.go:81-83 | an entry adds its part at the end exactly when it has a name or a path |
| Decode.ExtractPartsSound | internal/tv4p/read.go:64-87 | every extracted part has a name or path and is the part of some entry |
| Decode.ExtractPartsKeepsNamed | internal/tv4p/read.go:64-87 | when every entry has a name or a path, nothing is dropped |
| Decode.ApplyFieldsLastWins | internal/tv4p/read.go:25-48 | the name is the last 0x33 string and each part list comes from the last 0x78/0x79/0x7B list |
| Decode.ApplyFieldsFlags | internal/tv4p/read.go:29-32 | each custom flag is the first byte of the last 0x71/0x72 field being non-zero |
| Decode.ApplyFieldsColors | internal/tv4p/read.go:33-40 | the colours come from the last 0x73/0x74 field when it holds at least 4 bytes |
| Decode.ParseRoadTypes | internal/tv4p/read.go:10-61 | fails when the list is missing or the header count differs from the decoded entries; otherwise one road type per entry with its id and type |
| Wire.EncodeEntry | internal/tv4p/write.go:658-682 | an entry is 13 bytes of header plus its encoded fields |
| Wire.EntryBody | internal/tv4p/write.go:658-682 | a body is 6 bytes plus its encoded fields |
| RoundTrip.DecodeEncodeEntry | internal/tv4p/read.go:204-298 | a well-formed encodable entry, encoded and read as a one-entry list, decodes to itself |
| RoundTrip.EntriesIn | internal/tv4p/read.go:172-201 | a run of encoded entries decodes to the entries when the count matches |
| RoundTrip.FieldsIn | internal/tv4p/read.go:216-296 | encoded fields at the end of a body decode to the fields |
| RoundTrip.FieldIn | internal/tv4p/read.go:216-296 | decoding one encoded field consumes exactly its bytes |
| Encode.FieldString | internal/tv4p/write.go:892-905 | an error exactly when the string is longer than 0xFFFF; otherwise the reference string field layout |
| Encode.FieldByte | internal/tv4p/write.go:908-910 | the reference one-byte field layout |
| Encode.FieldColor | internal/tv4p/write.go:913-921 | 7 bytes with alpha 0xFF, RGB as given when custom and zero otherwise |
| Encode.FieldBytes | internal/tv4p/write.go:924-930 | the reference 8-byte field layout over the given bytes |
| Encode.FieldList | internal/tv4p/write.go:933-952 | tag 00 0C, u32 listLen = total entry bytes + 4, u32 count, the entries; an error exactly when a u32 cannot hold them |
| Encode.BuildEntry | internal/tv4p/write.go:658-682 | 06 00 0D, the u32 body length 6 + total field bytes, u16 type, u32 id, the fields; an error exactly when the length overflows |
| Encode.BuildEntryEncodes | internal/tv4p/write.go:658-682 | buildEntry over encoded fields is the reference entry encoding |
| Encode.FieldListEncodes | internal/tv4p/write.go:933-952 | fieldList over encoded entries is the reference list-field encoding |
| Encode.PartType | internal/tv4p/write.go:619-655 | a part's own entry type when set, the list's default otherwise |
| Encode.BuildPart | internal/tv4p/write.go:619-655 | a part with over-long strings is an error; otherwise its entry is built under the id useOrDeterministic gives |
| Encode.BuildPartsList | internal/tv4p/write.go:619-655 | one entry per part, in order |
| Encode.BuildPartsListEncodes | internal/tv4p/write.go:619-655 | each built entry is the part's entry tree under the id in its header |
| Encode.BuildPartsListIds | internal/tv4p/write.go:619-655 | each part keeps its non-zero id or gets a fresh one, the fresh ids are distinct, and the allocator knows exactly the old ids plus these |
| Encode.PartFieldsEncode | internal/tv4p/write.go:570 | a part's fields are its name (0x33), its path (0x7C), the 0x7D flag byte only when the caller asks for it (straight parts), and eight zero bytes (0x7E), all within the u32 length limit |
| Encode.RoadTypeType | internal/tv4p/write.go:555-616 | a road type's own entry type when set, 0x12 otherwise |
| Encode.RoadTypeStages | internal/tv4p/write.go:555-616 | a name longer than 0xFFFF is an error; the three lists hold one entry per part |
| Encode.BuildRoadTypeEntry | internal/tv4p/write.go:555-616 | a name longer than 0xFFFF is an error |
| Encode.BuildRoadTypesEntries | internal/tv4p/write.go:539-552 | one entry per road type |
| RoadTypeCodec.WriteThenRead | internal/tv4p/write.go:555-616 | a written road type reads back with its name, flags, colours as stored and parts, zero ids replaced by allocated ones |
| RoadTypeCodec.BuiltIsTree | internal/tv4p/write.go:555-616 | the bytes buildRoadTypeEntry returns encode a well-formed tree whose lengths fit |
| RoadTypeCodec.PartRead | internal/tv4p/read.go:64-87 | a part entry reads back as the part's name, path, entry type and header id |
| RoadTypeCodec.ColorRead | internal/tv4p/write.go:913-921 | fieldColor's payload reads back as the colour it stores |
| RoadTypeCodec.FlagRead | internal/tv4p/utils.go:29-35 | a boolByte reads back as the flag |
| RoadTypeCodec.LastOfIncreasing | internal/tv4p/write.go:587-610 | with strictly increasing tags every field is the last with its tag |
| RawCodec.RawEntryToBytes | internal/tv4p/write.go:1347-1367 | an entry without a type is an error; the header id is non-zero and the raw id when that was set; the allocator only grows |
| RawCodec.RawFieldToBytes | internal/tv4p/write.go:1370-1422 | lists through fieldList, strings with a u16 length, fixed codes verbatim, any other code an error |
| RawCodec.EntryToRaw | internal/tv4p/crossroads.go:328-354 | a structural copy with the same type, id and fields |
| RawCodec.RawRoundTrip | internal/tv4p/write.go:1347-1422 | writing back an entryToRaw copy gives the reference encoding of the entry and allocates nothing |
| Crossroads.FirstField | internal/tv4p/crossroads.go:233-279 | the first field with the tag, an accepted code and a long enough payload, none exactly when there is none |
| Crossroads.DecodedHasNoU32 | internal/tv4p/crossroads.go:266-279 | the decoder never yields a u32 field, so entryU32 finds nothing in a decoded entry |
| Crossroads.EntryStringFirst | internal/tv4p/crossroads.go:233-241 | a string field written first is what entryString reads |
| Crossroads.TaggedListAt | internal/tv4p/crossroads.go:149-197 | an accepted list has the header, listLen >= 4, FieldLen = 7 + listLen inside the data, decodable entries passing the validator |
| Crossroads.FindTaggedListAfter | internal/tv4p/crossroads.go:149-197 | the earliest accepted offset at or after `from`; nothing from a start past the end |
| Crossroads.IdxToRoadType | internal/tv4p/crossroads.go:282-291 | "" for 0xFFFFFFFF or an index past the end, the road type's name otherwise |
| Crossroads.HasRoadTypeIgnoresCase | internal/tv4p/crossroads.go:118-132 | crossroadHasRoadType ignores the case of the name and is false for an empty name |
| Crossroads.ParseNameTypes | internal/tv4p/crossroads.go:294-326 | only kr_t_/kr_x_ names parse, and a T name has no D side |
| Crossroads.TNameRoundTrip | internal/tv4p/crossroads.go:296-304 | kr_t_ab_c parses to (ab, c, ""), empty parts accepted |
| Crossroads.XNameRoundTrip | internal/tv4p/crossroads.go:307-323 | kr_x_ab_c_d parses to (ab, c, d), d keeping its underscores |
| Crossroads.XShortNameRoundTrip | internal/tv4p/crossroads.go:307-323 | kr_x_ab_c parses to (ab, c, c) |
| Crossroads.LinksByModel | internal/tv4p/crossroads.go:28-35 | the keys are exactly the non-empty 0x91 paths of the links |
| Crossroads.LinksByModelLastWins | internal/tv4p/crossroads.go:28-35 | the link kept for a path is the last one carrying it |
| Crossroads.DeriveDefaults | internal/tv4p/crossroads.go:91-111 | one crossroad per input crossroad |
| Crossroads.DeriveDefaultsSound | internal/tv4p/crossroads.go:94-111 | only the default changes, and crossroad i takes road type i's name exactly when its default is empty, the name non-empty and the crossroad has that type |
| Crossroads.ParseRoadToolConfig | internal/tv4p/crossroads.go:10-114 | the road types of ParseRoadTypes (or its error), then the crossroads of the following lists |
| Crossroads.ConfigCrossroads | internal/tv4p/crossroads.go:18-89 | the crossroads come from the first valid 0x89 list after the road types, links from the 0x8A list after it |
| Crossroads.DefsRead | internal/tv4p/crossroads.go:37-82 | each crossroad carries its entry's name, model, colour and flag, and connections from the name grammar when the indices give none |
| Crossroads.ConfigWithoutDefs | internal/tv4p/crossroads.go:19-23 | without a definitions list the crossroads are absent (nil), not empty |
| Ids.Succ | internal/tv4p/write.go:764-784 | next++ never yields 0 |
| Ids.Align4 | internal/tv4p/write.go:706-761 | a multiple of 4 at or just above the value, 0 when that wraps |
| Ids.FirstFree | internal/tv4p/write.go:764-784 | the smallest non-zero unused id in the range, none exactly when all are used |
| Ids.AllocNext | internal/tv4p/write.go:764-784 | a non-zero id absent from `used`, which it then registers; fails exactly when every non-zero id is used |
| Ids.UseOrAlloc | internal/tv4p/write.go:787-796 | a non-zero id is kept and registered; otherwise allocNext, the seed ignored |
| Ids.MaxOf | internal/tv4p/write.go:706-761 | the largest id of a set, 0 for none |
| Ids.ConfigIds | internal/tv4p/write.go:706-761 | exactly the non-zero ids of the road types and their parts |
| Ids.NewAllocator | internal/tv4p/write.go:706-761 | knows the existing and configured ids, and starts at the next multiple of 4 after their maximum |
| Ids.CollectEntryIDs | internal/tv4p/write.go:813-838 | exactly the non-zero ids behind an entry header anywhere in the file |
| IdAssign.LastKeyIndex | internal/tv4p/write.go:328-354 | the last index with the key (later map writes win), none exactly when absent |
| IdAssign.InheritPart | internal/tv4p/write.go:357-390 | only the id may change, and a part with an id is untouched |
| IdAssign.InheritPartSource | internal/tv4p/write.go:357-390 | a zero id is taken from the last same-path part, else the last same name and path part |
| IdAssign.InheritPartsIdempotent | internal/tv4p/write.go:357-390 | inheriting twice from the same list changes nothing more |
| IdAssign.InheritRoadType | internal/tv4p/write.go:328-354 | name, type and colours are kept, and a set id is kept |
| IdAssign.InheritOnlyFillsIds | internal/tv4p/write.go:328-354 | inheritance only fills zero ids from same-named file road types: in the straight, corner and terminator lists alike every part keeps its place and fields, and a part with an id keeps it |
| IdAssign.InheritIdempotent | internal/tv4p/write.go:328-354 | inheriting twice is inheriting once |
| IdAssign.Residue | internal/tv4p/write.go:393-464 | the residue mod 0x48 of the first file id, else the first config id, else 0x0C |
| IdAssign.StartAfter | internal/tv4p/write.go:393-464 | the first value of the residue at least 0x48 past the largest id |
| IdAssign.NextFree | internal/tv4p/write.go:393-464 | the next unused value of the series, at or after `next` and of its residue |
| IdAssign.NextFreeFirst | internal/tv4p/write.go:393-464 | the series loop skips only used ids and fails only when the rest of the series is used |
| IdAssign.AssignFromSeries | internal/tv4p/write.go:393-464 | set ids are untouched; new ids are non-zero, unused, of the residue and strictly increasing in list order |
| IdAssign.ApplySequentialRoadTypeIDs | internal/tv4p/write.go:393-464 | every zero id gets a fresh id of the file's residue after all known ids; other ids are untouched |
| IdAssign.SequentialIdsAboveAll | internal/tv4p/write.go:393-464 | the new ids are larger than every road type id of the file and the configuration |
| CrossroadWrite.BatchIds | internal/tv4p/write.go:1121-1206 | one slot per crossroad |
| CrossroadWrite.TryAttemptsFirst | internal/tv4p/write.go:1121-1206 | the attempt loop settles on the first batch start whose slots are all free |
| CrossroadWrite.TryAttemptsNone | internal/tv4p/write.go:1121-1206 | the loop gives up exactly when no remaining attempt works |
| CrossroadWrite.Register | internal/tv4p/write.go:1121-1206 | the used set gains exactly the non-zero batch ids |
| CrossroadWrite.RegisterNext | internal/tv4p/write.go:1121-1206 | registration moves `next` past every registered id and never back |
| CrossroadWrite.Batch | internal/tv4p/write.go:1121-1206 | generated crossroad i gets cur + i*0x178, registered, with `next` re-aligned to 4 |
| CrossroadWrite.BatchDistinct | internal/tv4p/write.go:1121-1206 | the slot ids of one batch are pairwise distinct |
| CrossroadWrite.FallbackIds | internal/tv4p/write.go:1121-1206 | without a working batch, one allocNext per generated crossroad in order |
| CrossroadWrite.AllocateCrossroadDefIDs | internal/tv4p/write.go:1121-1206 | one slot per crossroad, 0 for a raw definition, fresh non-zero ids registered otherwise |
| CrossroadWrite.AllocateFrom | internal/tv4p/write.go:1121-1206 | the first working batch, else the fallback; nothing when no crossroad needs an id |
| CrossroadWrite.NameIndex | internal/tv4p/write.go:969-973 | nameToIdx: the last road type with exactly the name, none exactly when absent |
| CrossroadWrite.SideValue | internal/tv4p/write.go:1048-1067 | the index written for a side maps back to it through idxToRoadType; 0xFFFFFFFF exactly for an empty side |
| CrossroadWrite.SideIndices | internal/tv4p/write.go:1048-1080 | an error exactly when some non-empty side names no road type |
| CrossroadWrite.SideIndicesError | internal/tv4p/write.go:1069-1080 | the error names the first unknown side in A, B, C, D order |
| CrossroadWrite.DefFields | internal/tv4p/write.go:1082-1115 | the fourteen fields of a synthesised definition |
| CrossroadWrite.BuildCrossroadDefEntry | internal/tv4p/write.go:1033-1118 | a raw 0x17 definition is written back; otherwise an unknown side is an error; the allocator only grows |
| CrossroadWrite.DefWriteBack | internal/tv4p/write.go:1036-1040 | a definition read from a file is written back byte for byte without allocating |
| CrossroadWrite.SynthDefEncodes | internal/tv4p/write.go:1082-1117 | a synthesised definition is the encoding of its entry tree, allocating nothing |
| CrossroadWrite.DefIndicesReadBack | internal/tv4p/write.go:1110-1113 | the four index fields read back through idxToRoadType as the crossroad's connections |
| CrossroadWrite.BuildCrossroadDefs | internal/tv4p/write.go:980-988 | one definition entry per crossroad |
| CrossroadWrite.PickLink | internal/tv4p/write.go:1006-1014 | the raw link of the first crossroad whose raw link is a 0x1A entry |
| CrossroadWrite.BuildLinkEntries | internal/tv4p/write.go:1000-1022 | at most one 0x8A entry, exactly when some crossroad has a raw 0x1A link |
| CrossroadWrite.BuildCrossroadFields | internal/tv4p/write.go:966-1030 | a 0x89 field with one entry per crossroad, and a 0x8A field exactly when links are included |
| CrossroadWrite.FieldListFrame | internal/tv4p/write.go:933-952 | fieldList writes header, a length covering the rest of the field, and the count |
| Offsets.ClampZero | internal/tv4p/write.go:870-873 | a shifted value below zero becomes zero |
| Offsets.WriteAt | internal/tv4p/write.go:874-886 | succeeds exactly for a u32 value and then changes only the four bytes after the head |
| Offsets.CountZero | internal/tv4p/write.go:849-862 | the count is 0 exactly when no head with room for a u32 occurs |
| Offsets.CountOne | internal/tv4p/write.go:849-862 | the count is 1 exactly when one such head occurs |
| Offsets.AdjustOffsetsByTag | internal/tv4p/write.go:841-889 | a zero delta changes nothing, an out-of-range delta is an error, the length is kept |
| Offsets.AdjustOffsetsSpec | internal/tv4p/write.go:841-889 | with no fitting head or several it is an error; with exactly one the u32 after it gains delta, clamped at 0, and no other byte changes |
| Offsets.AdjustOffsetsUndo | internal/tv4p/write.go:841-889 | shifting back undoes an unclamped shift |
| Offsets.AdjustU32FieldInSlice | internal/tv4p/write.go:467-490 | a zero delta changes nothing and the length is kept |
| Offsets.AdjustFieldSpec | internal/tv4p/write.go:467-490 | no occurrence or a second occurrence is an error; a single one with room is shifted |
| Offsets.SetMetaLinkIDTail | internal/tv4p/write.go:493-536 | the length is kept and the meta holds at least 6 bytes |
| Offsets.MetaTailIsFirstId | internal/tv4p/write.go:493-536 | the three meta bytes take the high three bytes of the first link entry's id |
| Offsets.MetaTailEmptyList | internal/tv4p/write.go:493-536 | an empty link list leaves the meta unchanged |
| Splice.SortSpec | internal/tv4p/write.go:955-963 | the sort only reorders, and starts never increase in its result |
| Splice.SortAscending | internal/tv4p/write.go:955-963 | strictly ascending starts come out reversed |
| Splice.PermDistinctStarts | internal/tv4p/write.go:955-963 | a permutation keeps distinct starts distinct |
| Splice.DescendingUnique | internal/tv4p/write.go:955-963 | two strictly descending orderings of one multiset are equal |
| Splice.ApplyAll | internal/tv4p/write.go:177-193 | a range outside [0, len] of the data it is applied to fails with "invalid replacement range"; no replacements leave the data as is; the length changes by the total size change, which is returned |
| Splice.PiecePrefix | internal/tv4p/write.go:177-193 | replacements that all start at or after `a` leave the bytes before `a` alone |
| Splice.SpliceDescending | internal/tv4p/write.go:177-193 | applied from the end backwards, a chain of ranges gives every range replaced in the original data |
| Splice.SortedChain | internal/tv4p/write.go:177-193 | sorting disjoint in-range ranges with distinct starts yields such a chain |
| Splice.DeltaConcat | internal/tv4p/write.go:177-193 | the size change of a concatenation is the sum of the parts' |
| Patch.PatchGate | internal/tv4p/write.go:50-131 | the patch gets past its checks exactly when the roads scope has road types and its field was built, and, with the crossroad gate open, both crossroad lists were found, their fields were built and the meta region between them lies in the data; otherwise "scope=roads requires road_types", "crossroad lists not found near Road Tool block" or "invalid crossroads meta range", in Go's order |
| Patch.GateIgnoresCrossroadsWhenClosed | internal/tv4p/write.go:94 | with the crossroad gate closed, missing crossroad lists or a bad meta range cannot fail the patch |
| Patch.PatchReplacements | internal/tv4p/write.go:50-175 | the road types replacement is applied only when the scope includes roads; the crossroad replacements only when the scope includes crossroads and the configuration has a crossroad list |
| Patch.CrossroadsPreserved | internal/tv4p/write.go:92-94 | with a nil crossroad list or a scope without crossroads, every byte after the road types list reaches the output unchanged |
| Patch.TailPreserved | internal/tv4p/write.go:177-193 | disjoint replacements that all end by an offset leave the bytes from that offset on at the end of the output |
| Patch.RoadTypesPreserved | internal/tv4p/write.go:50 | with a scope without roads, every byte before the crossroad lists reaches the output unchanged |
| Repair.RepairOffsetsAsWritten | internal/tv4p/write.go:195-207 | the repair runs only when the total size change is non-zero |
| Repair.RepairOffsets | internal/tv4p/write.go:195-207 | the repair without the gate keeps the length, and nothing changes when no list changed size |
| Repair.RepairAgrees | internal/tv4p/write.go:195-207 | the gate makes no difference when the total is non-zero or no list changed |
| Repair.SkippedRepair | internal/tv4p/write.go:195-207 | when the links list shrinks by what the lists before it grow, the gate skips a shift of the 0x3E field that the repair makes |
| Repair.FinishPatchSpec | internal/tv4p/write.go:177-207 | non-overlapping replacements yield every range replaced in the original data, then the repair; length = len(data) + size change |
| Repair.DeltaPermutation | internal/tv4p/write.go:177-193 | the total size change does not depend on the order of the replacements |
| Repair.FinishAgrees | internal/tv4p/write.go:177-207 | with consistent deltas, the gated and ungated patch differ only when the total is 0 and d88+d89 is not |
| Scoring.ShapeScore | internal/tv4p/write.go:242-251 | 2 exactly for a kr_t_ name, otherwise 1 for kr_x_ and 0 for anything else |
| Scoring.ConnScoreBands | internal/tv4p/write.go:259-279 | -1 exactly when no side names the type; 100+ for A and B, 80+ for A or B, 60+ for C or D |
| Scoring.MatchScoreBands | internal/tv4p/write.go:253-257 | a matching default scores 1000+, above any connection match; otherwise the connection score |
| Reorder.ShouldReorder | internal/tv4p/write.go:213-234 | both lists non-empty, and some crossroad has a default or some crossroad carries no raw data |
| Reorder.ScoresAt | internal/tv4p/write.go:253-280 | the scores are the match scores of the crossroads, in order |
| Reorder.BestMatchSpec | internal/tv4p/write.go:300-318 | the first crossroad with the highest score; none exactly when every score is -1 |
| Reorder.ReorderCrossroads | internal/tv4p/write.go:237-325 | the length is kept |
| Reorder.ReorderPermutation | internal/tv4p/write.go:237-325 | reordering only swaps: the result is a permutation of the input |
| Reorder.StepSpec | internal/tv4p/write.go:286-324 | a step swaps the best eligible crossroad into position i and locks it, moving nothing else |
| Reorder.RunLocks | internal/tv4p/write.go:286-324 | a position filled by a swap is never moved by a later step |
| Reorder.ReorderPlaced | internal/tv4p/write.go:286-324 | a locked position holds a crossroad that matches its road type |
| Validate.KnownNames | internal/tv4p/validate.go:11-17 | the lower-cased names of road types with a non-blank name |
| Validate.CrossroadErrorNone | internal/tv4p/validate.go:23-51 | one crossroad passes exactly when its sides and default are fine and its default is not claimed yet |
| Validate.ValidateCrossroads | internal/tv4p/validate.go:10-55 | an empty list always passes, and every failure is one of the four errors |
| Validate.ValidateIff | internal/tv4p/validate.go:10-55 | passes exactly when every side is blank or known, every default is known and among the sides, and no two defaults coincide |
| Validate.AcceptedIff | internal/tv4p/validate.go:21-54 | the one-by-one check equals the declarative one |
| Defaults.MarkDefault | cmd/tv4p-road-tool/patch.go:139-141 | only a blank default changes, and then to the road type name |
| Defaults.ExplicitIndexSpec | cmd/tv4p-road-tool/patch.go:85-92 | the explicit crossroad is the last naming the key, none exactly when none does |
| Defaults.Pick | cmd/tv4p-road-tool/patch.go:129-164 | a blank road type picks nothing; a pick is a valid index |
| Defaults.PickExplicit | cmd/tv4p-road-tool/patch.go:136-144 | an explicit default wins, the highest index among several |
| Defaults.PickBestMatch | cmd/tv4p-road-tool/patch.go:146-163 | otherwise the highest connection score, ties to the lowest index, none when nothing touches the type |
| Defaults.SelectSpec | cmd/tv4p-road-tool/patch.go:79-172 | the input when either list is empty or nothing is picked; otherwise at most one pick per road type, each a road type's pick |
| Defaults.SelectOrder | cmd/tv4p-road-tool/patch.go:127-169 | when something is picked, the result lists the picks in road type order, one per road type that picks, and every such road type contributes |
| Defaults.SelectOnlyMarks | cmd/tv4p-road-tool/patch.go:138-161 | every result is an input crossroad, unchanged but for a blank default set to a trimmed road type name |
| Defaults.AssignScores | cmd/tv4p-road-tool/generate.go:308-349 | a crossroad with a default scores -1, others their connection score |
| Defaults.AssignStepChoice | cmd/tv4p-road-tool/generate.go:334-360 | a blank or seen type is skipped; otherwise the best crossroad without a default gets it, none when every score is -1 |
| Defaults.AssignDefaultsSpec | cmd/tv4p-road-tool/generate.go:297-361 | crossroads with a default are untouched, others gain at most a default, and every new default key is unique |
| Defaults.AssignKeepsDefaultsUnique | cmd/tv4p-road-tool/generate.go:297-361 | unique defaults stay unique |
| Portable.PortableParts | internal/tv4p/portable.go:53-61 | one part per part, in order, carrying its name and path |
| Portable.ToPortableConfig | internal/tv4p/portable.go:41-78 | one road type per road type; no crossroads for a nil list, one per crossroad otherwise |
| Portable.PortableIgnoresInternals | internal/tv4p/portable.go:3-37 | configurations differing only in ids, entry types and raw copies project alike |
| Portable.PortableKeepsVisible | internal/tv4p/portable.go:44-75 | equal projections mean equal names, paths, colours, flags, connections and defaults |
| RoadParts.ParseCrossroadBase | internal/roadparts/crossroads.go:31-61 | only kr_t_/kr_x_ names with non-empty AB and C are accepted; T has D = "", X has a non-empty D |
| RoadParts.BaseAgreesWithNameTypes | internal/roadparts/crossroads.go:31-61 | the strict grammar accepts what the lenient one does with non-empty parts |
| RoadParts.TBaseRoundTrip | internal/roadparts/crossroads.go:32-39 | kr_t_ab_c parses to AB = ab, C = c, D = "" |
| RoadParts.XBaseRoundTrip | internal/roadparts/crossroads.go:41-56 | kr_x_ab_c_d parses to its three parts |
| RoadParts.XBaseImplicitD | internal/roadparts/crossroads.go:49-56 | a missing or empty D becomes C |
| RoadParts.TBaseTrailingEmptyRejected | internal/roadparts/crossroads.go:35 | kr_t_asf1_ is rejected |
| RoadParts.IsDigits | internal/roadparts/files.go:101-109 | true exactly for a non-empty run of digits |
| RoadParts.ParseBase | internal/roadparts/files.go:47-98 | the name is kept, crossroad names are crossroads, and terminator/crosswalk kinds need their suffix |
| RoadParts.ParseBaseAccepts | internal/roadparts/files.go:53-97 | accepted exactly when the last '_' of the stem is neither first nor last |
| RoadParts.StraightRoundTrip | internal/roadparts/files.go:89-95 | type_n names a straight part of type |
| RoadParts.TerminatorRoundTrip | internal/roadparts/files.go:76-82 | type_nkonec names a terminator of type |
| RoadParts.CrosswalkRoundTrip | internal/roadparts/files.go:89-95 | type_n_crosswalk names a crosswalk of type |
| RoadParts.CornerRoundTrip | internal/roadparts/files.go:84-87 | type_n m names a corner of type |
| RoadParts.TrailingSeparatorRejected | internal/roadparts/files.go:66-69 | a name with nothing after its last '_' is rejected |
| RoadParts.PartTypeFromKind | cmd/tv4p-road-tool/generate.go:394-405 | Straight 0x13, Corner 0x14, Terminator 0x16, anything else 0 |
| Palette.Clamp255 | internal/roadparts/mix.go:46-54 | the identity on [0, 255], the nearer bound otherwise |
| Palette.MixColors | internal/roadparts/mix.go:7-26 | {0,0,0,255} for no colours; alpha is always 255 |
| Palette.MixBounds | internal/roadparts/mix.go:12-25 | each mixed channel lies between the smallest and largest input channel |
| Palette.MixCopies | internal/roadparts/mix.go:12-25 | mixing n copies of a colour keeps its RGB |
| Palette.ClampByte | internal/roadparts/palette.go:99-108 | always in [40, 220], the identity inside it |
| Palette.ShiftChannel | internal/roadparts/palette.go:90-96 | opaque and in the band, red only clamped |
| Palette.ShiftChannelSpec | internal/roadparts/palette.go:90-96 | a zero shift of a banded colour changes nothing; green and blue move by the shift as far as the band allows |
| Palette.ApplyWorldTint | internal/roadparts/palette.go:76-87 | with both flags false both colours are unchanged |
| Palette.Matches | internal/roadparts/palette.go:33-41 | true exactly when some key is a substring of the name |
| Palette.FirstRule | internal/roadparts/palette.go:14-23 | the first matching rule, none exactly when no rule matches |
| Palette.Palette | internal/roadparts/palette.go:13-30 | the ok result is always true: a name no rule matches falls back to the hashed colours |
| Palette.PaletteByRule | internal/roadparts/palette.go:14-23 | a matched name gets the first matching rule's colours from the table, tinted only for sakhal or enoch names |
| Palette.PaletteRuleColorsDiffer | internal/roadparts/colors.go:13-94 | a matched name gets two different opaque colours |
| Merge.UpdateAllSpec | cmd/tv4p-road-tool/utils.go:111-127 | parts are appended in order; colours come from the last config type that sets their flag; type and id from the last non-zero one |
| Merge.Lookup | cmd/tv4p-road-tool/utils.go:97-104 | the last file road type with exactly the name |
| Merge.LookupInFile | cmd/tv4p-road-tool/utils.go:97-104 | updates keep names, so the lookup finds what it finds in the file itself |
| Merge.MergeConfigWithFile | cmd/tv4p-road-tool/utils.go:91-131 | an unreadable file is an error; otherwise the merged road types and no crossroads |
| Merge.MergeTypesSpec | cmd/tv4p-road-tool/utils.go:97-130 | existing types keep their order and are updated by same-named config types; new names are appended in config order |
| Merge.AsWrittenWithRoom | cmd/tv4p-road-tool/utils.go:97-128 | with enough capacity the code as written gives the intended merge |
| Merge.LostUpdateAfterGrowth | cmd/tv4p-road-tool/utils.go:103-127 | after an append that reallocates, an update to an existing type is lost |
| Paths.ToBackslashes | cmd/tv4p-road-tool/utils.go:86-88 | every '/' becomes '\\' and nothing else changes |
| Paths.BackslashesIdempotent | cmd/tv4p-road-tool/utils.go:86-88 | converting twice is converting once |
| Paths.BackslashesIdentify | cmd/tv4p-road-tool/utils.go:86-88 | two paths convert alike exactly when they differ only in slashes |
| Paths.CleanAbs | cmd/tv4p-road-tool/utils.go:134-154 | blank is "", a letter + ':' and any X:\ or X:/ become the upper-case drive root |
| Paths.CleanAbsTrims | cmd/tv4p-road-tool/utils.go:135 | only the trimmed path matters |
| Paths.CleanAbsDriveIdempotent | cmd/tv4p-road-tool/utils.go:142-150 | cleaning a drive root again keeps it |
| Paths.DriveRootIgnoresCase | cmd/tv4p-road-tool/utils.go:142-145 | c: and C:\ name the same root |
| Paths.DriveRootWithoutLetter | cmd/tv4p-road-tool/utils.go:148-150 | the three-character form needs no letter, the two-character form does |

## Left out

- Character handling is ASCII only. `strings.ToLower`, `strings.TrimSpace`, `strings.Fields` and `strings.ToUpper` work on Unicode in Go; here they map and recognise ASCII letters and ASCII white space. A Go string is modelled one character per byte.
- File and command line I/O is left out: reading and writing files, YAML/JSON config encoding, printing patch statistics, the directory walk of `generateConfig`, and `p3d.IsMLOD`.
- `PatchRoadTool` is not one function here. Its pieces are modelled: locating the lists, building the fields, sorting, splicing and the repair (`Repair.FinishPatch`). The assembly of the replacement list and of the deltas `d88`, `d89` and `d8A` becomes parameters of `Repair.FinishPatch`. The scope and nil-list gates that decide which lists are replaced, and the three error returns of `PatchRoadTool` itself (`scope=roads requires road_types`, `crossroad lists not found near Road Tool block`, `invalid crossroads meta range`), are modelled in `Patch.PatchGate`; the outcomes of the steps between those checks are its parameters.
- Paths.CleanAbs: `filepath.Clean` in the general branch is OS path semantics; it is a parameter. `resolvePaths`, `toObjectFile`, `toCrossroadModelPath` and `ParseFile`'s `filepath.Base`/`Ext` are left out for the same reason.
- Palette.Palette: the hash fallback (`hashColor`, xxhash plus floating-point saturation) is foreign code and is a parameter. `hash32`, `DarkenColor`, `darkenAndSaturate` and `vec2f64Hex` are left out as floating point or foreign hashing.
- Hex text in `FieldRaw` (`decodeHex`, `hex.EncodeToString`) is not modelled: raw payloads are byte sequences.
- Validate.ValidateCrossroads: Go visits the four sides in map order, so which side an error names is not fixed. The model reports only which kind of error occurs.
- IdAssign.ApplySequentialRoadTypeIDs: Go's `next` is a `uint32`, so `next += 0x48` wraps past 2^32-1 and the loop at internal/tv4p/write.go:434-463 goes on from the wrapped value; Go has no error there. `IdAssign.NextFree` instead stops with `IdSpaceExhausted` once the series passes 2^32-1, and the start `maxID + 0x48` is not wrapped either. Only configurations that reach the top of the id space differ.
- Ids.AllocNext: the unbounded `for {}` search becomes a bounded scan of the 32-bit id space that reports exhaustion. The seed strings of `useOrDeterministic` are ignored in the source and dropped here.
- `buildCrossroadLinkEntry`'s synthetic template branch is left out. The only link `buildCrossroadFields` hands it is a raw `0x1A` entry, which it writes back verbatim.
- `buildCrossroadSideLists` is left out: nothing in the modelled write path calls it.
- Merge.MergeTypesAsWritten: Go's slice capacity growth policy is not modelled. The capacity is a parameter, and each append that outgrows it counts as a reallocation.
- Entry offsets (`Entry.Offset`, `IDOffset`) and the block metadata of `RoadTypesBlock` other than start, list length and count are left out: no modelled code reads them.
- Crossroads.DecodedHasNoU32: the decoder rejects type code `0x05` (internal/tv4p/read.go:292-293), which `entryU32` expects. So on entries read from a file, connections always come from the name grammar. This is modelled as written.

## Findings

| source | as written | input that shows it | evidently intended | confidence | as-written member | corrected member |
|---|---|---|---|---|---|---|
| internal/tv4p/write.go:195-207 | the offset repair runs only when the total size change of all replacements is non-zero | the road types list grows by 10 bytes and the links list shrinks by 10 (`d88 = 10`, `d89 = 0`, `d8A = -10`): the total is 0, so the `0x3E` field is not shifted, though it should move by `d88 + d89 = 10` | shift each field by the size change of the lists before it, whatever the total | not executed | Repair.SkippedRepair | Repair.FinishPatchSpec |
| cmd/tv4p-road-tool/utils.go:97-128 | `byName` holds pointers into `existing.Types`, and the loop appends to the same slice. Once an append reallocates, later updates write to the old array and are lost | a file with one road type `A`, in a slice of capacity 1, and a configuration `[B, A']` where `A'` is named `A` and sets a custom key colour: the result is `[A, B]` with `A`'s colour unchanged | update the road type in the merged list itself | not executed | Merge.LostUpdateAfterGrowth | Merge.MergeTypesSpec |
