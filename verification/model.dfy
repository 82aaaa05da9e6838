/** The records of the Road Tool block: the raw entry tree of a tv4p file
    (internal/tv4p/tv4p.go:21-35), the decoded road types shown in the
    Road Types window (internal/tv4p/tv4p.go:38-65), the crossroad types and
    the raw entry copies kept for a verbatim write-back. */
module Model {
  import opened Wrappers
  import opened Bytes

  /** Entry type codes. */
  const RoadTypeEntry: u16 := 0x12
  const StraightEntry: u16 := 0x13
  const CornerEntry: u16 := 0x14
  const TerminatorEntry: u16 := 0x16
  const CrossroadDefEntry: u16 := 0x17
  const CrossroadLinkEntry: u16 := 0x1A

  /** Field type codes. */
  const ColorCode: byte := 0x08
  const ByteCode: byte := 0x09
  const StringCode: byte := 0x0B
  const ListCode: byte := 0x0C
  const U32Code: byte := 0x0D
  const BytesCode: byte := 0x14

  /** An RGBA colour. */
  datatype Color = Color(r: byte, g: byte, b: byte, a: byte)

  /** One row of a Starting / Corner / Terminator parts tab. */
  datatype RoadPart = RoadPart(name: string, path: string, id: u32, typ: u16)

  /** A road type as the Road Types window shows it. */
  datatype RoadType = RoadType(
    name: string,
    straightParts: seq<RoadPart>,
    cornerParts: seq<RoadPart>,
    terminatorParts: seq<RoadPart>,
    id: u32,
    typ: u16,
    keyColor: Color,
    normalColor: Color,
    keyCustom: bool,
    normalCustom: bool)

  /** A decoded entry: type code, id and fields. */
  datatype Entry = Entry(fields: seq<Field>, id: u32, typeId: u16)

  /** A decoded field: a payload for scalar fields, nested entries for lists. */
  datatype Field = Field(tag: byte, typ: byte, raw: bytes, list: seq<Entry>)

  /** The configuration's copy of an entry, written back verbatim.
      The payload is kept as bytes (the configuration file spells it in hex). */
  datatype EntryRaw = EntryRaw(typ: u16, id: u32, fields: seq<FieldRaw>)

  datatype FieldRaw = FieldRaw(tag: byte, typ: byte, raw: bytes, list: seq<EntryRaw>)

  /** The road type names on the four sides of a crossroad. */
  datatype CrossroadConnections = CrossroadConnections(a: string, b: string, c: string, d: string)

  /** A crossroad type; `def` and `link` are the raw 0x89 and 0x8A entries
      when the configuration was extracted from a file. */
  datatype CrossroadType = CrossroadType(
    name: string,
    model: string,
    color: Color,
    colorCustom: bool,
    connections: CrossroadConnections,
    default: string,
    def: Option<EntryRaw>,
    link: Option<EntryRaw>)

  /** The whole Road Tool configuration. `crossroads` is None where Go has
      a nil slice, which means "leave the crossroad lists alone". */
  datatype RoadConfig = RoadConfig(types: seq<RoadType>, crossroads: Option<seq<CrossroadType>>)

  /** The four connections in A, B, C, D order. */
  function Sides(c: CrossroadConnections): seq<string> {
    [c.a, c.b, c.c, c.d]
  }
}
