/** The error values the road tool returns, one constructor per distinct
    `errors.New` / `fmt.Errorf` site that the model reaches. */
module Errors {

  datatype Error =
    // little-endian writers
    | ValueOutOfUint16Range
    | BufferTooSmallForUint16
    | ValueOutOfUint32Range
    | BufferTooSmallForUint32
      // decoding
    | RoadTypesListNotFound
    | EntryCountMismatch(header: int, parsed: int)
      // encoding
    | RawEntryMissingType
    | UnsupportedRawFieldType(typ: int)
    | UnknownRoadTypeForSide(crossroad: string, side: char, value: string)
    | IdSpaceExhausted
      // patching
    | RoadTypesRequired
    | CrossroadListsNotFound
    | InvalidCrossroadsMetaRange
    | InvalidReplacementRange
    | OffsetDeltaOutOfRange
    | OffsetTagCountMismatch
    | OffsetTagNotFound
    | U32FieldNotFound
    | U32FieldAmbiguous
    | MetaLinkFieldNotFound
    | MetaLinkFieldAmbiguous
    | InvalidLinksField
    | InvalidLinksEntries
    | InvalidLinksFirstHeader
    | InvalidLinksFirstBody
      // crossroad validation
    | UnknownConnection(crossroad: string)
    | UnknownDefault(crossroad: string, default: string)
    | DefaultNotConnected(crossroad: string, default: string)
    | DuplicateDefault(default: string, first: string, second: string)
}
