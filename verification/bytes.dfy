/** Little-endian integer primitives over byte sequences
    (internal/tv4p/utils.go). Go mutates a slice in place; here a write
    returns the new buffer and a failed write returns no buffer at all, so
    the caller's buffer is untouched. */
module Bytes {
  import opened Wrappers
  import opened Errors

  type byte = x: int | 0 <= x < 0x100
  type u16 = x: int | 0 <= x < 0x1_0000
  type u32 = x: int | 0 <= x < 0x1_0000_0000
  type bytes = seq<byte>

  /** 2^32: one past the largest u32. */
  const U32Limit: int := 0x1_0000_0000

  /** The two bytes a u16 occupies, low byte first. */
  function LE16(v: u16): (r: bytes)
    ensures |r| == 2
  {
    [v % 0x100, v / 0x100]
  }

  /** The four bytes a u32 occupies, low byte first. */
  function LE32(v: u32): (r: bytes)
    ensures |r| == 4
  {
    var q1 := v / 0x100;
    var q2 := q1 / 0x100;
    [v % 0x100, q1 % 0x100, q2 % 0x100, q2 / 0x100]
  }

  /** The layout's bytes weigh 1, 2^8, 2^16 and 2^24. */
  lemma LE32Value(v: u32)
    ensures v == LE32(v)[0] as int + 0x100 * (LE32(v)[1] as int + 0x100 * (LE32(v)[2] as int + 0x100 * LE32(v)[3] as int))
  {
    var q1 := v / 0x100;
    var q2 := q1 / 0x100;
    assert v == v % 0x100 + 0x100 * q1;
    assert q1 == q1 % 0x100 + 0x100 * q2;
    assert q2 == q2 % 0x100 + 0x100 * (q2 / 0x100);
  }

  /** The layouts are injective: equal bytes mean equal values. */
  lemma LE16Injective(a: u16, b: u16)
    ensures LE16(a) == LE16(b) ==> a == b
  {
  }

  lemma LE32Injective(a: u32, b: u32)
    ensures LE32(a) == LE32(b) ==> a == b
  {
    LE32Value(a);
    LE32Value(b);
  }

  /** readU16: 0 on a slice shorter than two bytes, otherwise the value
      whose little-endian layout is the first two bytes. */
  function ReadU16(b: bytes): (v: u16)
    ensures |b| < 2 ==> v == 0
    ensures |b| >= 2 ==> LE16(v) == b[..2]
  {
    if |b| < 2 then 0 else b[0] as int + b[1] as int * 0x100
  }

  /** readU32: 0 on a slice shorter than four bytes, otherwise the value
      whose little-endian layout is the first four bytes. */
  function ReadU32(b: bytes): (v: u32)
    ensures |b| < 4 ==> v == 0
    ensures |b| >= 4 ==> LE32(v) == b[..4]
  {
    if |b| < 4 then 0
    else b[0] as int + 0x100 * (b[1] as int + 0x100 * (b[2] as int + 0x100 * b[3] as int))
  }

  /** Reading only looks at the first two / four bytes. */
  lemma ReadPrefix(a: bytes, b: bytes)
    ensures |a| >= 2 && |b| >= 2 && a[..2] == b[..2] ==> ReadU16(a) == ReadU16(b)
    ensures |a| >= 4 && |b| >= 4 && a[..4] == b[..4] ==> ReadU32(a) == ReadU32(b)
  {
    if |a| >= 4 && |b| >= 4 && a[..4] == b[..4] {
      LE32Injective(ReadU32(a), ReadU32(b));
    }
    if |a| >= 2 && |b| >= 2 && a[..2] == b[..2] {
      LE16Injective(ReadU16(a), ReadU16(b));
    }
  }

  /** Reading a layout gives the value back. */
  lemma ReadLE(v16: u16, v32: u32, rest: bytes)
    ensures ReadU16(LE16(v16) + rest) == v16
    ensures ReadU32(LE32(v32) + rest) == v32
  {
    LE16Injective(ReadU16(LE16(v16) + rest), v16);
    assert (LE16(v16) + rest)[..2] == LE16(v16);
    LE32Injective(ReadU32(LE32(v32) + rest), v32);
    assert (LE32(v32) + rest)[..4] == LE32(v32);
  }

  /** writeU16: a no-op on a slice shorter than two bytes. */
  function WriteU16(b: bytes, v: u16): (r: bytes)
    ensures |r| == |b|
    ensures |b| < 2 ==> r == b
    ensures |b| >= 2 ==> ReadU16(r) == v && r[2..] == b[2..]
  {
    if |b| < 2 then b else ReadLE(v, 0, b[2..]); LE16(v) + b[2..]
  }

  /** writeU32: a no-op on a slice shorter than four bytes. */
  function WriteU32(b: bytes, v: u32): (r: bytes)
    ensures |r| == |b|
    ensures |b| < 4 ==> r == b
    ensures |b| >= 4 ==> ReadU32(r) == v && r[4..] == b[4..]
  {
    if |b| < 4 then b else ReadLE(0, v, b[4..]); LE32(v) + b[4..]
  }

  /** writeU16FromInt: the range is checked before the buffer length. */
  function WriteU16FromInt(b: bytes, v: int): (r: Result<bytes, Error>)
    ensures r.Failure? <==> v < 0 || v > 0xFFFF || |b| < 2
    ensures (v < 0 || v > 0xFFFF) ==> r == Failure(ValueOutOfUint16Range)
    ensures 0 <= v <= 0xFFFF && |b| < 2 ==> r == Failure(BufferTooSmallForUint16)
    ensures r.Success? ==> |r.value| == |b| && ReadU16(r.value) == v && r.value[2..] == b[2..]
  {
    if v < 0 || v > 0xFFFF then Failure(ValueOutOfUint16Range)
    else if |b| < 2 then Failure(BufferTooSmallForUint16)
    else Success(WriteU16(b, v))
  }

  /** writeU32FromInt: the range is checked before the buffer length. */
  function WriteU32FromInt(b: bytes, v: int): (r: Result<bytes, Error>)
    ensures r.Failure? <==> v < 0 || v > 0xFFFF_FFFF || |b| < 4
    ensures (v < 0 || v > 0xFFFF_FFFF) ==> r == Failure(ValueOutOfUint32Range)
    ensures 0 <= v <= 0xFFFF_FFFF && |b| < 4 ==> r == Failure(BufferTooSmallForUint32)
    ensures r.Success? ==> |r.value| == |b| && ReadU32(r.value) == v && r.value[4..] == b[4..]
  {
    if v < 0 || v > 0xFFFF_FFFF then Failure(ValueOutOfUint32Range)
    else if |b| < 4 then Failure(BufferTooSmallForUint32)
    else Success(WriteU32(b, v))
  }

  /** Writing a fresh four-byte buffer yields exactly the layout. */
  lemma WriteU32Layout(b: bytes, v: u32)
    requires |b| == 4
    ensures WriteU32(b, v) == LE32(v)
  {
    var r := WriteU32(b, v);
    assert r[..4] == LE32(ReadU32(r));
    assert r == r[..4];
  }

  lemma WriteU16Layout(b: bytes, v: u16)
    requires |b| == 2
    ensures WriteU16(b, v) == LE16(v)
  {
    var r := WriteU16(b, v);
    assert r[..2] == LE16(ReadU16(r));
    assert r == r[..2];
  }

  /** boolByte. */
  function BoolByte(v: bool): (r: byte)
    ensures r == 1 <==> v
    ensures r == 0 <==> !v
  {
    if v then 1 else 0
  }

  /** `[]byte(s)`: each character stands for one byte. */
  function StrBytes(s: string): (r: bytes)
    ensures |r| == |s|
    ensures forall i :: 0 <= i < |s| ==> r[i] == s[i] as int % 0x100
  {
    seq(|s|, i requires 0 <= i < |s| => s[i] as int % 0x100)
  }

  /** `string(b)`. */
  function BytesStr(b: bytes): (s: string)
    ensures |s| == |b|
    ensures forall i :: 0 <= i < |b| ==> s[i] as int == b[i]
  {
    seq(|b|, i requires 0 <= i < |b| => b[i] as char)
  }

  /** A string whose characters are all bytes survives the trip through bytes. */
  predicate IsByteString(s: string) {
    forall i :: 0 <= i < |s| ==> s[i] as int < 0x100
  }

  lemma StrBytesRoundTrip(s: string, b: bytes)
    ensures IsByteString(BytesStr(b))
    ensures StrBytes(BytesStr(b)) == b
    ensures IsByteString(s) ==> BytesStr(StrBytes(s)) == s
  {
    var t := BytesStr(StrBytes(s));
    if IsByteString(s) {
      assert forall i :: 0 <= i < |s| ==> t[i] as int == s[i] as int;
    }
  }
}
