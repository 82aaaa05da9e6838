/** The decoder of internal/tv4p/read.go:172-298 only ever produces
    well-formed entries: every field's payload has the size its type code
    prescribes, and nested lists hold no payload of their own. */
module DecodeShape {
  import opened Wrappers
  import opened Bytes
  import opened Model
  import opened Decode

  lemma {:induction false} ParseEntriesWellFormed(data: bytes, pos: nat, listLen: nat, count: nat)
    ensures ParseEntries(data, pos, listLen, count).Some? ==>
      AllWellFormed(ParseEntries(data, pos, listLen, count).value)
    decreases listLen, 0, 1
  {
    if pos + listLen <= |data| {
      ParseLoopWellFormed(data, pos, pos + listLen, count);
    }
  }

  lemma {:induction false} ParseLoopWellFormed(data: bytes, pos: nat, end: nat, remaining: nat)
    requires pos <= end <= |data|
    ensures ParseLoop(data, pos, end, remaining).Some? ==> AllWellFormed(ParseLoop(data, pos, end, remaining).value)
    decreases end - pos, 0, 0
  {
    if pos + 7 <= end && remaining > 0 && data[pos..pos + 3] == EntryMarker {
      var bodyEnd := pos + 7 + ReadU32(data[pos + 3..]);
      if bodyEnd <= end {
        var b := data[pos + 7..bodyEnd];
        ParseEntryWellFormed(b);
        ParseLoopWellFormed(data, bodyEnd, end, remaining - 1);
        var r := ParseLoop(data, pos, end, remaining);
        if r.Some? {
          var e := ParseEntry(b).value;
          var rest := ParseLoop(data, bodyEnd, end, remaining - 1).value;
          assert r.value == [e] + rest;
          ConsWellFormed(e, rest);
        }
      }
    }
  }

  lemma ConsWellFormed(e: Entry, rest: seq<Entry>)
    requires WellFormedEntry(e) && AllWellFormed(rest)
    ensures AllWellFormed([e] + rest)
  {
    assert forall i :: 0 < i < |[e] + rest| ==> ([e] + rest)[i] == rest[i - 1];
  }

  lemma {:induction false} ParseEntryWellFormed(body: bytes)
    ensures ParseEntry(body).Some? ==> WellFormedEntry(ParseEntry(body).value)
    decreases |body|, 2, 0
  {
    if |body| >= 6 {
      ParseFieldsWellFormed(body, 6);
    }
  }

  lemma {:induction false} ParseFieldsWellFormed(body: bytes, pos: nat)
    requires pos <= |body|
    ensures ParseFields(body, pos).Some? ==> FieldsWellFormed(ParseFields(body, pos).value)
    decreases |body|, 1, |body| - pos
  {
    var r := ParseFields(body, pos);
    if pos + 3 <= |body| && body[pos + 1] == 0 && r.Some? {
      var tag := body[pos];
      var typ := body[pos + 2];
      var p := pos + 3;
      if typ == StringCode {
        var next := p + 2 + ReadU16(body[p..]);
        ParseFieldsWellFormed(body, next);
        FieldConsWellFormed(Field(tag, typ, body[p + 2..next], []), ParseFields(body, next).value);
      } else if typ == ByteCode || typ == ColorCode || typ == BytesCode {
        var next := p + FixedSize(typ);
        ParseFieldsWellFormed(body, next);
        FieldConsWellFormed(Field(tag, typ, body[p..next], []), ParseFields(body, next).value);
      } else {
        var listLen := ReadU32(body[p..]);
        var count := ReadU32(body[p + 4..]);
        var next := p + 8 + (listLen - 4);
        ParseEntriesWellFormed(body, p + 8, listLen - 4, count);
        ParseFieldsWellFormed(body, next);
        var es := ParseEntries(body, p + 8, listLen - 4, count).value;
        FieldConsWellFormed(Field(tag, typ, [], es), ParseFields(body, next).value);
      }
    }
  }

  lemma FieldConsWellFormed(f: Field, rest: seq<Field>)
    requires WellFormedField(f) && FieldsWellFormed(rest)
    ensures FieldsWellFormed([f] + rest)
  {
    assert forall i :: 0 < i < |[f] + rest| ==> ([f] + rest)[i] == rest[i - 1];
  }
}
