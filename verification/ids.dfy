/** The entry-id allocator (internal/tv4p/write.go:699-838). Go keeps the
    used ids in a map and mutates the allocator through a pointer; here the
    allocator is a value that every allocating call returns updated. */
module Ids {
  import opened Wrappers
  import opened Errors
  import opened Bytes
  import opened Model

  /** `idAllocator`: the ids taken so far and where the next search starts. */
  datatype Allocator = Allocator(used: set<u32>, next: u32)

  /** uint32 addition, wrapping at 2^32. */
  function Wrap(x: nat): (r: u32)
    ensures x < U32Limit ==> r == x
  {
    x % U32Limit
  }

  /** The allocator's `next++`, which skips 0 when it wraps. */
  function Succ(id: u32): (r: u32)
    ensures r != 0
    ensures id < 0xFFFF_FFFF ==> r == id + 1
  {
    if id == 0xFFFF_FFFF then 1 else id + 1
  }

  /** Round up to a multiple of four in uint32 arithmetic. */
  function Align4(x: u32): (r: u32)
    ensures r % 4 == 0
    ensures x <= 0xFFFF_FFFC ==> x <= r < x + 4
    ensures x > 0xFFFF_FFFC ==> r == 0
  {
    if x % 4 == 0 then x else Wrap(x + (4 - x % 4))
  }

  /** The smallest non-zero id in [lo, hi) that is not used. */
  function FirstFree(used: set<u32>, lo: nat, hi: nat): (r: Option<u32>)
    requires lo <= hi <= U32Limit
    ensures r.Some? ==> lo <= r.value < hi && r.value != 0 && r.value !in used
    ensures r.Some? ==> forall k: u32 :: lo <= k < r.value ==> k == 0 || k in used
    ensures r.None? ==> forall k: u32 :: lo <= k < hi ==> k == 0 || k in used
    decreases hi - lo
  {
    if lo == hi then None
    else if lo != 0 && lo !in used then Some(lo)
    else FirstFree(used, lo + 1, hi)
  }

  /** allocNext: the first free id counting up from `next`, wrapping past
      2^32 - 1 to 1. Go loops forever when every non-zero id is taken; the
      model reports IdSpaceExhausted there. */
  function AllocNext(a: Allocator): (r: Result<(u32, Allocator), Error>)
    ensures r.Success? ==> r.value.0 != 0 && r.value.0 !in a.used
    ensures r.Success? ==> r.value.1 == Allocator(a.used + {r.value.0}, Succ(r.value.0))
    ensures r.Success? && r.value.0 >= a.next ==>
      forall k: u32 :: a.next <= k < r.value.0 ==> k == 0 || k in a.used
    ensures r.Success? && r.value.0 < a.next ==>
      (forall k: u32 :: a.next <= k ==> k in a.used) && (forall k: u32 :: 0 < k < r.value.0 ==> k in a.used)
    ensures r.Failure? <==> forall k: u32 :: k != 0 ==> k in a.used
    ensures r.Failure? ==> r.error == IdSpaceExhausted
  {
    match FirstFree(a.used, a.next, U32Limit)
    case Some(id) => Success((id, Allocator(a.used + {id}, Succ(id))))
    case None =>
      match FirstFree(a.used, 1, if a.next == 0 then 1 else a.next)
      case Some(id) => Success((id, Allocator(a.used + {id}, Succ(id))))
      case None => Failure(IdSpaceExhausted)
  }

  /** useOrDeterministic: a non-zero id is kept and registered; a zero id is
      replaced by allocNext. The Go seed argument is ignored there and has
      no counterpart here. */
  function UseOrAlloc(a: Allocator, id: u32): (r: Result<(u32, Allocator), Error>)
    ensures id != 0 ==> r == Success((id, Allocator(a.used + {id}, a.next)))
    ensures r.Success? ==> r.value.0 != 0 && r.value.1.used == a.used + {r.value.0}
    ensures id == 0 && r.Success? ==> r.value.0 !in a.used
    ensures r.Failure? ==> id == 0 && r.error == IdSpaceExhausted
  {
    if id != 0 then Success((id, Allocator(a.used + {id}, a.next))) else AllocNext(a)
  }

  /** The largest element of a set of ids, 0 for the empty set. */
  function MaxOf(s: set<u32>): (m: u32)
    ensures forall x :: x in s ==> x <= m
    ensures s != {} ==> m in s
    ensures s == {} ==> m == 0
  {
    if s == {} then 0
    else
      MaxExists(s);
      var m: u32 :| IsMax(s, m);
      m
  }

  /** `m` is an element of `s` no smaller than any other. */
  predicate IsMax(s: set<u32>, m: u32) {
    m in s && forall y: u32 :: y in s ==> y <= m
  }

  lemma {:induction false} MaxExists(s: set<u32>)
    requires s != {}
    ensures exists m: u32 :: IsMax(s, m)
    decreases |s|
  {
    var x :| x in s;
    var rest := s - {x};
    if rest == {} {
      MaxInsert(s, x, rest, x);
    } else {
      MaxExists(rest);
      var m: u32 :| IsMax(rest, m);
      MaxInsert(s, x, rest, m);
    }
  }

  /** Adding `x` back to a set whose maximum is `m` (or to the empty set,
      passing `m == x`) gives the larger of the two as the maximum. */
  lemma MaxInsert(s: set<u32>, x: u32, rest: set<u32>, m: u32)
    requires x in s && rest == s - {x}
    requires IsMax(rest, m) || (rest == {} && m == x)
    ensures IsMax(s, if x > m then x else m)
  {
    var big: u32 := if x > m then x else m;
    forall y: u32 | y in s
      ensures y <= big
    {
      if y != x {
        assert y in rest;
      }
    }
  }

  /** The non-zero ids of a parts list. */
  function PartIds(ps: seq<RoadPart>): (r: set<u32>)
    ensures forall x :: x in r <==> x != 0 && exists i :: 0 <= i < |ps| && ps[i].id == x
  {
    set i | 0 <= i < |ps| && ps[i].id != 0 :: ps[i].id
  }

  /** The non-zero ids a road type and its three parts lists carry. */
  function TypeIds(rt: RoadType): set<u32> {
    ({rt.id} - {0}) + PartIds(rt.straightParts) + PartIds(rt.cornerParts) + PartIds(rt.terminatorParts)
  }

  /** The non-zero ids of a whole road types configuration. */
  function ConfigIds(types: seq<RoadType>): (r: set<u32>)
    ensures 0 !in r
    ensures forall i :: 0 <= i < |types| ==> TypeIds(types[i]) <= r
    ensures forall x :: x in r ==> exists i :: 0 <= i < |types| && x in TypeIds(types[i])
  {
    set i, x | 0 <= i < |types| && x in TypeIds(types[i]) :: x
  }

  /** newIDAllocator: every non-zero id of the file and of the road types
      configuration is used, and the search starts at the 4-aligned value
      after the largest of them (in uint32 arithmetic). */
  function NewAllocator(existing: set<u32>, types: seq<RoadType>): (a: Allocator)
    ensures a.used == (existing - {0}) + ConfigIds(types)
    ensures 0 !in a.used
    ensures a.next % 4 == 0
    ensures MaxOf(a.used) < 0xFFFF_FFFC ==> MaxOf(a.used) < a.next <= MaxOf(a.used) + 4
  {
    var used := (existing - {0}) + ConfigIds(types);
    Allocator(used, Align4(Wrap(MaxOf(used) + 1)))
  }

  /** The id of a well-framed entry header at offset `i`, as collectEntryIDs
      reads it: marker, a body of at least six bytes that ends inside the
      data, and a non-zero id. */
  function EntryIdAt(data: bytes, i: nat): Option<u32> {
    if i + 7 >= |data| || data[i..i + 3] != [0x06, 0x00, 0x0D] then None
    else
      var bodyLen := ReadU32(data[i + 3..]);
      if bodyLen < 6 || i + 7 + bodyLen > |data| then None
      else
        var id := ReadU32(data[i + 9..]);
        if id == 0 then None else Some(id)
  }

  /** collectEntryIDs from offset `from`. */
  function CollectFrom(data: bytes, from: nat): (r: set<u32>)
    ensures forall x :: x in r <==> exists i :: from <= i && EntryIdAt(data, i) == Some(x)
    decreases |data| - from
  {
    if from + 7 >= |data| then
      assert forall i :: from <= i ==> EntryIdAt(data, i).None?;
      {}
    else
      var rest := CollectFrom(data, from + 1);
      match EntryIdAt(data, from)
      case Some(id) => {id} + rest
      case None => rest
  }

  /** collectEntryIDs: every non-zero id behind an entry header anywhere in
      the file, whether or not the header is part of a list. */
  function CollectEntryIDs(data: bytes): (r: set<u32>)
    ensures 0 !in r
    ensures forall x :: x in r <==> exists i :: 0 <= i && EntryIdAt(data, i) == Some(x)
  {
    CollectFrom(data, 0)
  }
}
