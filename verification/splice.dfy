/** Applying a patch's replacements (internal/tv4p/write.go:14-19,
    177-193 and 954-963): the exchange sort by descending start, and the
    splice loop with its range check and size accounting. Applied from the
    end of the file backwards, non-overlapping replacements can all be
    stated against the original offsets (lemma SpliceDescending). */
module Splice {
  import opened Wrappers
  import opened Errors
  import opened Bytes

  /** `replacement`: the bytes that take the place of data[start:end]. */
  datatype Replacement = Replacement(blob: bytes, start: int, end: int)

  // ---------------------------------------------------------------------
  // sortReplsDesc.

  function Swap(s: seq<Replacement>, i: nat, j: nat): (r: seq<Replacement>)
    requires i < |s| && j < |s|
    ensures |r| == |s|
  {
    s[i := s[j]][j := s[i]]
  }

  /** The inner loop for position `i`, from `j` on: a later replacement
      that starts further on is exchanged into position `i`. */
  function InnerPass(s: seq<Replacement>, i: nat, j: nat): (r: seq<Replacement>)
    requires i < j <= |s|
    ensures |r| == |s|
    decreases |s| - j
  {
    if j == |s| then s
    else InnerPass(if s[j].start > s[i].start then Swap(s, i, j) else s, i, j + 1)
  }

  /** The outer loop from position `i` on. */
  function OuterPass(s: seq<Replacement>, i: nat): (r: seq<Replacement>)
    requires i <= |s|
    ensures |r| == |s|
    decreases |s| - i
  {
    if i == |s| then s else OuterPass(InnerPass(s, i, i + 1), i + 1)
  }

  /** sortReplsDesc. */
  function SortReplsDesc(s: seq<Replacement>): (r: seq<Replacement>)
    ensures |r| == |s|
  {
    OuterPass(s, 0)
  }

  /** Starts never increase along `s`. */
  predicate Descending(s: seq<Replacement>) {
    forall a, b :: 0 <= a < b < |s| ==> s[a].start >= s[b].start
  }

  /** Each of the first `i` replacements starts no earlier than any
      replacement after it. */
  ghost predicate HeadsDominate(s: seq<Replacement>, i: nat) {
    forall a, b :: 0 <= a < i && a < b < |s| ==> s[a].start >= s[b].start
  }

  lemma SwapPermutation(s: seq<Replacement>, i: nat, j: nat)
    requires i < |s| && j < |s|
    ensures multiset(Swap(s, i, j)) == multiset(s)
  {
    var t := s[i := s[j]];
    assert multiset(t) == multiset(s) - multiset{s[i]} + multiset{s[j]};
    assert multiset(t[j := s[i]]) == multiset(t) - multiset{t[j]} + multiset{s[i]};
  }

  /** Position `i` starts no earlier than positions i+1 .. j-1. */
  ghost predicate LeadsUpTo(s: seq<Replacement>, i: nat, j: nat) {
    forall k :: i < k < j && k < |s| ==> s[k].start <= s[i].start
  }

  /** One exchange step of the inner loop. */
  function InnerStep(s: seq<Replacement>, i: nat, j: nat): (t: seq<Replacement>)
    requires i < j < |s|
  {
    if s[j].start > s[i].start then Swap(s, i, j) else s
  }

  lemma InnerStepSpec(s: seq<Replacement>, i: nat, j: nat)
    requires i < j < |s| && LeadsUpTo(s, i, j)
    ensures var t := InnerStep(s, i, j);
      && |t| == |s| && t[..i] == s[..i] && multiset(t) == multiset(s) && LeadsUpTo(t, i, j + 1)
  {
    if s[j].start > s[i].start {
      SwapPermutation(s, i, j);
      assert Swap(s, i, j)[..i] == s[..i];
    }
  }

  /** After the inner loop, position `i` starts no earlier than anything
      after it; nothing before `i` moved and nothing was lost. */
  lemma {:induction false} InnerPassSpec(s: seq<Replacement>, i: nat, j: nat)
    requires i < j <= |s| && LeadsUpTo(s, i, j)
    ensures var r := InnerPass(s, i, j);
      && r[..i] == s[..i] && multiset(r) == multiset(s) && LeadsUpTo(r, i, |s|)
    decreases |s| - j
  {
    if j < |s| {
      var t := InnerStep(s, i, j);
      InnerStepSpec(s, i, j);
      assert InnerPass(s, i, j) == InnerPass(t, i, j + 1);
      InnerPassSpec(t, i, j + 1);
    }
  }

  lemma {:induction false} OuterPassSpec(s: seq<Replacement>, i: nat)
    requires i <= |s| && HeadsDominate(s, i)
    ensures multiset(OuterPass(s, i)) == multiset(s)
    ensures Descending(OuterPass(s, i))
    decreases |s| - i
  {
    if i < |s| {
      var t := InnerPass(s, i, i + 1);
      InnerPassSpec(s, i, i + 1);
      DominateStep(s, t, i);
      OuterPassSpec(t, i + 1);
    }
  }

  /** The inner loop for `i` extends the dominating prefix by one. */
  lemma DominateStep(s: seq<Replacement>, t: seq<Replacement>, i: nat)
    requires i < |s| == |t| && HeadsDominate(s, i)
    requires t[..i] == s[..i] && multiset(t) == multiset(s) && LeadsUpTo(t, i, |t|)
    ensures HeadsDominate(t, i + 1)
  {
    forall a, b | 0 <= a < i + 1 && a < b < |t|
      ensures t[a].start >= t[b].start
    {
      if a < i {
        assert t[a] == s[..i][a] == s[a];
        if b < i {
          assert t[b] == s[..i][b] == s[b];
        } else {
          var c := SuffixFrom(s, t, i, b);
        }
      }
    }
  }

  /** Two sequences with the same prefix and the same multiset have the
      same elements after the prefix. */
  lemma SuffixFrom(s: seq<Replacement>, t: seq<Replacement>, i: nat, b: nat) returns (c: nat)
    requires i <= b < |t| == |s| && t[..i] == s[..i] && multiset(t) == multiset(s)
    ensures i <= c < |s| && s[c] == t[b]
  {
    assert multiset(t) == multiset(t[..i]) + multiset(t[i..]) by { assert t == t[..i] + t[i..]; }
    assert multiset(s) == multiset(s[..i]) + multiset(s[i..]) by { assert s == s[..i] + s[i..]; }
    assert multiset(t[i..]) == multiset(t) - multiset(t[..i]);
    assert multiset(s[i..]) == multiset(s) - multiset(s[..i]);
    assert t[b] == t[i..][b - i];
    assert t[b] in multiset(s[i..]);
    var c' :| 0 <= c' < |s[i..]| && s[i..][c'] == t[b];
    c := i + c';
  }

  /** The sort only reorders, and its result starts furthest on first. */
  lemma SortSpec(s: seq<Replacement>)
    ensures multiset(SortReplsDesc(s)) == multiset(s)
    ensures Descending(SortReplsDesc(s))
  {
    OuterPassSpec(s, 0);
  }

  // ---------------------------------------------------------------------
  // The order of a chain.

  /** Starts strictly increase along `s`. */
  predicate StrictlyAscending(s: seq<Replacement>) {
    forall a, b :: 0 <= a < b < |s| ==> s[a].start < s[b].start
  }

  /** Starts strictly decrease along `s`. */
  predicate StrictlyDescending(s: seq<Replacement>) {
    forall a, b :: 0 <= a < b < |s| ==> s[a].start > s[b].start
  }

  function Reverse(s: seq<Replacement>): (r: seq<Replacement>)
    ensures |r| == |s|
    ensures forall k :: 0 <= k < |s| ==> r[k] == s[|s| - 1 - k]
  {
    if |s| == 0 then [] else Reverse(s[1..]) + [s[0]]
  }

  lemma {:induction false} ReversePermutation(s: seq<Replacement>)
    ensures multiset(Reverse(s)) == multiset(s)
  {
    if |s| > 0 {
      ReversePermutation(s[1..]);
      assert s == [s[0]] + s[1..];
    }
  }

  /** Replacements listed with strictly increasing starts come out of the
      sort in reverse order. */
  lemma SortAscending(s: seq<Replacement>)
    requires StrictlyAscending(s)
    ensures SortReplsDesc(s) == Reverse(s)
  {
    var r := SortReplsDesc(s);
    SortSpec(s);
    ReversePermutation(s);
    assert DistinctStarts(s);
    PermDistinctStarts(s, r);
    assert StrictlyDescending(r);
    DescendingUnique(r, Reverse(s));
  }

  /** No two positions of `s` hold replacements with the same start. */
  predicate DistinctStarts(s: seq<Replacement>) {
    forall a, b :: 0 <= a < |s| && 0 <= b < |s| && a != b ==> s[a].start != s[b].start
  }

  /** With distinct starts, no replacement occurs twice. */
  lemma {:induction false} DistinctCount(s: seq<Replacement>, e: Replacement)
    requires DistinctStarts(s)
    ensures multiset(s)[e] <= 1
    decreases |s|
  {
    if |s| > 0 {
      var t := s[1..];
      assert multiset(s) == multiset{s[0]} + multiset(t) by { assert s == [s[0]] + t; }
      assert DistinctStarts(t) by {
        forall a, b | 0 <= a < |t| && 0 <= b < |t| && a != b
          ensures t[a].start != t[b].start
        {
          assert t[a] == s[a + 1] && t[b] == s[b + 1];
        }
      }
      DistinctCount(t, e);
      if s[0] == e {
        forall k | 0 <= k < |t|
          ensures t[k] != e
        {
          assert t[k] == s[k + 1];
        }
        assert e !in multiset(t);
      }
    }
  }

  /** An element at two positions of a sequence is in its multiset
      twice. */
  lemma MultisetTwice(r: seq<Replacement>, a: nat, b: nat)
    requires a < b < |r| && r[a] == r[b]
    ensures multiset(r)[r[a]] >= 2
  {
    assert r == r[..a] + [r[a]] + r[a + 1..b] + [r[b]] + r[b + 1..];
  }

  /** Where an element of a permutation of `s` sits in `s`. */
  lemma PermPosition(s: seq<Replacement>, r: seq<Replacement>, a: nat) returns (x: nat)
    requires multiset(r) == multiset(s) && a < |r|
    ensures x < |s| && s[x] == r[a]
  {
    assert r[a] in multiset(s);
    x :| 0 <= x < |s| && s[x] == r[a];
  }

  /** Distinct positions of a permutation come from distinct positions of
      a sequence with distinct starts. */
  lemma PermInjective(s: seq<Replacement>, r: seq<Replacement>, a: nat, b: nat) returns (x: nat, y: nat)
    requires multiset(r) == multiset(s) && DistinctStarts(s)
    requires a < |r| && b < |r| && a != b
    ensures x < |s| && y < |s| && x != y && s[x] == r[a] && s[y] == r[b]
  {
    x := PermPosition(s, r, a);
    y := PermPosition(s, r, b);
    if x == y {
      DistinctCount(s, r[a]);
      MultisetTwice(r, if a < b then a else b, if a < b then b else a);
    }
  }

  /** A permutation of a sequence with distinct starts has distinct
      starts. */
  lemma PermDistinctStarts(s: seq<Replacement>, r: seq<Replacement>)
    requires multiset(r) == multiset(s) && DistinctStarts(s)
    ensures DistinctStarts(r)
  {
    forall a, b | 0 <= a < |r| && 0 <= b < |r| && a != b
      ensures r[a].start != r[b].start
    {
      var x, y := PermInjective(s, r, a, b);
    }
  }

  /** Two strictly descending orderings of one multiset are equal. */
  lemma {:induction false} DescendingUnique(a: seq<Replacement>, b: seq<Replacement>)
    requires StrictlyDescending(a) && StrictlyDescending(b)
    requires multiset(a) == multiset(b)
    ensures a == b
    decreases |a|
  {
    assert |b| == |multiset(b)| == |a|;
    if |a| > 0 {
      SameFirst(a, b);
      TailMultiset(a);
      TailMultiset(b);
      StrictTail(a);
      StrictTail(b);
      DescendingUnique(a[1..], b[1..]);
      assert a == [a[0]] + a[1..] && b == [b[0]] + b[1..];
    }
  }

  /** Both start with the replacement that starts furthest on. */
  lemma SameFirst(a: seq<Replacement>, b: seq<Replacement>)
    requires StrictlyDescending(a) && StrictlyDescending(b)
    requires multiset(a) == multiset(b) && |a| > 0 && |b| > 0
    ensures a[0] == b[0]
  {
    assert a[0] in multiset(b);
    assert b[0] in multiset(a);
    var k :| 0 <= k < |b| && b[k] == a[0];
    var m :| 0 <= m < |a| && a[m] == b[0];
    assert a[0].start >= a[m].start;
    assert b[0].start >= b[k].start;
  }

  lemma TailMultiset(a: seq<Replacement>)
    requires |a| > 0
    ensures multiset(a[1..]) == multiset(a) - multiset{a[0]}
  {
    assert a == [a[0]] + a[1..];
  }

  lemma StrictTail(a: seq<Replacement>)
    requires |a| > 0 && StrictlyDescending(a)
    ensures StrictlyDescending(a[1..])
  {
    assert forall k :: 0 <= k < |a[1..]| ==> a[1..][k] == a[k + 1];
  }

  // ---------------------------------------------------------------------
  // The splice loop.

  /** The size change of applying `rs`. */
  function Delta(rs: seq<Replacement>): int
    decreases |rs|
  {
    if |rs| == 0 then 0 else |rs[0].blob| - (rs[0].end - rs[0].start) + Delta(rs[1..])
  }

  /** The size change of a concatenation is the sum of the parts'. */
  lemma {:induction false} DeltaConcat(a: seq<Replacement>, b: seq<Replacement>)
    ensures Delta(a + b) == Delta(a) + Delta(b)
    decreases |a|
  {
    if |a| > 0 {
      assert (a + b)[0] == a[0];
      assert (a + b)[1..] == a[1..] + b;
      DeltaConcat(a[1..], b);
    } else {
      assert a + b == b;
    }
  }

  /** Reversing the replacements keeps the total size change. */
  lemma {:induction false} DeltaReverse(s: seq<Replacement>)
    ensures Delta(Reverse(s)) == Delta(s)
    decreases |s|
  {
    if |s| > 0 {
      DeltaReverse(s[1..]);
      DeltaConcat(Reverse(s[1..]), [s[0]]);
      assert [s[0]][1..] == [];
    }
  }

  /** The splice loop: each replacement's range is checked against the
      bytes as they are after the replacements before it, then the range
      is replaced; the loop also totals the size change. */
  function ApplyAll(out: bytes, rs: seq<Replacement>): (r: Result<(bytes, int), Error>)
    ensures r.Success? ==> r.value.1 == Delta(rs) && |r.value.0| == |out| + Delta(rs)
    ensures r.Failure? ==> r.error == InvalidReplacementRange
    ensures |rs| > 0 && (rs[0].start < 0 || rs[0].end < rs[0].start || rs[0].end > |out|) ==>
      r == Failure(InvalidReplacementRange)
    ensures |rs| == 0 ==> r == Success((out, 0))
    decreases |rs|
  {
    if |rs| == 0 then Success((out, 0))
    else
      var x := rs[0];
      if x.start < 0 || x.end < x.start || x.end > |out| then Failure(InvalidReplacementRange)
      else
        var rest :- ApplyAll(out[..x.start] + x.blob + out[x.end..], rs[1..]);
        Success((rest.0, |x.blob| - (x.end - x.start) + rest.1))
  }

  /** Ranges that lie inside data[:n], each ending where or before the
      previous one starts. */
  predicate Chain(rs: seq<Replacement>, n: int) {
    |rs| == 0 || (0 <= rs[0].start <= rs[0].end <= n && Chain(rs[1..], rs[0].start))
  }

  /** The reference result: every range of a chain replaced by its blob,
      all ranges taken as offsets into the original data. */
  function Piece(data: bytes, rs: seq<Replacement>): bytes
    requires Chain(rs, |data|)
    decreases |rs|
  {
    if |rs| == 0 then data
    else Piece(data[..rs[0].start], rs[1..]) + rs[0].blob + data[rs[0].end..]
  }

  /** Splicing a chain into a prefix leaves the bytes after it alone. */
  lemma {:induction false} SpliceFrame(p: bytes, s: bytes, rs: seq<Replacement>)
    requires Chain(rs, |p|)
    ensures ApplyAll(p + s, rs) == Success((Piece(p, rs) + s, Delta(rs)))
    decreases |rs|
  {
    if |rs| > 0 {
      var x := rs[0];
      var rest := x.blob + p[x.end..] + s;
      ReplaceInPrefix(p, s, x.blob, x.start, x.end);
      SpliceFrame(p[..x.start], rest, rs[1..]);
      assert Piece(p[..x.start], rs[1..]) + rest == Piece(p, rs) + s;
    }
  }

  /** Replacing a range of a prefix. */
  lemma ReplaceInPrefix(p: bytes, s: bytes, blob: bytes, start: int, end: int)
    requires 0 <= start <= end <= |p|
    ensures (p + s)[..start] + blob + (p + s)[end..] == p[..start] + (blob + p[end..] + s)
  {
    assert (p + s)[..start] == p[..start];
    assert (p + s)[end..] == p[end..] + s;
  }

  /** Applied from the end backwards, a chain of replacements gives the
      reference result. */
  lemma SpliceDescending(data: bytes, rs: seq<Replacement>)
    requires Chain(rs, |data|)
    ensures ApplyAll(data, rs) == Success((Piece(data, rs), Delta(rs)))
  {
    SpliceFrame(data, [], rs);
    assert data + [] == data;
    assert Piece(data, rs) + [] == Piece(data, rs);
  }

  /** Replacements that all start at or after `a` leave data[:a] alone. */
  lemma {:induction false} PiecePrefix(data: bytes, rs: seq<Replacement>, a: int)
    requires Chain(rs, |data|) && 0 <= a <= |data|
    requires forall k :: 0 <= k < |rs| ==> a <= rs[k].start
    ensures |Piece(data, rs)| >= a && Piece(data, rs)[..a] == data[..a]
    decreases |rs|
  {
    if |rs| > 0 {
      var x := rs[0];
      var p := data[..x.start];
      assert a <= x.start;
      assert forall k :: 0 <= k < |rs[1..]| ==> rs[1..][k] == rs[k + 1];
      PiecePrefix(p, rs[1..], a);
      assert p[..a] == data[..a];
    }
  }

  /** Ranges that lie in data[:n] and do not overlap. */
  predicate Disjoint(s: seq<Replacement>, n: int) {
    && (forall k :: 0 <= k < |s| ==> 0 <= s[k].start <= s[k].end <= n)
    && (forall a, b :: 0 <= a < |s| && 0 <= b < |s| && a != b ==> s[a].end <= s[b].start || s[b].end <= s[a].start)
  }

  /** Sorting disjoint ranges with distinct starts that lie in the data
      yields a chain. */
  lemma SortedChain(data: bytes, s: seq<Replacement>)
    requires Disjoint(s, |data|) && DistinctStarts(s)
    ensures Chain(SortReplsDesc(s), |data|)
  {
    var r := SortReplsDesc(s);
    SortSpec(s);
    PermDistinctStarts(s, r);
    assert Disjoint(r, |data|) by {
      forall a, b | 0 <= a < |r| && 0 <= b < |r| && a != b
        ensures r[a].end <= r[b].start || r[b].end <= r[a].start
      {
        var x, y := PermInjective(s, r, a, b);
      }
      forall a | 0 <= a < |r|
        ensures 0 <= r[a].start <= r[a].end <= |data|
      {
        var x := PermPosition(s, r, a);
      }
    }
    ChainOf(r, |data|);
  }

  /** A descending sequence of disjoint ranges with distinct starts below
      `n` is a chain. */
  lemma {:induction false} ChainOf(r: seq<Replacement>, n: int)
    requires Descending(r) && DistinctStarts(r) && Disjoint(r, n)
    ensures Chain(r, n)
    decreases |r|
  {
    if |r| > 0 {
      var t := r[1..];
      assert forall a :: 0 <= a < |t| ==> t[a] == r[a + 1];
      forall a | 0 <= a < |t|
        ensures t[a].end <= r[0].start
      {
        assert r[0].start > t[a].start;
      }
      assert DistinctStarts(t) by {
        forall a, b | 0 <= a < |t| && 0 <= b < |t| && a != b
          ensures t[a].start != t[b].start
        {
          assert t[a] == r[a + 1] && t[b] == r[b + 1];
        }
      }
      ChainOf(t, r[0].start);
    }
  }
}
