/** The road part file name grammar (internal/roadparts/files.go and
    internal/roadparts/crossroads.go): a model base name such as
    `asf1_6`, `asf1_7 100`, `asf1_6konec` or `asf1_6_crosswalk` names a
    part of road type `asf1`, and `kr_t_*` / `kr_x_*` names a crossroad.
    Also the part entry type the generator gives each kind
    (cmd/tv4p-road-tool/generate.go:393-405). */
module RoadParts {
  import opened Wrappers
  import opened Bytes
  import opened Model
  import Text
  import Crossroads

  // ---------------------------------------------------------------------
  // Crossroad names.

  datatype Shape = ShapeUnknown | ShapeT | ShapeX

  /** The meaning of a crossroad model name: the through road `ab`, the
      branch `c` and, for an X-junction, the fourth side `d`. */
  datatype CrossroadName = CrossroadName(ab: string, c: string, d: string, shape: Shape)

  /** ParseCrossroadBase: `kr_t_<ab>_<c>` and `kr_x_<ab>_<c>[_<d...>]`,
      with the two required components non-empty. */
  function ParseCrossroadBase(base: string): (r: Option<CrossroadName>)
    ensures r.Some? ==> r.value.ab != "" && r.value.c != ""
    ensures r.Some? ==> (r.value.shape == ShapeT <==> Text.HasPrefix(base, Crossroads.TPrefix))
    ensures r.Some? ==> r.value.shape != ShapeUnknown
    ensures r.Some? && r.value.shape == ShapeT ==> r.value.d == ""
    ensures r.Some? && r.value.shape == ShapeX ==> r.value.d != ""
    ensures !Text.HasPrefix(base, Crossroads.TPrefix) && !Text.HasPrefix(base, Crossroads.XPrefix) ==> r.None?
  {
    if Text.HasPrefix(base, Crossroads.TPrefix) then
      var parts := Text.Split(Text.TrimPrefix(base, Crossroads.TPrefix), '_');
      if |parts| != 2 || parts[0] == "" || parts[1] == "" then None
      else Some(CrossroadName(parts[0], parts[1], "", ShapeT))
    else if Text.HasPrefix(base, Crossroads.XPrefix) then
      var parts := Text.Split(Text.TrimPrefix(base, Crossroads.XPrefix), '_');
      if |parts| < 2 || parts[0] == "" || parts[1] == "" then None
      else
        var d := if |parts| >= 3 then Text.Join(parts[2..], '_') else parts[1];
        Some(CrossroadName(parts[0], parts[1], if d == "" then parts[1] else d, ShapeX))
    else None
  }

  /** The two crossroad name parsers agree: ParseCrossroadBase accepts
      exactly the names parseCrossroadNameTypes accepts with non-empty
      `ab` and `c`, gives the same components, and replaces an empty X
      `d` by `c`. */
  lemma BaseAgreesWithNameTypes(name: string)
    ensures ParseCrossroadBase(name).Some? <==>
      Crossroads.ParseNameTypes(name).Some? && Crossroads.ParseNameTypes(name).value.0 != ""
      && Crossroads.ParseNameTypes(name).value.1 != ""
    ensures ParseCrossroadBase(name).Some? ==>
      var t := Crossroads.ParseNameTypes(name).value;
      var n := ParseCrossroadBase(name).value;
      n.ab == t.0 && n.c == t.1 && n.d == (if n.shape == ShapeX && t.2 == "" then t.1 else t.2)
  {
  }

  /** A T-junction name made of two underscore-free non-empty road type
      names parses back into them. */
  lemma TBaseRoundTrip(ab: string, c: string)
    requires ab != "" && c != "" && '_' !in ab && '_' !in c
    ensures ParseCrossroadBase(Crossroads.TPrefix + ab + "_" + c) == Some(CrossroadName(ab, c, "", ShapeT))
  {
    Crossroads.TNameRoundTrip(ab, c);
    BaseAgreesWithNameTypes(Crossroads.TPrefix + ab + "_" + c);
  }

  /** An X-junction name with an explicit non-empty fourth side parses
      back into its three components. */
  lemma XBaseRoundTrip(ab: string, c: string, d: string)
    requires ab != "" && c != "" && d != "" && '_' !in ab && '_' !in c
    ensures ParseCrossroadBase(Crossroads.XPrefix + ab + "_" + c + "_" + d) == Some(CrossroadName(ab, c, d, ShapeX))
  {
    Crossroads.XNameRoundTrip(ab, c, d);
    BaseAgreesWithNameTypes(Crossroads.XPrefix + ab + "_" + c + "_" + d);
  }

  /** An X-junction name without a fourth side, or with an empty one,
      repeats the branch on D. */
  lemma XBaseImplicitD(ab: string, c: string)
    requires ab != "" && c != "" && '_' !in ab && '_' !in c
    ensures ParseCrossroadBase(Crossroads.XPrefix + ab + "_" + c) == Some(CrossroadName(ab, c, c, ShapeX))
    ensures ParseCrossroadBase(Crossroads.XPrefix + ab + "_" + c + "_") == Some(CrossroadName(ab, c, c, ShapeX))
  {
    Crossroads.XShortNameRoundTrip(ab, c);
    BaseAgreesWithNameTypes(Crossroads.XPrefix + ab + "_" + c);
    Crossroads.XNameRoundTrip(ab, c, "");
    assert Crossroads.XPrefix + ab + "_" + c + "_" + "" == Crossroads.XPrefix + ab + "_" + c + "_";
    BaseAgreesWithNameTypes(Crossroads.XPrefix + ab + "_" + c + "_");
  }

  /** A T-junction name whose branch is missing (`kr_t_asf1_`) is
      rejected. */
  lemma TBaseTrailingEmptyRejected(ab: string)
    requires '_' !in ab
    ensures ParseCrossroadBase(Crossroads.TPrefix + ab + "_") == None
  {
    var name := Crossroads.TPrefix + ab + "_";
    assert Text.HasPrefix(name, Crossroads.TPrefix);
    assert Text.TrimPrefix(name, Crossroads.TPrefix) == ab + ['_'] + "";
    Text.SplitAfterPart(ab, '_', "");
    assert Text.Split("", '_') == [""];
  }

  // ---------------------------------------------------------------------
  // Part file names.

  datatype Kind = Unknown | Straight | Corner | Terminator | Crosswalk | Crossroad

  /** A parsed base name: the road type it belongs to, the full name and
      the kind of part. */
  datatype Parsed = Parsed(typeName: string, name: string, kind: Kind)

  const CrosswalkSuffix: string := "_crosswalk"
  const TerminatorSuffix: string := "konec"
  const CrossroadTypeName: string := "crossroad"

  predicate IsDigit(c: char) {
    '0' <= c <= '9'
  }

  /** isDigits: a non-empty run of ASCII digits. */
  function IsDigits(s: string): (r: bool)
    ensures r <==> s != "" && forall i :: 0 <= i < |s| ==> IsDigit(s[i])
  {
    s != "" && AllDigitsFrom(s, 0)
  }

  /** The scan of isDigits from index `i`. */
  function AllDigitsFrom(s: string, i: nat): (r: bool)
    ensures r <==> forall k :: i <= k < |s| ==> IsDigit(s[k])
    decreases |s| - i
  {
    if i >= |s| then true else IsDigit(s[i]) && AllDigitsFrom(s, i + 1)
  }

  predicate IsCrossroadBase(base: string) {
    Text.HasPrefix(base, Crossroads.TPrefix) || Text.HasPrefix(base, Crossroads.XPrefix)
  }

  /** The base name with the crosswalk suffix and then the terminator
      suffix stripped. */
  function Stem(base: string): string {
    Text.TrimSuffix(Text.TrimSuffix(base, CrosswalkSuffix), TerminatorSuffix)
  }

  predicate HasCrosswalkSuffix(base: string) {
    Text.HasSuffix(base, CrosswalkSuffix)
  }

  predicate HasTerminatorSuffix(base: string) {
    Text.HasSuffix(Text.TrimSuffix(base, CrosswalkSuffix), TerminatorSuffix)
  }

  /** ParseBase: a crossroad prefix decides at once; otherwise the stem
      splits at its last underscore into the road type name and the part
      number(s). */
  function ParseBase(base: string): (r: Option<Parsed>)
    ensures r.Some? ==> r.value.name == base
    ensures IsCrossroadBase(base) ==> r == Some(Parsed(CrossroadTypeName, base, Crossroad))
    ensures r.Some? && r.value.kind == Terminator ==> HasTerminatorSuffix(base)
    ensures r.Some? && r.value.kind == Crosswalk ==> HasCrosswalkSuffix(base)
  {
    if IsCrossroadBase(base) then Some(Parsed(CrossroadTypeName, base, Crossroad))
    else
      var isCrosswalk := Text.HasSuffix(base, CrosswalkSuffix);
      var b1 := Text.TrimSuffix(base, CrosswalkSuffix);
      var isTerminator := Text.HasSuffix(b1, TerminatorSuffix);
      var b2 := Text.TrimSuffix(b1, TerminatorSuffix);
      var idx := Text.LastIndexOf(b2, '_');
      if idx <= 0 || idx == |b2| - 1 then None
      else
        var typeName := b2[..idx];
        var rest := b2[idx + 1..];
        if typeName == "" || rest == "" then None
        else if isTerminator then
          if IsDigits(rest) then Some(Parsed(typeName, base, Terminator)) else None
        else
          var fields := Text.Fields(rest);
          if |fields| == 2 && IsDigits(fields[0]) && IsDigits(fields[1]) then Some(Parsed(typeName, base, Corner))
          else if |fields| == 1 && IsDigits(fields[0]) then
            Some(Parsed(typeName, base, if isCrosswalk then Crosswalk else Straight))
          else Some(Parsed(typeName, base, Unknown))
  }

  /** What acceptance means for a part name: its stem has an underscore
      that is neither the first nor the last character, the road type is
      the text before the last underscore, and a terminator needs digits
      after it. Anything else after it is accepted as some kind. */
  lemma ParseBaseAccepts(base: string)
    requires !IsCrossroadBase(base)
    ensures var stem := Stem(base);
      var idx := Text.LastIndexOf(stem, '_');
      && (ParseBase(base).Some? <==>
            0 < idx < |stem| - 1 && (HasTerminatorSuffix(base) ==> IsDigits(stem[idx + 1..])))
      && (ParseBase(base).Some? ==> ParseBase(base).value.typeName == stem[..idx] && '_' !in stem[idx + 1..])
      && (ParseBase(base).Some? ==> (ParseBase(base).value.kind == Terminator <==> HasTerminatorSuffix(base)))
  {
    var stem := Stem(base);
    var idx := Text.LastIndexOf(stem, '_');
    if 0 < idx < |stem| - 1 {
      var rest := stem[idx + 1..];
      forall j | 0 <= j < |rest|
        ensures rest[j] != '_'
      {
        assert rest[j] == stem[idx + 1 + j];
      }
    }
  }

  /** A string whose last character differs from the suffix's last one
      does not end in it. */
  lemma NotSuffixByLast(s: string, p: string)
    requires |p| > 0 && (|s| == 0 || s[|s| - 1] != p[|p| - 1])
    ensures !Text.HasSuffix(s, p)
  {
    if |p| <= |s| {
      assert s[|s| - |p|..][|p| - 1] == s[|s| - 1];
    }
  }

  /** A name ending in a digit ends in neither suffix. */
  lemma DigitEndFacts(s: string)
    requires |s| > 0 && IsDigit(s[|s| - 1])
    ensures !Text.HasSuffix(s, CrosswalkSuffix) && !Text.HasSuffix(s, TerminatorSuffix)
  {
    NotSuffixByLast(s, CrosswalkSuffix);
    NotSuffixByLast(s, TerminatorSuffix);
  }

  /** `t_n` with a digit string `n` ends in neither suffix, and `n` has no
      underscore. */
  lemma DigitsFacts(t: string, n: string)
    requires IsDigits(n)
    ensures !Text.HasSuffix(t + "_" + n, CrosswalkSuffix)
    ensures !Text.HasSuffix(t + "_" + n, TerminatorSuffix)
    ensures '_' !in n
  {
    var s := t + "_" + n;
    assert s[|s| - 1] == n[|n| - 1];
    DigitEndFacts(s);
  }

  /** The last underscore of `t_n` is the one before `n` when `n` has
      none. */
  lemma LastSeparator(t: string, n: string)
    requires '_' !in n
    ensures Text.LastIndexOf(t + "_" + n, '_') == |t|
    ensures (t + "_" + n)[..|t|] == t && (t + "_" + n)[|t| + 1..] == n
  {
    var s := t + "_" + n;
    forall k | |t| < k < |s|
      ensures s[k] != '_'
    {
      assert s[k] == n[k - |t| - 1];
    }
    Text.LastIndexOfAt(s, '_', |t|);
    assert s[..|t|] == t && s[|t| + 1..] == n;
  }

  /** A digit string is a single white-space free field. */
  lemma DigitsField(n: string)
    requires IsDigits(n)
    ensures Text.Fields(n) == [n]
  {
    Text.FieldsOfWord(n);
  }

  /** `<type>_<n>` names a straight part of `<type>`. */
  lemma StraightRoundTrip(t: string, n: string)
    requires t != "" && IsDigits(n) && !IsCrossroadBase(t + "_" + n)
    ensures ParseBase(t + "_" + n) == Some(Parsed(t, t + "_" + n, Straight))
  {
    DigitsFacts(t, n);
    LastSeparator(t, n);
    DigitsField(n);
  }

  /** `<type>_<n>konec` names a terminator of `<type>`. */
  lemma TerminatorRoundTrip(t: string, n: string)
    requires t != "" && IsDigits(n) && !IsCrossroadBase(t + "_" + n + TerminatorSuffix)
    ensures ParseBase(t + "_" + n + TerminatorSuffix) == Some(Parsed(t, t + "_" + n + TerminatorSuffix, Terminator))
  {
    var base := t + "_" + n + TerminatorSuffix;
    assert !Text.HasSuffix(base, CrosswalkSuffix) by {
      assert base[|base| - 1] == 'c';
      assert CrosswalkSuffix[|CrosswalkSuffix| - 1] == 'k';
    }
    assert Text.HasSuffix(base, TerminatorSuffix);
    assert Text.TrimSuffix(base, TerminatorSuffix) == t + "_" + n;
    DigitsFacts(t, n);
    LastSeparator(t, n);
  }

  /** `<type>_<n>_crosswalk` names a crosswalk part of `<type>`. */
  lemma CrosswalkRoundTrip(t: string, n: string)
    requires t != "" && IsDigits(n) && !IsCrossroadBase(t + "_" + n + CrosswalkSuffix)
    ensures ParseBase(t + "_" + n + CrosswalkSuffix) == Some(Parsed(t, t + "_" + n + CrosswalkSuffix, Crosswalk))
  {
    var base := t + "_" + n + CrosswalkSuffix;
    assert Text.HasSuffix(base, CrosswalkSuffix);
    assert Text.TrimSuffix(base, CrosswalkSuffix) == t + "_" + n;
    DigitsFacts(t, n);
    LastSeparator(t, n);
    DigitsField(n);
  }

  /** `<type>_<n> <m>` names a corner part of `<type>`. */
  lemma CornerRoundTrip(t: string, n: string, m: string)
    requires t != "" && IsDigits(n) && IsDigits(m) && !IsCrossroadBase(t + "_" + (n + " " + m))
    ensures ParseBase(t + "_" + (n + " " + m)) == Some(Parsed(t, t + "_" + (n + " " + m), Corner))
  {
    var rest := n + " " + m;
    var base := t + "_" + rest;
    assert base[|base| - 1] == m[|m| - 1];
    DigitEndFacts(base);
    NoSeparatorInGroups(n, m);
    LastSeparator(t, rest);
    TwoFields(n, m);
    CornerStem(base, t, rest, n, m);
  }

  /** A name without suffixes whose last underscore splits it into `t`
      and two digit groups names a corner part. */
  lemma CornerStem(base: string, t: string, rest: string, n: string, m: string)
    requires !IsCrossroadBase(base) && t != "" && IsDigits(n) && IsDigits(m)
    requires !Text.HasSuffix(base, CrosswalkSuffix) && !Text.HasSuffix(base, TerminatorSuffix)
    requires |base| == |t| + 1 + |rest| && rest != ""
    requires Text.LastIndexOf(base, '_') == |t| && base[..|t|] == t && base[|t| + 1..] == rest
    requires Text.Fields(rest) == [n, m]
    ensures ParseBase(base) == Some(Parsed(t, base, Corner))
  {
    var b1 := Text.TrimSuffix(base, CrosswalkSuffix);
    assert b1 == base;
    assert !Text.HasSuffix(b1, TerminatorSuffix);
    assert Text.TrimSuffix(b1, TerminatorSuffix) == base;
    var f := Text.Fields(rest);
    assert |f| == 2 && IsDigits(f[0]) && IsDigits(f[1]);
  }

  lemma NoSeparatorInGroups(n: string, m: string)
    requires IsDigits(n) && IsDigits(m)
    ensures '_' !in n + " " + m
  {
    var rest := n + " " + m;
    forall i | 0 <= i < |rest|
      ensures rest[i] != '_'
    {
      if i < |n| {
        assert rest[i] == n[i];
      } else if i > |n| {
        assert rest[i] == m[i - |n| - 1];
      }
    }
  }

  /** Two digit groups separated by one space are two fields. */
  lemma TwoFields(n: string, m: string)
    requires IsDigits(n) && IsDigits(m)
    ensures Text.Fields(n + " " + m) == [n, m]
  {
    var s := n + " " + m;
    assert s == n + (" " + m);
    WordBeforeSpace(n, " " + m);
    assert !Text.IsSpace(s[0]) by { assert s[0] == n[0]; }
    assert s[|n|..] == " " + m;
    assert Text.Fields(s) == [n] + Text.Fields(" " + m);
    assert Text.Fields(" " + m) == Text.Fields(m) by {
      assert (" " + m)[1..] == m;
    }
    DigitsField(m);
  }

  lemma {:induction false} WordBeforeSpace(w: string, rest: string)
    requires forall i :: 0 <= i < |w| ==> !Text.IsSpace(w[i])
    requires |rest| > 0 && Text.IsSpace(rest[0])
    ensures Text.Word(w + rest) == w
    decreases |w|
  {
    if |w| > 0 {
      WordBeforeSpace(w[1..], rest);
      assert (w + rest)[1..] == w[1..] + rest;
    }
  }

  /** A name whose number is missing (`asf1_`) is rejected. */
  lemma TrailingSeparatorRejected(t: string)
    requires !IsCrossroadBase(t + "_")
    ensures ParseBase(t + "_") == None
  {
    var base := t + "_";
    NotSuffixByLast(base, CrosswalkSuffix);
    NotSuffixByLast(base, TerminatorSuffix);
  }

  /** partTypeFromKind: the entry type the generator gives a part of each
      kind; crosswalk, crossroad and unknown parts get none. */
  function PartTypeFromKind(k: Kind): (t: u16)
    ensures t == 0 <==> k !in {Straight, Corner, Terminator}
    ensures k == Straight ==> t == StraightEntry
    ensures k == Corner ==> t == CornerEntry
    ensures k == Terminator ==> t == TerminatorEntry
  {
    match k
    case Straight => 0x13
    case Corner => 0x14
    case Terminator => 0x16
    case _ => 0
  }
}
