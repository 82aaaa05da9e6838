/** Road part colours (internal/roadparts/mix.go, palette.go, colors.go):
    averaging colours by integer arithmetic, the clamps, the world tint of
    Sakhal and Enoch names and the rule table of known road type names.
    The hash fallback of Palette is foreign (xxhash plus a floating-point
    saturation) and is a parameter here. */
module Palette {
  import opened Wrappers
  import opened Bytes
  import opened Model
  import Text

  // ---------------------------------------------------------------------
  // MixColors.

  /** clamp255: the identity on a byte value, the nearer bound otherwise. */
  function Clamp255(v: int): (r: byte)
    ensures 0 <= v <= 255 ==> r == v
    ensures v < 0 ==> r == 0
    ensures v > 255 ==> r == 255
  {
    if v < 0 then 0 else if v > 255 then 255 else v
  }

  /** Red, green or blue by index. */
  function Channel(c: Color, k: nat): byte
    requires k < 3
  {
    if k == 0 then c.r else if k == 1 then c.g else c.b
  }

  /** The sum of one channel over all colours. */
  function Sum(cs: seq<Color>, k: nat): nat
    requires k < 3
    decreases |cs|
  {
    if |cs| == 0 then 0 else Sum(cs[..|cs| - 1], k) + Channel(cs[|cs| - 1], k)
  }

  /** The rounded average `(sum + n/2) / n`. */
  function RoundedAvg(sum: nat, n: nat): nat
    requires n > 0
  {
    (sum + n / 2) / n
  }

  const Black: Color := Color(0, 0, 0, 255)

  /** MixColors: the channel-wise rounded average, opaque; black for no
      colours. */
  function MixColors(cs: seq<Color>): (r: Color)
    ensures |cs| == 0 ==> r == Black
    ensures r.a == 255
  {
    if |cs| == 0 then Black
    else
      var n := |cs|;
      Color(Clamp255(RoundedAvg(Sum(cs, 0), n)), Clamp255(RoundedAvg(Sum(cs, 1), n)),
            Clamp255(RoundedAvg(Sum(cs, 2), n)), 255)
  }

  /** Euclidean division has a unique quotient. */
  lemma DivUnique(a: int, n: int, q: int, rem: int)
    requires n > 0 && 0 <= rem < n && a == q * n + rem
    ensures a / n == q
  {
    var d := a / n;
    assert a == d * n + a % n;
    if d < q {
      MulLe(d + 1, q, n);
    } else if d > q {
      MulLe(q + 1, d, n);
    }
  }

  lemma MulLe(x: int, y: int, n: int)
    requires x <= y && n >= 0
    ensures x * n <= y * n
  {
    assert y * n - x * n == (y - x) * n;
  }

  /** Division by a positive number keeps order. */
  lemma DivMono(a: int, b: int, n: int)
    requires n > 0 && a <= b
    ensures a / n <= b / n
  {
    var qa, qb := a / n, b / n;
    assert a == qa * n + a % n && b == qb * n + b % n;
    if qa > qb {
      MulLe(qb + 1, qa, n);
    }
  }

  /** The rounded average of `n` equal values is that value. */
  lemma RoundedAvgOfMultiple(x: nat, n: nat)
    requires n > 0
    ensures RoundedAvg(x * n, n) == x
  {
    DivUnique(x * n + n / 2, n, x, n / 2);
  }

  /** The smallest and largest value of one channel. */
  function Lo(cs: seq<Color>, k: nat): byte
    requires |cs| > 0 && k < 3
    decreases |cs|
  {
    if |cs| == 1 then Channel(cs[0], k)
    else
      var m := Lo(cs[..|cs| - 1], k);
      if Channel(cs[|cs| - 1], k) < m then Channel(cs[|cs| - 1], k) else m
  }

  function Hi(cs: seq<Color>, k: nat): byte
    requires |cs| > 0 && k < 3
    decreases |cs|
  {
    if |cs| == 1 then Channel(cs[0], k)
    else
      var m := Hi(cs[..|cs| - 1], k);
      if Channel(cs[|cs| - 1], k) > m then Channel(cs[|cs| - 1], k) else m
  }

  /** The channel sum lies between n times the smallest and n times the
      largest value. */
  lemma {:induction false} SumBounds(cs: seq<Color>, k: nat)
    requires |cs| > 0 && k < 3
    ensures Lo(cs, k) * |cs| <= Sum(cs, k) <= Hi(cs, k) * |cs|
    decreases |cs|
  {
    var init := cs[..|cs| - 1];
    var m := |init|;
    var x := Channel(cs[|cs| - 1], k);
    var lo, hi := Lo(cs, k), Hi(cs, k);
    if m == 0 {
      assert init == [];
    } else {
      SumBounds(init, k);
      assert Sum(cs, k) == Sum(init, k) + x;
      assert lo <= Lo(init, k) && lo <= x;
      assert Hi(init, k) <= hi && x <= hi;
      BoundStep(lo, Lo(init, k), x, Sum(init, k), m);
      BoundStepUp(hi, Hi(init, k), x, Sum(init, k), m);
    }
  }

  /** One more value not below `lo` keeps the sum above `lo` per value. */
  lemma BoundStep(lo: int, lo': int, x: int, s: int, m: nat)
    requires lo <= lo' && lo <= x && lo' * m <= s
    ensures lo * (m + 1) <= s + x
  {
    MulLe(lo, lo', m);
    assert lo * (m + 1) == lo * m + lo;
  }

  /** One more value not above `hi` keeps the sum below `hi` per value. */
  lemma BoundStepUp(hi: int, hi': int, x: int, s: int, m: nat)
    requires hi' <= hi && x <= hi && s <= hi' * m
    ensures s + x <= hi * (m + 1)
  {
    MulLe(hi', hi, m);
    assert hi * (m + 1) == hi * m + hi;
  }

  /** Each mixed channel lies between the smallest and the largest input
      value of that channel. */
  lemma MixBounds(cs: seq<Color>, k: nat)
    requires |cs| > 0 && k < 3
    ensures Lo(cs, k) <= Channel(MixColors(cs), k) <= Hi(cs, k)
  {
    var n := |cs|;
    SumBounds(cs, k);
    DivMono(Lo(cs, k) * n + n / 2, Sum(cs, k) + n / 2, n);
    DivMono(Sum(cs, k) + n / 2, Hi(cs, k) * n + n / 2, n);
    RoundedAvgOfMultiple(Lo(cs, k), n);
    RoundedAvgOfMultiple(Hi(cs, k), n);
  }

  /** The sum of `n` copies of one colour. */
  lemma {:induction false} SumOfCopies(c: Color, n: nat, k: nat)
    requires k < 3
    ensures Sum(seq(n, _ => c), k) == Channel(c, k) * n
  {
    if n > 0 {
      var cs := seq(n, _ => c);
      assert cs[..n - 1] == seq(n - 1, _ => c);
      SumOfCopies(c, n - 1, k);
    }
  }

  /** Mixing `n` copies of one colour keeps its red, green and blue: the
      weighting by repetition is exact. */
  lemma MixCopies(c: Color, n: nat)
    requires n > 0
    ensures MixColors(seq(n, _ => c)) == c.(a := 255)
  {
    SumOfCopies(c, n, 0);
    SumOfCopies(c, n, 1);
    SumOfCopies(c, n, 2);
    RoundedAvgOfMultiple(c.r, n);
    RoundedAvgOfMultiple(c.g, n);
    RoundedAvgOfMultiple(c.b, n);
  }

  // ---------------------------------------------------------------------
  // The world tint.

  /** clampByte: the band [40, 220] palette colours are kept in. */
  function ClampByte(v: int): (r: byte)
    ensures 40 <= r <= 220
    ensures 40 <= v <= 220 ==> r == v
    ensures v < 40 ==> r == 40
    ensures v > 220 ==> r == 220
  {
    if v < 40 then 40 else if v > 220 then 220 else v
  }

  predicate InBand(c: Color) {
    40 <= c.r <= 220 && 40 <= c.g <= 220 && 40 <= c.b <= 220
  }

  /** shiftChannel: green and blue moved by `dg` and `db`, red kept, all
      clamped into the band, opaque. */
  function ShiftChannel(c: Color, dg: int, db: int): (r: Color)
    ensures r.a == 255 && InBand(r)
    ensures r.r == ClampByte(c.r)
  {
    Color(ClampByte(c.r), ClampByte(c.g + dg), ClampByte(c.b + db), 255)
  }

  /** A zero shift of an opaque colour in the band changes nothing; a
      shift moves a channel exactly as far as the band allows. */
  lemma ShiftChannelSpec(c: Color, dg: int, db: int)
    ensures InBand(c) && c.a == 255 && dg == 0 && db == 0 ==> ShiftChannel(c, dg, db) == c
    ensures 40 <= c.g + dg <= 220 ==> ShiftChannel(c, dg, db).g - c.g == dg
    ensures 40 <= c.b + db <= 220 ==> ShiftChannel(c, dg, db).b - c.b == db
  {
  }

  /** applyWorldTint: Sakhal names are shifted towards blue, Enoch names
      towards green, the key colour less than the normal one. */
  function ApplyWorldTint(normal: Color, key: Color, shiftBlue: bool, shiftGreen: bool): (r: (Color, Color))
    ensures !shiftBlue && !shiftGreen ==> r == (normal, key)
    ensures shiftBlue || shiftGreen ==> InBand(r.0) && InBand(r.1) && r.0.a == 255 && r.1.a == 255
  {
    var n1 := if shiftBlue then ShiftChannel(normal, 0, 25) else normal;
    var k1 := if shiftBlue then ShiftChannel(key, 0, 18) else key;
    var n2 := if shiftGreen then ShiftChannel(n1, 20, 0) else n1;
    var k2 := if shiftGreen then ShiftChannel(k1, 14, 0) else k1;
    (n2, k2)
  }

  /** The tint moves red in the normal and the key colour alike: either
      both are kept or both are clamped into the band. */
  lemma TintRed(normal: Color, key: Color, shiftBlue: bool, shiftGreen: bool)
    ensures var r := ApplyWorldTint(normal, key, shiftBlue, shiftGreen);
      if shiftBlue || shiftGreen then r.0.r == ClampByte(normal.r) && r.1.r == ClampByte(key.r)
      else r.0.r == normal.r && r.1.r == key.r
  {
  }

  // ---------------------------------------------------------------------
  // The rule table.

  /** paletteRule: the colours for names containing one of the keys. */
  datatype PaletteRule = PaletteRule(keys: seq<string>, normal: Color, key: Color)

  /** paletteRule.matches: some key occurs in the name. */
  function Matches(rule: PaletteRule, name: string): (r: bool)
    ensures r <==> exists i :: 0 <= i < |rule.keys| && Text.Contains(name, rule.keys[i])
  {
    MatchesFrom(rule.keys, name, 0)
  }

  function MatchesFrom(keys: seq<string>, name: string, i: nat): (r: bool)
    ensures r <==> exists j :: i <= j < |keys| && Text.Contains(name, keys[j])
    decreases |keys| - i
  {
    if i >= |keys| then false else Text.Contains(name, keys[i]) || MatchesFrom(keys, name, i + 1)
  }

  function Rule(key: string, n: (byte, byte, byte), k: (byte, byte, byte)): PaletteRule {
    PaletteRule([key], Color(n.0, n.1, n.2, 255), Color(k.0, k.1, k.2, 255))
  }

  /** paletteRules, in table order: the first rule that matches wins, so
      `runway` comes before `way` and `asf1` before `asf`. */
  const PaletteRules: seq<PaletteRule> := [
    Rule("snow", (170, 220, 255), (90, 150, 210)),
    Rule("runway", (60, 120, 220), (20, 60, 160)),
    Rule("sidewalk", (220, 200, 160), (150, 120, 80)),
    Rule("concrete", (170, 170, 170), (100, 100, 100)),
    Rule("rail", (200, 70, 50), (120, 30, 20)),
    Rule("track", (170, 80, 200), (90, 40, 120)),
    Rule("way", (80, 200, 120), (30, 120, 70)),
    Rule("path", (90, 180, 90), (40, 110, 40)),
    Rule("asf1", (110, 125, 150), (60, 80, 110)),
    Rule("asf2", (120, 115, 110), (70, 70, 65)),
    Rule("asf3", (125, 105, 90), (75, 60, 45)),
    Rule("asf", (95, 115, 140), (50, 70, 100)),
    Rule("city", (230, 170, 70), (170, 110, 25)),
    Rule("grav", (190, 145, 90), (120, 80, 40)),
    Rule("mud", (140, 90, 55), (90, 50, 25)),
    Rule("quarry", (210, 160, 80), (140, 90, 35))
  ]

  /** The first rule at or after `i` that matches the name. */
  function FirstRule(rules: seq<PaletteRule>, name: string, i: nat): (r: Option<nat>)
    ensures r.Some? ==> (i <= r.value < |rules| && Matches(rules[r.value], name)
      && forall j :: i <= j < r.value ==> !Matches(rules[j], name))
    ensures r.None? ==> forall j :: i <= j < |rules| ==> !Matches(rules[j], name)
    decreases |rules| - i
  {
    if i >= |rules| then None
    else if Matches(rules[i], name) then Some(i)
    else FirstRule(rules, name, i + 1)
  }

  const SakhalTag: string := "sakhal"
  const EnochTag: string := "enoch"

  /** Palette: the normal and key colours for a part or road type name.
      `hashed` stands for the colours the hash fallback derives from the
      lower-cased name (hashColor and darkenAndSaturate). */
  function Palette(name: string, hashed: (Color, Color)): (r: (Color, Color, bool))
    ensures r.2
  {
    var lower := Text.Lower(name);
    var shiftBlue := Text.Contains(lower, SakhalTag);
    var shiftGreen := Text.Contains(lower, EnochTag);
    match FirstRule(PaletteRules, lower, 0)
    case Some(j) =>
      var t := ApplyWorldTint(PaletteRules[j].normal, PaletteRules[j].key, shiftBlue, shiftGreen);
      (t.0, t.1, true)
    case None =>
      var t := ApplyWorldTint(hashed.0, hashed.1, shiftBlue, shiftGreen);
      (t.0, t.1, true)
  }

  /** A name a rule matches gets the first matching rule's colours, tinted
      only for Sakhal or Enoch names; the hash fallback is not used. */
  lemma PaletteByRule(name: string, hashed: (Color, Color), j: nat)
    requires j < |PaletteRules| && Matches(PaletteRules[j], Text.Lower(name))
    requires forall i :: 0 <= i < j ==> !Matches(PaletteRules[i], Text.Lower(name))
    ensures var lower := Text.Lower(name);
      var t := ApplyWorldTint(PaletteRules[j].normal, PaletteRules[j].key,
                              Text.Contains(lower, SakhalTag), Text.Contains(lower, EnochTag));
      Palette(name, hashed) == (t.0, t.1, true)
    ensures !Text.Contains(Text.Lower(name), SakhalTag) && !Text.Contains(Text.Lower(name), EnochTag) ==>
      Palette(name, hashed) == (PaletteRules[j].normal, PaletteRules[j].key, true)
  {
    var r := FirstRule(PaletteRules, Text.Lower(name), 0);
    assert r == Some(j);
  }

  /** Every rule gives an opaque key colour whose red differs from the
      normal colour's, before and after clamping into the band. */
  lemma RulesDistinctRed(j: nat)
    requires j < |PaletteRules|
    ensures PaletteRules[j].normal.a == 255 && PaletteRules[j].key.a == 255
    ensures PaletteRules[j].normal.r != PaletteRules[j].key.r
    ensures ClampByte(PaletteRules[j].normal.r) != ClampByte(PaletteRules[j].key.r)
  {
  }

  /** A name a rule matches gets two different opaque colours. */
  lemma PaletteRuleColorsDiffer(name: string, hashed: (Color, Color))
    requires FirstRule(PaletteRules, Text.Lower(name), 0).Some?
    ensures var r := Palette(name, hashed);
      r.0 != r.1 && r.0.a == 255 && r.1.a == 255
  {
    var lower := Text.Lower(name);
    var j := FirstRule(PaletteRules, lower, 0).value;
    RulesDistinctRed(j);
    TintRed(PaletteRules[j].normal, PaletteRules[j].key, Text.Contains(lower, SakhalTag), Text.Contains(lower, EnochTag));
  }
}
