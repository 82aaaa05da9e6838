/** The match scores shared by the three crossroad heuristics: how well a
    crossroad fits a road type, by its default and its connections, with
    a small bonus for the junction shape (internal/tv4p/write.go:240-282,
    cmd/tv4p-road-tool/patch.go:94-125, cmd/tv4p-road-tool/generate.go:308-333). */
module Scoring {
  import opened Model
  import opened Crossroads
  import Text

  /** T-junctions are preferred over X-junctions, and both over other names. */
  function ShapeScore(cr: CrossroadType): (s: int)
    ensures 0 <= s <= 2
    ensures s == 2 <==> Text.HasPrefix(cr.name, TPrefix)
  {
    if Text.HasPrefix(cr.name, TPrefix) then 2
    else if Text.HasPrefix(cr.name, XPrefix) then 1
    else 0
  }

  /** The connection score against a lower-cased road type name: both of
      A and B, one of them, C or D, or no match at all (-1). Connections
      are lower-cased but not trimmed. */
  function ConnScore(cr: CrossroadType, want: string): int {
    var a := Text.Lower(cr.connections.a);
    var b := Text.Lower(cr.connections.b);
    var c := Text.Lower(cr.connections.c);
    var d := Text.Lower(cr.connections.d);
    if a == want && b == want then 100 + ShapeScore(cr)
    else if a == want || b == want then 80 + ShapeScore(cr)
    else if c == want || d == want then 60 + ShapeScore(cr)
    else -1
  }

  /** The key a default is compared under: trimmed and lower-cased. */
  function DefaultKey(cr: CrossroadType): string {
    Text.Lower(Text.TrimSpace(cr.default))
  }

  predicate HasDefault(cr: CrossroadType) {
    !Text.IsBlank(cr.default)
  }

  /** The score with the explicit default on top: a crossroad whose
      default names the road type beats every connection match. */
  function MatchScore(cr: CrossroadType, want: string): int {
    if HasDefault(cr) && DefaultKey(cr) == want then 1000 + ShapeScore(cr)
    else ConnScore(cr, want)
  }

  /** Some side of the crossroad names the road type, lower-cased. */
  predicate Touches(cr: CrossroadType, want: string) {
    exists k :: 0 <= k < 4 && Text.Lower(Sides(cr.connections)[k]) == want
  }

  /** The connection score is -1 exactly when no side names the road
      type, and otherwise falls in one of the three bands. */
  lemma ConnScoreBands(cr: CrossroadType, want: string)
    ensures ConnScore(cr, want) >= 0 <==> Touches(cr, want)
    ensures ConnScore(cr, want) == -1 || 60 <= ConnScore(cr, want) <= 62
      || 80 <= ConnScore(cr, want) <= 82 || 100 <= ConnScore(cr, want) <= 102
    ensures ConnScore(cr, want) >= 100 <==>
      Text.Lower(cr.connections.a) == want && Text.Lower(cr.connections.b) == want
  {
    var s := Sides(cr.connections);
    if ConnScore(cr, want) >= 0 {
      if Text.Lower(s[0]) == want {
        assert Touches(cr, want);
      } else if Text.Lower(s[1]) == want {
        assert Touches(cr, want);
      } else if Text.Lower(s[2]) == want {
        assert Touches(cr, want);
      } else {
        assert Text.Lower(s[3]) == want;
      }
    }
  }

  /** A matching default scores above any connection match; otherwise the
      score is the connection score. */
  lemma MatchScoreBands(cr: CrossroadType, want: string)
    ensures MatchScore(cr, want) >= 1000 <==> HasDefault(cr) && DefaultKey(cr) == want
    ensures MatchScore(cr, want) >= 0 <==> (HasDefault(cr) && DefaultKey(cr) == want) || Touches(cr, want)
  {
    ConnScoreBands(cr, want);
  }
}
