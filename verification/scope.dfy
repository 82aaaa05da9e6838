/** The patch scope (internal/tv4p/scope.go): which parts of the Road Tool
    configuration a patch, extract or generate run touches. A scope is a
    plain string, as in the source; only the three named values mean
    anything. */
module Scope {

  const ScopeAll: string := "all"
  const ScopeRoads: string := "roads"
  const ScopeCrossroads: string := "crossroads"

  /** IncludesRoads: the road types list is processed. */
  predicate IncludesRoads(s: string) {
    s == ScopeAll || s == ScopeRoads
  }

  /** IncludesCrossroads: the crossroad lists are processed. */
  predicate IncludesCrossroads(s: string) {
    s == ScopeAll || s == ScopeCrossroads
  }

  /** The scope table: each named scope selects what its name says, only
      "all" selects both, and every other string selects nothing. */
  lemma ScopeTable(s: string)
    ensures IncludesRoads(s) && IncludesCrossroads(s) <==> s == ScopeAll
    ensures IncludesRoads(s) && !IncludesCrossroads(s) <==> s == ScopeRoads
    ensures !IncludesRoads(s) && IncludesCrossroads(s) <==> s == ScopeCrossroads
    ensures s != ScopeAll && s != ScopeRoads && s != ScopeCrossroads ==>
      !IncludesRoads(s) && !IncludesCrossroads(s)
  {
    assert ScopeRoads != ScopeCrossroads by { assert ScopeRoads[0] != ScopeCrossroads[0]; }
    assert ScopeAll != ScopeRoads by { assert ScopeAll[0] != ScopeRoads[0]; }
    assert ScopeAll != ScopeCrossroads by { assert ScopeAll[0] != ScopeCrossroads[0]; }
  }
}
