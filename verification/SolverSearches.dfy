/**
 The searches for versions that a solver run makes, as far as they have not been given up by a backjump
 (`src/poetry/mixology/version_solver.py`): they narrow, which is what the cache of searches relies on.
 */
module SolverSearches {
  import opened Terms
  import opened Trails

  /** A search whose result the cache keeps: at which decision level, for which package, for which versions. */
  datatype Search = Search(level: nat, name: Name, constraint: set<Version>)

  /** The assignments up to the search's level already allow no more than what was searched for. */
  ghost predicate StillNarrows(trail: Trail, e: Search) {
    && e.level <= Level(trail, |trail|)
    && Allowed(trail, Cut(trail, e.level), e.name).Within(In(e.constraint))
  }

  ghost predicate SearchesKept(trail: Trail, searches: seq<Search>) {
    && (forall i :: 0 <= i < |searches| ==> StillNarrows(trail, searches[i]))
    && (forall i, j :: 0 <= i < j < |searches| ==> searches[i].level <= searches[j].level)
  }

  /** What is left of the searches when the levels above the given one are cleared. */
  function Surviving(searches: seq<Search>, level: nat): (s: seq<Search>)
    ensures s <= searches
  {
    if searches == [] || searches[|searches| - 1].level <= level then searches
    else Surviving(searches[..|searches| - 1], level)
  }

  lemma {:induction false} SurvivingBelow(searches: seq<Search>, level: nat)
    requires forall i, j :: 0 <= i < j < |searches| ==> searches[i].level <= searches[j].level
    ensures forall i :: 0 <= i < |Surviving(searches, level)| ==> Surviving(searches, level)[i].level <= level
    decreases |searches|
  {
    if searches != [] && searches[|searches| - 1].level > level {
      SurvivingBelow(searches[..|searches| - 1], level);
    }
  }

  lemma {:induction false} NarrowsExtended(trail: Trail, a: Assignment, e: Search)
    requires WellFormedTrail(trail + [a]) && StillNarrows(trail, e)
    ensures StillNarrows(trail + [a], e)
  {
    var longer, c := trail + [a], Cut(trail, e.level);
    CutSplits(trail, e.level);
    if c > 0 {
      CutBelow(longer, e.level, c - 1);
    }
    Extend(trail, a, e.name);
    AllowedShrinks(longer, c, Cut(longer, e.level), e.name);
    WithinTransitive(Allowed(longer, Cut(longer, e.level), e.name), Allowed(longer, c, e.name), In(e.constraint));
  }

  /** Assigning leaves all searches narrowed. */
  lemma {:induction false} SearchesExtend(trail: Trail, a: Assignment, searches: seq<Search>)
    requires WellFormedTrail(trail + [a]) && SearchesKept(trail, searches)
    ensures SearchesKept(trail + [a], searches)
  {
    forall i | 0 <= i < |searches| ensures StillNarrows(trail + [a], searches[i]) {
      NarrowsExtended(trail, a, searches[i]);
    }
  }

  lemma {:induction false} NarrowsShortened(trail: Trail, top: nat, e: Search)
    requires WellFormedTrail(trail) && top <= Level(trail, |trail|) && StillNarrows(trail, e) && e.level <= top
    requires Level(trail[..Cut(trail, top)], Cut(trail, top)) == top
    ensures StillNarrows(trail[..Cut(trail, top)], e)
  {
    var k, c := Cut(trail, top), Cut(trail, e.level);
    CutSplits(trail, e.level);
    if c > 0 {
      CutBelow(trail, top, c - 1);
    }
    CutOfPrefix(trail, k, e.level);
    assert trail[..k][..c] == trail[..c];
    SamePrefix(trail, trail[..k], c, e.name);
  }

  /** A backjump that clears the levels it leaves keeps the other searches narrowed. */
  lemma {:induction false} SearchesShorten(trail: Trail, top: nat, searches: seq<Search>)
    requires WellFormedTrail(trail) && top <= Level(trail, |trail|) && SearchesKept(trail, searches)
    requires Level(trail[..Cut(trail, top)], Cut(trail, top)) == top
    ensures SearchesKept(trail[..Cut(trail, top)], Surviving(searches, top))
  {
    var left := Surviving(searches, top);
    SurvivingBelow(searches, top);
    forall i | 0 <= i < |left| ensures StillNarrows(trail[..Cut(trail, top)], left[i]) {
      assert left[i] == searches[i] && StillNarrows(trail, searches[i]);
      NarrowsShortened(trail, top, left[i]);
    }
  }

  /** A new search is for what the trail allows now, which every earlier search of the package admits. */
  lemma {:induction false} SearchNarrows(trail: Trail, searches: seq<Search>, n: Name, c: set<Version>)
    requires WellFormedTrail(trail) && SearchesKept(trail, searches) && Allowed(trail, |trail|, n) == In(c)
    ensures forall e <- searches :: e.name == n ==> c <= e.constraint
    ensures SearchesKept(trail, searches + [Search(Level(trail, |trail|), n, c)])
  {
    forall e <- searches | e.name == n ensures c <= e.constraint {
      var i :| 0 <= i < |searches| && searches[i] == e;
      assert StillNarrows(trail, searches[i]);
      AllowedShrinks(trail, Cut(trail, e.level), |trail|, n);
      WithinTransitive(In(c), Allowed(trail, Cut(trail, e.level), n), In(e.constraint));
    }
    CutAll(trail, Level(trail, |trail|));
    assert forall i :: 0 <= i < |searches| ==> StillNarrows(trail, searches[i]);
  }
}
