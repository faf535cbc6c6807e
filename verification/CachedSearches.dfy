/**
 The solver's searches and the cache of searches together: whatever a run of the solver searches for is
 narrowed from what is on top of the cache's stack, so that the cache answers as a direct search does.
 */
module CachedSearches {
  import opened Options
  import opened Terms
  import opened Providers
  import opened SolverSearches
  import opened RepositoryProviders
  import Repo = Repositories
  import Cache = SearchCaches

  /** The cache's history holds exactly the solver's searches, over the repository that backs its provider. */
  ghost predicate Logged(allowed: Allowances, log: seq<Cache.Push>, searches: seq<Search>) {
    && |log| == |searches|
    && forall i :: 0 <= i < |log| ==>
      log[i].level == searches[i].level && log[i].name == searches[i].name
      && log[i].query == SearchOf(allowed, searches[i].name, searches[i].constraint)
  }

  /** A subset of the versions is a narrower constraint, pins included. */
  lemma {:induction false} SubsetNarrows(c: set<Version>, wider: set<Version>)
    requires c <= wider && c != {}
    ensures AsConstraint(c).Narrows(AsConstraint(wider))
  {
    if v: Version :| wider == {v} {
      assert c == {v};
    }
  }

  /**
   The cache may be asked whatever the solver searches for: no level on record is above the current
   one, and the search is narrowed from the newest one for the package.
   */
  lemma {:induction false} SolverMayAsk(
    allowed: Allowances, log: seq<Cache.Push>, searches: seq<Search>, n: Name, c: set<Version>, level: nat)
    requires Logged(allowed, log, searches) && c != {}
    requires forall e <- searches :: e.name == n ==> c <= e.constraint
    requires forall e <- searches :: e.level <= level
    ensures Cache.AllBelow(log, level + 1) && Cache.NarrowedFrom(log, n, SearchOf(allowed, n, c))
  {
    assert forall i :: 0 <= i < |searches| ==> searches[i] in searches;
    Cache.NewestIsTop(log, n);
    if Cache.Newest(log, n).Some? {
      var i :| 0 <= i < |log| && log[i] == Cache.Newest(log, n).value;
      SubsetNarrows(c, searches[i].constraint);
    }
  }

  /** What the cache answers then are the versions that the provider offers. */
  lemma {:induction false} AnswersAsProvider(p: Provider, repository: Repository, allowed: Allowances, n: Name,
      c: set<Version>, packages: seq<Repo.Package>)
    requires BackedBy(p, repository, allowed)
    requires packages == Repo.SearchFor(Packages(repository, n), SearchOf(allowed, n, c))
    ensures p.available(n, c) == set x | x in packages :: x.version
  {
  }

  lemma {:induction false} LoggedPush(allowed: Allowances, log: seq<Cache.Push>, searches: seq<Search>,
      push: Cache.Push, e: Search)
    requires Logged(allowed, log, searches)
    requires push.level == e.level && push.name == e.name && push.query == SearchOf(allowed, e.name, e.constraint)
    ensures Logged(allowed, log + [push], searches + [e])
  {
  }

  /** Clearing the cache's levels on a backjump leaves the searches that the solver has left. */
  lemma {:induction false} LoggedAfterBackjump(allowed: Allowances, log: seq<Cache.Push>, searches: seq<Search>,
      level: nat)
    requires Logged(allowed, log, searches)
    ensures Logged(allowed, Cache.Below(log, level + 1), Surviving(searches, level))
    decreases |log|
  {
    if log != [] && log[|log| - 1].level > level {
      LoggedAfterBackjump(allowed, log[..|log| - 1], searches[..|log| - 1], level);
    }
  }

  // ----- the cache in the solver's place

  /** Asks the cache instead of the provider; the search is on record exactly if the cache has pushed its result. */
  method Ask(cache: Cache.DependencyCache, p: Provider, ghost allowed: Allowances, ghost searches: seq<Search>,
      n: Name, c: set<Version>, q: Repo.Query, level: nat) returns (versions: set<Version>, ghost kept: seq<Search>)
    requires cache.Valid() && Logged(allowed, cache.log, searches) && BackedBy(p, cache.repository, allowed)
    requires c != {} && q == SearchOf(allowed, n, c)
    requires forall e <- searches :: e.name == n ==> c <= e.constraint
    requires forall e <- searches :: e.level <= level
    modifies cache
    ensures cache.Valid() && versions == p.available(n, c)
    ensures Logged(allowed, cache.log, kept) && (kept == searches || kept == searches + [Search(level, n, c)])
  {
    SolverMayAsk(allowed, cache.log, searches, n, c, level);
    ghost var before := cache.log;
    var found := cache.Search(n, q, level);
    AnswersAsProvider(p, cache.repository, allowed, n, c, found.packages);
    versions := set x | x in found.packages :: x.version;
    kept := searches;
    if cache.log != before {
      var push := Cache.Push(level, n, q, found);
      LoggedPush(allowed, before, searches, push, Search(level, n, c));
      kept := searches + [Search(level, n, c)];
    }
  }

  /** A backjump: the cache is left with the searches that the solver has left. */
  method GoBack(cache: Cache.DependencyCache, ghost allowed: Allowances, ghost searches: seq<Search>, level: nat,
      top: nat)
    requires cache.Valid() && Logged(allowed, cache.log, searches)
    requires level <= top && forall e <- searches :: e.level <= top
    modifies cache
    ensures cache.Valid() && Logged(allowed, cache.log, Surviving(searches, level))
  {
    forall i | 0 <= i < |cache.log| ensures cache.log[i].level <= top {
      assert searches[i] in searches;
    }
    LoggedAfterBackjump(allowed, cache.log, searches, level);
    cache.ClearAbove(level, top);
  }
}
