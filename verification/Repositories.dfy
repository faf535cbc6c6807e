/**
 Which packages a repository finds for a constraint (`find_packages` in
 `src/poetry/repositories/repository.py`) and the order in which the provider offers them
 (`search_for` in `src/poetry/puzzle/provider.py`), for one package name in one repository.
 */
module Repositories {
  import opened Options

  type Version = nat

  datatype Package = Package(version: Version, yanked: bool, prerelease: bool, directOrigin: bool)

  /** A pinned version, or anything else. */
  datatype Constraint = Exact(version: Version) | Range(versions: set<Version>) {
    predicate Allows(v: Version) {
      match this
      case Exact(w) => v == w
      case Range(vs) => v in vs
    }

    /** The constraint became this one by intersection with others. */
    ghost predicate Narrows(wider: Constraint) {
      && (wider.Exact? ==> this == wider)
      && forall v :: Allows(v) ==> wider.Allows(v)
    }
  }

  /** `allowPrereleases` is None where the dependency does not say. */
  datatype Query = Query(constraint: Constraint, allowPrereleases: Option<bool>) {
    predicate Wants(p: Package) {
      && constraint.Allows(p.version)
      && (!p.yanked || constraint.Exact?)
    }

    predicate Prefers(p: Package) {
      !p.prerelease || allowPrereleases == Some(true) || p.directOrigin
    }

    /** As a last resort, or better. */
    predicate Admits(p: Package) {
      Prefers(p) || allowPrereleases != Some(false)
    }
  }

  function Filter(packages: seq<Package>, keep: Package -> bool): seq<Package> {
    if packages == [] then []
    else if keep(packages[0]) then [packages[0]] + Filter(packages[1..], keep)
    else Filter(packages[1..], keep)
  }

  /** Pre-releases count if allowed or of direct origin; or if there is nothing else and they are not forbidden. */
  function Found(packages: seq<Package>, q: Query): seq<Package> {
    var eligible := Filter(packages, (p: Package) => q.Wants(p) && q.Prefers(p));
    if eligible == [] && q.allowPrereleases != Some(false)
    then Filter(packages, (p: Package) => q.Wants(p) && !q.Prefers(p))
    else eligible
  }

  /** What `find_packages` promises: a yanked version only to a pin, and a pre-release only where nothing else fits. */
  ghost predicate RightlyFound(all: seq<Package>, q: Query, r: seq<Package>) {
    var fits := (p: Package) =>
      match q.constraint
      case Exact(v) => p.version == v
      case Range(vs) => p.version in vs && !p.yanked;
    var regular := (p: Package) => !p.prerelease || p.directOrigin || q.allowPrereleases == Some(true);
    r == if exists p <- all :: fits(p) && regular(p) then Filter(all, (p: Package) => fits(p) && regular(p))
         else if q.allowPrereleases == Some(false) then []
         else Filter(all, fits)
  }

  lemma {:induction false} FoundExactly(all: seq<Package>, q: Query)
    ensures RightlyFound(all, q, Found(all, q))
  {
    var fits := (p: Package) =>
      match q.constraint
      case Exact(v) => p.version == v
      case Range(vs) => p.version in vs && !p.yanked;
    var regular := (p: Package) => !p.prerelease || p.directOrigin || q.allowPrereleases == Some(true);
    FilterSame(all, (p: Package) => q.Wants(p) && q.Prefers(p), (p: Package) => fits(p) && regular(p));
    var eligible := Filter(all, (p: Package) => fits(p) && regular(p));
    forall p ensures p in eligible <==> p in all && fits(p) && regular(p) {
      FilterMembers(all, (p: Package) => fits(p) && regular(p), p);
    }
    if eligible == [] {
      FilterSame(all, (p: Package) => q.Wants(p) && !q.Prefers(p), fits);
    } else {
      assert eligible[0] in eligible;
    }
  }

  method FindPackages(all: seq<Package>, q: Query) returns (r: seq<Package>)
    ensures r == Found(all, q) && RightlyFound(all, q, r)
  {
    FoundExactly(all, q);
    var packages: seq<Package>, ignored: seq<Package> := [], [];
    var want := (p: Package) => q.Wants(p) && q.Prefers(p);
    var fallback := (p: Package) => q.Wants(p) && !q.Prefers(p);
    for k := 0 to |all|
      invariant packages + Filter(all[k..], want) == Filter(all, want)
      invariant ignored + Filter(all[k..], fallback) == Filter(all, fallback)
    {
      var package := all[k];
      assert all[k..][1..] == all[k + 1..];
      if q.constraint.Allows(package.version) {
        if package.yanked && q.constraint.Range? {
          continue;
        }
        if package.prerelease && q.allowPrereleases != Some(true) && !package.directOrigin {
          ignored := ignored + [package];
          continue;
        }
        packages := packages + [package];
      }
    }
    if q.allowPrereleases == Some(false) {
      return packages;
    }
    r := if packages == [] then ignored else packages;
  }

  // ----- the order of the offer

  /** `a` is not offered after `b`: unyanked first, then releases, then higher versions. */
  predicate NotAfter(a: Package, b: Package, allow: bool) {
    if a.yanked != b.yanked then !a.yanked
    else
      var (x, y) := (!a.prerelease && !allow, !b.prerelease && !allow);
      if x != y then x else a.version >= b.version
  }

  function InsertPackage(p: Package, sorted: seq<Package>, allow: bool): seq<Package> {
    if sorted == [] then [p]
    else if NotAfter(p, sorted[0], allow) then [p] + sorted
    else [sorted[0]] + InsertPackage(p, sorted[1..], allow)
  }

  function Sort(packages: seq<Package>, allow: bool): seq<Package> {
    if packages == [] then [] else InsertPackage(packages[0], Sort(packages[1..], allow), allow)
  }

  function SearchFor(packages: seq<Package>, q: Query): seq<Package> {
    Sort(Found(packages, q), q.allowPrereleases == Some(true))
  }

  // ----- lemmas about filtering and sorting

  lemma {:induction false} FilterMembers(packages: seq<Package>, keep: Package -> bool, p: Package)
    ensures p in Filter(packages, keep) <==> p in packages && keep(p)
  {
    if packages != [] {
      FilterMembers(packages[1..], keep, p);
      assert packages == [packages[0]] + packages[1..];
    }
  }

  /** Filtering keeps the order, and each package as often as it occurs. */
  lemma {:induction false} FilterAppends(packages: seq<Package>, keep: Package -> bool, p: Package)
    ensures Filter([], keep) == []
    ensures Filter(packages + [p], keep) == Filter(packages, keep) + if keep(p) then [p] else []
  {
    if packages != [] {
      assert (packages + [p])[1..] == packages[1..] + [p];
      FilterAppends(packages[1..], keep, p);
    }
  }

  lemma {:induction false} FilterTwice(packages: seq<Package>, f: Package -> bool, g: Package -> bool)
    ensures Filter(Filter(packages, f), g) == Filter(packages, (p: Package) => f(p) && g(p))
  {
    if packages != [] {
      FilterTwice(packages[1..], f, g);
      if f(packages[0]) {
        assert ([packages[0]] + Filter(packages[1..], f))[1..] == Filter(packages[1..], f);
      }
    }
  }

  lemma {:induction false} FilterSame(packages: seq<Package>, f: Package -> bool, g: Package -> bool)
    requires forall p <- packages :: f(p) <==> g(p)
    ensures Filter(packages, f) == Filter(packages, g)
  {
    if packages != [] {
      assert packages[0] in packages && forall p <- packages[1..] :: p in packages;
      FilterSame(packages[1..], f, g);
    }
  }

  ghost predicate SortedBy(packages: seq<Package>, allow: bool) {
    forall i, j :: 0 <= i < j < |packages| ==> NotAfter(packages[i], packages[j], allow)
  }

  lemma {:induction false} InsertSorts(p: Package, sorted: seq<Package>, allow: bool)
    requires SortedBy(sorted, allow)
    ensures SortedBy(InsertPackage(p, sorted, allow), allow)
    ensures forall x :: x in InsertPackage(p, sorted, allow) <==> x == p || x in sorted
  {
    if sorted != [] && !NotAfter(p, sorted[0], allow) {
      InsertSorts(p, sorted[1..], allow);
      var rest := InsertPackage(p, sorted[1..], allow);
      assert forall x :: x in sorted <==> x == sorted[0] || x in sorted[1..];
      forall j | 0 <= j < |rest|
        ensures NotAfter(sorted[0], rest[j], allow)
      {
        assert rest[j] in rest;
      }
    }
  }

  lemma {:induction false} SortSorts(packages: seq<Package>, allow: bool)
    ensures SortedBy(Sort(packages, allow), allow)
    ensures forall x :: x in Sort(packages, allow) <==> x in packages
  {
    if packages != [] {
      SortSorts(packages[1..], allow);
      InsertSorts(packages[0], Sort(packages[1..], allow), allow);
      assert packages == [packages[0]] + packages[1..];
    }
  }

  lemma {:induction false} InsertCounts(p: Package, sorted: seq<Package>, allow: bool)
    ensures multiset(InsertPackage(p, sorted, allow)) == multiset(sorted) + multiset{p}
  {
    if sorted != [] {
      assert sorted == [sorted[0]] + sorted[1..];
      InsertCounts(p, sorted[1..], allow);
    }
  }

  lemma {:induction false} SortCounts(packages: seq<Package>, allow: bool)
    ensures multiset(Sort(packages, allow)) == multiset(packages)
  {
    if packages != [] {
      assert packages == [packages[0]] + packages[1..];
      SortCounts(packages[1..], allow);
      InsertCounts(packages[0], Sort(packages[1..], allow), allow);
    }
  }

  /**
   The provider offers what was found: yanked versions last; of the others, and of these, releases first unless
   pre-releases are allowed; and otherwise higher versions first.
   */
  lemma {:induction false} OfferedInOrder(packages: seq<Package>, q: Query, i: nat, j: nat)
    requires i < j < |SearchFor(packages, q)|
    ensures multiset(SearchFor(packages, q)) == multiset(Found(packages, q))
    ensures var a, b := SearchFor(packages, q)[i], SearchFor(packages, q)[j];
            && (a.yanked ==> b.yanked)
            && (a.yanked == b.yanked && q.allowPrereleases != Some(true) && a.prerelease ==> b.prerelease)
            && (a.yanked == b.yanked && (q.allowPrereleases == Some(true) || a.prerelease == b.prerelease) ==>
                  a.version >= b.version)
  {
    var allow := q.allowPrereleases == Some(true);
    SortSorts(Found(packages, q), allow);
    SortCounts(Found(packages, q), allow);
    assert NotAfter(SearchFor(packages, q)[i], SearchFor(packages, q)[j], allow);
  }

  lemma {:induction false} FilterKeepsSorted(sorted: seq<Package>, keep: Package -> bool, allow: bool)
    requires SortedBy(sorted, allow)
    ensures SortedBy(Filter(sorted, keep), allow)
  {
    if sorted != [] {
      FilterKeepsSorted(sorted[1..], keep, allow);
      forall p | p in Filter(sorted[1..], keep)
        ensures NotAfter(sorted[0], p, allow)
      {
        FilterMembers(sorted[1..], keep, p);
      }
    }
  }

  lemma {:induction false} InsertFiltered(p: Package, sorted: seq<Package>, keep: Package -> bool, allow: bool)
    requires SortedBy(sorted, allow)
    ensures Filter(InsertPackage(p, sorted, allow), keep) ==
            if keep(p) then InsertPackage(p, Filter(sorted, keep), allow) else Filter(sorted, keep)
  {
    if sorted == [] {
      assert [p][1..] == [];
    } else if NotAfter(p, sorted[0], allow) {
      assert ([p] + sorted)[1..] == sorted;
      var kept := Filter(sorted, keep);
      if kept != [] {
        FilterMembers(sorted, keep, kept[0]);
        assert NotAfter(p, kept[0], allow);
      }
    } else {
      InsertFiltered(p, sorted[1..], keep, allow);
      var rest := InsertPackage(p, sorted[1..], allow);
      assert ([sorted[0]] + rest)[1..] == rest;
      var kept := Filter(sorted[1..], keep);
      assert ([sorted[0]] + kept)[1..] == kept;
      if !keep(sorted[0]) {
        assert Filter(sorted, keep) == kept;
      }
    }
  }

  /** Filtering a sorted offer and sorting a filtered one come to the same. */
  lemma {:induction false} SortFiltered(packages: seq<Package>, keep: Package -> bool, allow: bool)
    ensures Filter(Sort(packages, allow), keep) == Sort(Filter(packages, keep), allow)
  {
    if packages != [] {
      SortFiltered(packages[1..], keep, allow);
      SortSorts(packages[1..], allow);
      InsertFiltered(packages[0], Sort(packages[1..], allow), keep, allow);
      if keep(packages[0]) {
        assert ([packages[0]] + Filter(packages[1..], keep))[1..] == Filter(packages[1..], keep);
      }
    }
  }

  // ----- narrowing a search

  /** A repository lists each version once. */
  ghost predicate DistinctVersions(packages: seq<Package>) {
    forall p <- packages, q <- packages :: p.version == q.version ==> p == q
  }

  /** Where the narrower search wants exactly the wanted packages that it admits, it finds what filtering leaves. */
  lemma {:induction false} FoundFiltered(packages: seq<Package>, q: Query, narrow: Constraint)
    requires forall p <- packages :: q.(constraint := narrow).Wants(p) <==> q.Wants(p) && narrow.Allows(p.version)
    requires Filter(Found(packages, q), (p: Package) => narrow.Allows(p.version)) != []
    ensures Filter(Found(packages, q), (p: Package) => narrow.Allows(p.version))
            == Found(packages, q.(constraint := narrow))
  {
    var n := q.(constraint := narrow);
    var allows := (p: Package) => narrow.Allows(p.version);
    var want := (p: Package) => q.Wants(p) && q.Prefers(p);
    var fallback := (p: Package) => q.Wants(p) && !q.Prefers(p);
    FilterTwice(packages, want, allows);
    FilterTwice(packages, fallback, allows);
    FilterSame(packages, (p: Package) => want(p) && allows(p), (p: Package) => n.Wants(p) && n.Prefers(p));
    FilterSame(packages, (p: Package) => fallback(p) && allows(p), (p: Package) => n.Wants(p) && !n.Prefers(p));
    if Filter(packages, want) == [] {
      NothingFound(packages, want, allows);
    }
  }

  /** What is left of an offer is in the repository, wanted, and admitted. */
  lemma {:induction false} LeftOver(packages: seq<Package>, q: Query, narrow: Constraint) returns (some: Package)
    requires Filter(Found(packages, q), (p: Package) => narrow.Allows(p.version)) != []
    ensures some in packages && q.Wants(some) && narrow.Allows(some.version)
    ensures q.Prefers(some) || q.allowPrereleases != Some(false)
  {
    var allows := (p: Package) => narrow.Allows(p.version);
    some := Filter(Found(packages, q), allows)[0];
    FilterMembers(Found(packages, q), allows, some);
    FilterMembers(packages, (p: Package) => q.Wants(p) && q.Prefers(p), some);
    FilterMembers(packages, (p: Package) => q.Wants(p) && !q.Prefers(p), some);
  }

  lemma {:induction false} FoundNarrowed(packages: seq<Package>, q: Query, narrow: Constraint)
    requires DistinctVersions(packages) && narrow.Narrows(q.constraint)
    requires Filter(Found(packages, q), (p: Package) => narrow.Allows(p.version)) != []
    ensures Filter(Found(packages, q), (p: Package) => narrow.Allows(p.version))
            == Found(packages, q.(constraint := narrow))
  {
    var some := LeftOver(packages, q, narrow);
    forall p <- packages
      ensures q.(constraint := narrow).Wants(p) <==> q.Wants(p) && narrow.Allows(p.version)
    {
      if narrow.Exact? && narrow.Allows(p.version) {
        assert p == some;
      }
    }
    FoundFiltered(packages, q, narrow);
  }

  lemma {:induction false} NothingFound(packages: seq<Package>, f: Package -> bool, g: Package -> bool)
    requires Filter(packages, f) == []
    ensures Filter(packages, (p: Package) => f(p) && g(p)) == []
  {
    FilterTwice(packages, f, g);
  }

  /**
   Once something is left of an earlier offer, that is exactly what a fresh search for the narrower
   constraint finds, in the same order, pre-releases and yanked versions included.
   */
  lemma {:induction false} SearchNarrowed(packages: seq<Package>, q: Query, narrow: Constraint)
    requires DistinctVersions(packages) && narrow.Narrows(q.constraint)
    requires Filter(SearchFor(packages, q), (p: Package) => narrow.Allows(p.version)) != []
    ensures Filter(SearchFor(packages, q), (p: Package) => narrow.Allows(p.version))
            == SearchFor(packages, q.(constraint := narrow))
  {
    var allows := (p: Package) => narrow.Allows(p.version);
    SortFiltered(Found(packages, q), allows, q.allowPrereleases == Some(true));
    FoundNarrowed(packages, q, narrow);
  }

  /** The filtered earlier offer may stand for a fresh search. */
  ghost predicate NarrowingRight(packages: seq<Package>, q: Query, narrow: Constraint) {
    var kept := Filter(SearchFor(packages, q), (p: Package) => narrow.Allows(p.version));
    kept != [] ==> kept == SearchFor(packages, q.(constraint := narrow))
  }

  /** A pin became a range, and the pinned version is one that only pins get. */
  ghost predicate UnpinsYanked(packages: seq<Package>, q: Query, narrow: Constraint) {
    && q.constraint.Exact? && narrow.Range? && narrow.Allows(q.constraint.version)
    && exists p <- packages ::
         p.version == q.constraint.version && p.yanked && q.Admits(p)
  }

  /** Narrowing goes wrong in one case only: a pin becomes a range, and the pinned version is yanked. */
  lemma {:induction false} NarrowingRightExactly(packages: seq<Package>, q: Query, narrow: Constraint)
    requires DistinctVersions(packages) && forall v :: narrow.Allows(v) ==> q.constraint.Allows(v)
    ensures NarrowingRight(packages, q, narrow) <==> !UnpinsYanked(packages, q, narrow)
  {
    var allows := (p: Package) => narrow.Allows(p.version);
    SortFiltered(Found(packages, q), allows, q.allowPrereleases == Some(true));
    var kept := Filter(SearchFor(packages, q), allows);
    if UnpinsYanked(packages, q, narrow) {
      UnpinnedIsLost(packages, q, narrow);
    } else if kept != [] && Filter(Found(packages, q), allows) != [] {
      var some := LeftOver(packages, q, narrow);
      forall p <- packages
        ensures q.(constraint := narrow).Wants(p) <==> q.Wants(p) && narrow.Allows(p.version)
      {
        if narrow.Allows(p.version) && (narrow.Exact? || q.constraint.Exact?) {
          assert narrow.Exact? ==> q.constraint.Allows(narrow.version);
          assert p == some;
        }
      }
      FoundFiltered(packages, q, narrow);
    }
  }

  /** The yanked version is still in the filtered offer, and a fresh search does not find it. */
  lemma {:induction false} UnpinnedIsLost(packages: seq<Package>, q: Query, narrow: Constraint)
    requires DistinctVersions(packages) && UnpinsYanked(packages, q, narrow)
    ensures !NarrowingRight(packages, q, narrow)
  {
    var n, allow := q.(constraint := narrow), q.allowPrereleases == Some(true);
    var allows := (p: Package) => narrow.Allows(p.version);
    var p :| p in packages && p.version == q.constraint.version && p.yanked
      && q.Admits(p);
    PinnedIsFound(packages, q, p);
    SortSorts(Found(packages, q), allow);
    FilterMembers(SearchFor(packages, q), allows, p);
    SortSorts(Found(packages, n), allow);
    FilterMembers(packages, (x: Package) => n.Wants(x) && n.Prefers(x), p);
    FilterMembers(packages, (x: Package) => n.Wants(x) && !n.Prefers(x), p);
  }

  lemma {:induction false} PinnedIsFound(packages: seq<Package>, q: Query, p: Package)
    requires DistinctVersions(packages) && p in packages && q.constraint == Exact(p.version)
    requires q.Admits(p)
    ensures p in Found(packages, q)
  {
    var want := (x: Package) => q.Wants(x) && q.Prefers(x);
    FilterMembers(packages, want, p);
    FilterMembers(packages, (x: Package) => q.Wants(x) && !q.Prefers(x), p);
    if Filter(packages, want) != [] {
      FilterMembers(packages, want, Filter(packages, want)[0]);
      assert Filter(packages, want)[0] == p;
    }
  }

  /** One such case: a yanked version 1, pinned and then asked for as a range. */
  lemma {:induction false} UnpinningBreaksNarrowing()
    ensures var packages, q := [Package(1, true, false, false)], Query(Exact(1), None);
            UnpinsYanked(packages, q, Range({1})) && !NarrowingRight(packages, q, Range({1}))
  {
    var packages, q := [Package(1, true, false, false)], Query(Exact(1), None);
    assert packages[0] in packages;
    UnpinnedIsLost(packages, q, Range({1}));
  }
}
