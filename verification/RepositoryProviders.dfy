/**
 The solver's provider, when what it offers is what one repository finds. The search rule leaves out
 yanked versions unless they are pinned (PEP 592), and this is exactly what keeps failures of the
 solver from being final: a selection may fulfil everything although the solver has failed.
 */
module RepositoryProviders {
  import opened Options
  import opened Terms
  import opened Incompatibilities
  import opened Providers
  import opened VersionSolvers
  import opened Mixology
  import Repo = Repositories

  type Repository = map<Name, seq<Repo.Package>>

  function Packages(repository: Repository, n: Name): seq<Repo.Package> {
    if n in repository then repository[n] else []
  }

  ghost predicate OneEntryPerVersion(repository: Repository) {
    forall n :: Repo.DistinctVersions(Packages(repository, n))
  }

  /** A set of one version is a pin. */
  ghost function AsConstraint(c: set<Version>): Repo.Constraint {
    if v: Version :| c == {v} then Repo.Exact(v) else Repo.Range(c)
  }

  /** For which packages the project allows or forbids pre-releases; for the others it does not say. */
  type Allowances = map<Name, bool>

  function Allowance(allowed: Allowances, n: Name): Option<bool> {
    if n in allowed then Some(allowed[n]) else None
  }

  ghost function SearchOf(allowed: Allowances, n: Name, c: set<Version>): Repo.Query {
    Repo.Query(AsConstraint(c), Allowance(allowed, n))
  }

  ghost function Offered(repository: Repository, allowed: Allowances, n: Name, c: set<Version>): set<Version> {
    set x | x in Repo.SearchFor(Packages(repository, n), SearchOf(allowed, n, c)) :: x.version
  }

  /** The versions offered for a constraint are those that the repository finds. */
  ghost predicate BackedBy(p: Provider, repository: Repository, allowed: Allowances) {
    forall n, c :: p.available(n, c) == Offered(repository, allowed, n, c)
  }

  /** Yanked, but offered to a pin, as a forbidden pre-release is not. */
  predicate YankedForPins(allowed: Allowances, n: Name, x: Repo.Package) {
    x.yanked && Repo.Query(Repo.Exact(x.version), Allowance(allowed, n)).Admits(x)
  }

  ghost predicate NothingYanked(root: Name, repository: Repository, allowed: Allowances) {
    forall n :: n != root ==> forall x <- Packages(repository, n) :: !YankedForPins(allowed, n, x)
  }

  lemma {:induction false} OfferMembers(packages: seq<Repo.Package>, q: Repo.Query, x: Repo.Package)
    ensures x in Repo.SearchFor(packages, q) ==> x in packages && q.Wants(x) && q.Admits(x)
    ensures x in packages && q.Wants(x) && q.Admits(x) ==> Repo.SearchFor(packages, q) != []
  {
    var found := Repo.Found(packages, q);
    Repo.SortSorts(found, q.allowPrereleases == Some(true));
    Repo.FilterMembers(packages, (y: Repo.Package) => q.Wants(y) && q.Prefers(y), x);
    Repo.FilterMembers(packages, (y: Repo.Package) => q.Wants(y) && !q.Prefers(y), x);
    if x in packages && q.Wants(x) && q.Admits(x) {
      assert found != [];
      assert found[0] in Repo.SearchFor(packages, q);
    }
  }

  /** Without yanked versions, what is offered once is offered for every constraint it is in. */
  lemma {:induction false} UnyankedIsCoherent(p: Provider, repository: Repository, allowed: Allowances)
    requires BackedBy(p, repository, allowed) && NothingYanked(p.root, repository, allowed)
    ensures p.Coherent()
  {
    forall n, v, c | p.Offers(n, v) && v in c && n != p.root
      ensures p.available(n, c) != {}
    {
      var packages := Packages(repository, n);
      var d :| v in p.available(n, d);
      var x :| x in Repo.SearchFor(packages, SearchOf(allowed, n, d)) && x.version == v;
      OfferMembers(packages, SearchOf(allowed, n, d), x);
      OfferMembers(packages, SearchOf(allowed, n, c), x);
      var y := Repo.SearchFor(packages, SearchOf(allowed, n, c))[0];
      assert y.version in p.available(n, c);
    }
  }

  lemma {:induction false} FreshVersion(packages: seq<Repo.Package>, v: Version) returns (w: Version)
    ensures w != v && forall x <- packages :: x.version != w
  {
    w := v + 1;
    for k := 0 to |packages|
      invariant w > v && forall x <- packages[..k] :: x.version < w
    {
      assert packages[..k + 1] == packages[..k] + [packages[k]];
      if packages[k].version >= w {
        w := packages[k].version + 1;
      }
    }
    assert packages[..|packages|] == packages;
  }

  /** A yanked version is offered when pinned, but not for a range in which it is alone. */
  lemma {:induction false} YankedIsIncoherent(p: Provider, repository: Repository, allowed: Allowances, n: Name,
      x: Repo.Package)
    requires BackedBy(p, repository, allowed) && OneEntryPerVersion(repository)
    requires n != p.root && x in Packages(repository, n) && YankedForPins(allowed, n, x)
    ensures !p.Coherent()
  {
    var v := x.version;
    var w := FreshVersion(Packages(repository, n), v);
    YankedOfferedToPinsOnly(repository, allowed, n, x, w);
    assert v in p.available(n, {v}) && p.Offers(n, v);
    var c := {v, w};
    assert v in c && p.available(n, c) == {};
    assert !p.NeverUnavailable(n, v);
  }

  /** For one project: what is offered once is always offered exactly when nothing is yanked. */
  lemma {:induction false} CoherentExactlyWhenNothingYanked(p: Provider, repository: Repository, allowed: Allowances)
    requires BackedBy(p, repository, allowed) && OneEntryPerVersion(repository)
    ensures p.Coherent() <==> NothingYanked(p.root, repository, allowed)
  {
    if NothingYanked(p.root, repository, allowed) {
      UnyankedIsCoherent(p, repository, allowed);
    } else {
      var n, x :| n != p.root && x in Packages(repository, n) && YankedForPins(allowed, n, x);
      YankedIsIncoherent(p, repository, allowed, n, x);
    }
  }

  /** Over a repository without yanked versions no selection fulfils all requirements after a failure. */
  lemma {:induction false} FailureIsFinal(p: Provider, repository: Repository, allowed: Allowances, r: Result)
    requires BackedBy(p, repository, allowed) && NothingYanked(p.root, repository, allowed)
    requires Answers(p, r) && r.Failed?
    ensures forall s: Selection :: !p.Fulfils(s)
  {
    UnyankedIsCoherent(p, repository, allowed);
    AnswersMeaning(p, r);
    forall s: Selection
      ensures !p.Fulfils(s)
    {
      assert p.Fulfils(s) ==> p.Solves(s);
    }
  }

  // ----- failures that are not final

  /** The project that needs nothing but version `v` or `w` of package `n`. */
  ghost function Demanding(
    root: Name, rootVersion: Version, repository: Repository, allowed: Allowances,
    n: Name, v: Version, w: Version): Provider
  {
    Provider(
      root, rootVersion, {root, n}, {rootVersion, v, w},
      (m: Name, u: Version) =>
        Requires(if m == root && u == rootVersion then [Dependency(n, {v, w})] else []),
      (m: Name, c: set<Version>) => Offered(repository, allowed, m, c))
  }

  /** What the solver learns about that project: nothing is found for what its root needs. */
  ghost function NothingFound(p: Provider, n: Name, v: Version, w: Version): Incompatibility {
    Incompatibility(
      [p.PackageTerm(p.root, p.rootVersion)],
      ConflictCause(
        p.NoVersionsFact(Term(n, {v, w}, true, false)),
        Incompatibility([p.PackageTerm(p.root, p.rootVersion), Term(n, {v, w}, false, false)], DependencyCause)))
  }

  /**
   The yanked version `v` and a version `w` that does not exist: the search for either finds nothing, so that
   failing is a right answer of the solver, and yet selecting `v`, which is offered to a pin, fulfils everything.
   */
  lemma {:induction false} YankedFailureIsNotFinal(
    root: Name, rootVersion: Version, repository: Repository, allowed: Allowances, n: Name, x: Repo.Package, w: Version)
    requires n != root && x in Packages(repository, n) && YankedForPins(allowed, n, x) && OneEntryPerVersion(repository)
    requires w != x.version && forall y <- Packages(repository, n) :: y.version != w
    ensures var p := Demanding(root, rootVersion, repository, allowed, n, x.version, w);
            && p.WellFormed() && BackedBy(p, repository, allowed)
            && Answers(p, Failed(NothingFound(p, n, x.version, w)))
            && p.Fulfils(map[root := rootVersion, n := x.version])
  {
    var v, packages := x.version, Packages(repository, n);
    var p, c := Demanding(root, rootVersion, repository, allowed, n, x.version, w), {x.version, w};
    forall m, d ensures Offered(repository, allowed, m, d) <= d {
      OffersAllowed(repository, allowed, m, d);
    }
    YankedOfferedToPinsOnly(repository, allowed, n, x, w);
    assert p.available(n, {v}) == Offered(repository, allowed, n, {v}) && p.available(n, c) == {};
    NothingFoundRefutes(p, n, v, w);
    var s: Selection := map[root := rootVersion, n := v];
    assert v in p.available(n, {v});
    assert p.requirements(root, rootVersion).dependencies == [Dependency(n, c)];
    assert p.Requirement(s, Dependency(n, c));
  }

  lemma {:induction false} OffersAllowed(repository: Repository, allowed: Allowances, n: Name, c: set<Version>)
    ensures Offered(repository, allowed, n, c) <= c
  {
    forall x <- Repo.SearchFor(Packages(repository, n), SearchOf(allowed, n, c)) ensures x.version in c {
      OfferMembers(Packages(repository, n), SearchOf(allowed, n, c), x);
    }
  }

  lemma {:induction false} YankedOfferedToPinsOnly(repository: Repository, allowed: Allowances, n: Name,
      x: Repo.Package, w: Version)
    requires x in Packages(repository, n) && YankedForPins(allowed, n, x) && OneEntryPerVersion(repository)
    requires w != x.version && forall y <- Packages(repository, n) :: y.version != w
    ensures x.version in Offered(repository, allowed, n, {x.version})
    ensures Offered(repository, allowed, n, {x.version, w}) == {}
  {
    var packages, pin, c := Packages(repository, n), {x.version}, {x.version, w};
    assert AsConstraint(pin) == Repo.Exact(x.version);
    OfferMembers(packages, SearchOf(allowed, n, pin), x);
    var first := Repo.SearchFor(packages, SearchOf(allowed, n, pin))[0];
    OfferMembers(packages, SearchOf(allowed, n, pin), first);
    assert w in c && x.version in c;
    assert AsConstraint(c) == Repo.Range(c);
    forall y ensures y !in Repo.SearchFor(packages, SearchOf(allowed, n, c)) {
      OfferMembers(packages, SearchOf(allowed, n, c), y);
    }
  }

  lemma {:induction false} NothingFoundRefutes(p: Provider, n: Name, v: Version, w: Version)
    requires n != p.root && p.available(n, {v, w}) == {}
    requires p.requirements(p.root, p.rootVersion) == Requires([Dependency(n, {v, w})])
    ensures Refutes(p, NothingFound(p, n, v, w))
  {
    var reason, t := NothingFound(p, n, v, w), Term(n, {v, w}, true, false);
    var noVersions, needs := reason.cause.conflict, reason.cause.other;
    assert reason.External() == {noVersions, needs};
    assert noVersions == p.NoVersionsFact(t) && p.Search(t) == {};
    var ds := [Dependency(n, {v, w})];
    assert ds[..0] == [] && p.DependencyFacts(p.root, p.rootVersion, []) == Some([]);
    assert p.DependencyFact(p.root, p.rootVersion, ds[|ds| - 1]) == Some(needs);
    assert p.DependencyFacts(p.root, p.rootVersion, ds) == Some([] + [needs]);
    assert [] + [needs] == [needs];
    assert p.Facts(p.root, p.rootVersion) == Some([needs]);
    assert p.IsFact(noVersions) && p.IsFact(needs);
    forall s: Selection | p.Rooted(s) ensures exists e <- reason.External() :: Violates(s, e.terms) {
      assert Violates(s, noVersions.terms) || Violates(s, needs.terms);
    }
  }

  /** Whatever project over the repository failing is a right answer for, no selection fulfils its requirements. */
  ghost predicate FailuresAreFinal(root: Name, repository: Repository, allowed: Allowances) {
    forall p: Provider, r: Result, s: Selection ::
      p.WellFormed() && p.root == root && BackedBy(p, repository, allowed) && Answers(p, r) && r.Failed?
      ==> !p.Fulfils(s)
  }

  /** Failures are final for all projects over a repository if and only if nothing in it is yanked. */
  lemma {:induction false} FailuresAreFinalExactlyWhenNothingYanked(root: Name, repository: Repository,
      allowed: Allowances)
    requires OneEntryPerVersion(repository)
    ensures FailuresAreFinal(root, repository, allowed) <==> NothingYanked(root, repository, allowed)
  {
    if NothingYanked(root, repository, allowed) {
      forall p: Provider, r: Result, s: Selection
        | p.WellFormed() && p.root == root && BackedBy(p, repository, allowed) && Answers(p, r) && r.Failed?
        ensures !p.Fulfils(s)
      {
        FailureIsFinal(p, repository, allowed, r);
      }
    } else {
      var n, x :| n != root && x in Packages(repository, n) && YankedForPins(allowed, n, x);
      var w := FreshVersion(Packages(repository, n), x.version);
      YankedFailureIsNotFinal(root, 0, repository, allowed, n, x, w);
      var p := Demanding(root, 0, repository, allowed, n, x.version, w);
      assert Failed(NothingFound(p, n, x.version, w)).Failed?;
    }
  }
}
