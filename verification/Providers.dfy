/**
 What the solver knows about the world: the root package, what each version requires, and which
 versions can be offered for a constraint (`src/poetry/puzzle/provider.py`, as seen by the solver).
 */
module Providers {
  import opened Options
  import opened Terms
  import opened Incompatibilities

  datatype Dependency = Dependency(name: Name, constraint: set<Version>)

  /** A version either does not support the project's Python versions, or has dependencies. */
  datatype Requirements = UnsupportedPython | Requires(dependencies: seq<Dependency>)

  /** `names` and `versions` bound the universe; `versions` may hold versions that are never offered. */
  datatype Provider = Provider(
    root: Name, rootVersion: Version,
    names: set<Name>, versions: set<Version>,
    requirements: (Name, Version) -> Requirements,
    available: (Name, set<Version>) -> set<Version>)
  {
    ghost predicate WellFormed() {
      && root in names && rootVersion in versions
      && requirements(root, rootVersion).Requires?
      && (forall n, v :: requirements(n, v).Requires? ==>
                           forall d <- requirements(n, v).dependencies :: DependencyOk(d))
      && (forall n, c :: available(n, c) <= c)
    }

    predicate DependencyOk(d: Dependency) {
      d.name in names && d.constraint != {} && d.constraint <= versions
    }

    /** The versions from which one is chosen for a dependency; the root package offers itself. */
    function Search(t: Term): set<Version> {
      if t.isRoot then {rootVersion} else available(t.name, t.constraint)
    }

    /** The dependency on exactly one version of a package. */
    function PackageTerm(n: Name, v: Version): Term {
      Term(n, {v}, true, n == root && v == rootVersion)
    }

    function RootFact(): Incompatibility {
      Incompatibility([PackageTerm(root, rootVersion).Inverse()], RootCause)
    }

    function NoVersionsFact(t: Term): Incompatibility {
      Incompatibility([t.(positive := true)], NoVersionsCause)
    }

    function DependencyFact(n: Name, v: Version, d: Dependency): Option<Incompatibility> {
      Build([PackageTerm(n, v), Term(d.name, d.constraint, false, false)], DependencyCause)
    }

    /** `incompatibilities_for`; None stands for the assertion that a self-dependency trips. */
    function Facts(n: Name, v: Version): Option<seq<Incompatibility>> {
      match requirements(n, v)
      case UnsupportedPython => Some([Incompatibility([PackageTerm(n, v)], PythonCause)])
      case Requires(dependencies) => DependencyFacts(n, v, dependencies)
    }

    function DependencyFacts(n: Name, v: Version, ds: seq<Dependency>): Option<seq<Incompatibility>> {
      if ds == [] then Some([])
      else
        match (DependencyFacts(n, v, ds[..|ds| - 1]), DependencyFact(n, v, ds[|ds| - 1]))
        case (Some(facts), Some(fact)) => Some(facts + [fact])
        case _ => None
    }

    // ----- what a solution is

    ghost predicate Rooted(s: Selection) {
      root in s && s[root] == rootVersion
    }

    ghost predicate Requirement(s: Selection, d: Dependency) {
      d.name in s && s[d.name] in d.constraint
    }

    ghost predicate RequirementsMet(s: Selection, n: Name)
      requires n in s
    {
      match requirements(n, s[n])
      case UnsupportedPython => false
      case Requires(dependencies) => forall d <- dependencies :: Requirement(s, d)
    }

    /** No constraint that contains the selected version comes up empty. */
    ghost predicate NeverUnavailable(n: Name, v: Version) {
      forall c :: v in c && n != root ==> available(n, c) != {}
    }

    /** The root is selected, and every selected version is offered and has what it requires. */
    ghost predicate Fulfils(s: Selection) {
      && Rooted(s)
      && (forall n <- s :: RequirementsMet(s, n))
      && (forall n <- s :: Offers(n, s[n]))
    }

    /** A version that is offered for some constraint keeps each constraint that it is in from coming up empty. */
    ghost predicate Coherent() {
      forall n, v :: Offers(n, v) ==> NeverUnavailable(n, v)
    }

    /** The root is selected, and every selected version is obtainable and has what it requires. */
    ghost predicate Solves(s: Selection) {
      && Rooted(s)
      && (forall n <- s :: RequirementsMet(s, n))
      && (forall n <- s :: NeverUnavailable(n, s[n]))
    }

    /** The version is found by some search, or is the root's. */
    ghost predicate Offers(n: Name, v: Version) {
      || (n == root && v == rootVersion)
      || exists c :: v in available(n, c)
    }

    /** A version requires its own package in a version that admits itself. */
    ghost predicate DependsOnItself(n: Name, v: Version) {
      && requirements(n, v).Requires?
      && exists d <- requirements(n, v).dependencies :: d.name == n && v in d.constraint
    }

    // ----- facts and their consequences

    /** The incompatibilities that no conflict resolution was needed for. */
    ghost predicate IsFact(e: Incompatibility) {
      || e == RootFact()
      || (exists n, v :: Facts(n, v).Some? && e in Facts(n, v).value)
      || (exists t: Term :: e == NoVersionsFact(t) && t.name != root && Search(t) == {})
    }

    /**
     The leaves of the derivation graph are facts, and whoever selects the root and makes all terms
     true also violates one of these leaves.
     */
    ghost predicate Entailed(i: Incompatibility) {
      && (forall e <- i.External() :: IsFact(e))
      && (forall s: Selection :: Rooted(s) && Violates(s, i.terms) ==>
                                   exists e <- i.External() :: Violates(s, e.terms))
    }

    /** Terms over the universe; only the root package's own dependency carries the root flag. */
    predicate TermOk(t: Term) {
      && t.name in names && t.constraint != {} && t.constraint <= versions
      && (t.isRoot ==> t.name == root && t.constraint == {rootVersion} && t.positive)
    }

    ghost predicate IncompatibilityOk(i: Incompatibility) {
      && DistinctNames(i.terms)
      && (i == RootFact() || forall t <- i.terms :: TermOk(t))
      && Entailed(i)
    }
  }

  // ----- lemmas

  lemma {:induction false} TermOkUnderIntersection(p: Provider)
    ensures forall t, u :: p.TermOk(t) && p.TermOk(u) && t.name == u.name && t.Intersect(u).Some? ==>
                             p.TermOk(t.Intersect(u).value)
  {
  }

  lemma {:induction false} DependencyFactsMembers(p: Provider, n: Name, v: Version, ds: seq<Dependency>)
    ensures match p.DependencyFacts(n, v, ds)
            case None => exists d <- ds :: p.DependencyFact(n, v, d).None?
            case Some(facts) =>
              && (forall d <- ds :: p.DependencyFact(n, v, d).Some? && p.DependencyFact(n, v, d).value in facts)
              && (forall e <- facts :: exists d <- ds :: p.DependencyFact(n, v, d) == Some(e))
    decreases |ds|
  {
    if ds != [] {
      var init, last := ds[..|ds| - 1], ds[|ds| - 1];
      assert ds == init + [last];
      DependencyFactsMembers(p, n, v, init);
    }
  }

  /** A fact about a dependency: two terms, or one when a package asks for another version of itself. */
  lemma {:induction false} DependencyFactShape(p: Provider, n: Name, v: Version, d: Dependency)
    ensures match p.DependencyFact(n, v, d)
            case None => d.name == n && v in d.constraint
            case Some(e) =>
              && e.cause == DependencyCause
              && if d.name == n then v !in d.constraint && e.terms == [p.PackageTerm(n, v)]
                 else e.terms == [p.PackageTerm(n, v), Term(d.name, d.constraint, false, false)]
  {
    var own, other := p.PackageTerm(n, v), Term(d.name, d.constraint, false, false);
    var terms := [own, other];
    if d.name == n {
      assert terms[..1] == [own] && terms[..1][..0] == [] && terms[..0] == [];
      var nil: seq<Term> := [];
      assert nil + [own] == [own];
      assert Coalesce(terms[..1]) == Some([own]);
      assert Coalesce(terms) == Insert([own], other);
      assert IndexOf([own], n) == 0;
      if v in d.constraint {
        assert {v} - d.constraint == {};
      } else {
        assert {v} - d.constraint == {v};
        assert [own][0 := own] == [own];
      }
    }
  }

  lemma {:induction false} FactsMembers(p: Provider, n: Name, v: Version, e: Incompatibility)
    requires p.WellFormed() && n in p.names && v in p.versions
    requires p.Facts(n, v).Some? && e in p.Facts(n, v).value
    ensures p.IncompatibilityOk(e) && !e.cause.ConflictCause? && !e.cause.NoVersionsCause?
    ensures p.PackageTerm(n, v) in e.terms && 1 <= |e.terms| <= 2
    ensures e.terms[0] == p.PackageTerm(n, v) && (|e.terms| == 2 ==> e.terms[1].name != n)
  {
    assert p.IsFact(e);
    match p.requirements(n, v)
    case UnsupportedPython =>
      assert e.External() == {e};
    case Requires(ds) =>
      DependencyFactsMembers(p, n, v, ds);
      var d :| d in ds && p.DependencyFact(n, v, d) == Some(e);
      assert p.DependencyOk(d);
      DependencyFactShape(p, n, v, d);
      assert e.External() == {e};
  }

  /** No solution violates a fact. */
  lemma {:induction false} SolutionsRespectFacts(p: Provider, s: Selection, e: Incompatibility)
    requires p.Solves(s) && p.IsFact(e)
    ensures !Violates(s, e.terms)
  {
    if e == p.RootFact() {
      assert !e.terms[0].Span().Has(Outcome(s, p.root));
    } else if t: Term :| e == p.NoVersionsFact(t) && t.name != p.root && p.Search(t) == {} {
      assert !t.isRoot ==> p.available(t.name, t.constraint) == {};
      if t.name in s {
        assert p.NeverUnavailable(t.name, s[t.name]);
      }
      assert !e.terms[0].Span().Has(Outcome(s, t.name));
    } else {
      var n, v :| p.Facts(n, v).Some? && e in p.Facts(n, v).value;
      SolutionsRespectRequirements(p, s, n, v, e);
    }
  }

  lemma {:induction false} SolutionsRespectRequirements(p: Provider, s: Selection, n: Name, v: Version,
      e: Incompatibility)
    requires forall m <- s :: p.RequirementsMet(s, m)
    requires p.Facts(n, v).Some? && e in p.Facts(n, v).value
    ensures !Violates(s, e.terms)
  {
    var own := p.PackageTerm(n, v);
    match p.requirements(n, v)
    case UnsupportedPython =>
      assert own in e.terms;
      assert n in s ==> p.RequirementsMet(s, n);
    case Requires(ds) =>
      DependencyFactsMembers(p, n, v, ds);
      var d :| d in ds && p.DependencyFact(n, v, d) == Some(e);
      DependencyFactShape(p, n, v, d);
      assert own in e.terms;
      if n in s && s[n] == v {
        assert p.RequirementsMet(s, n);
        assert p.Requirement(s, d);
        assert d.name != n ==> e.terms[1] in e.terms;
      }
  }

  /** Nothing solves the problem once an entailed incompatibility is violated by every rooted selection. */
  lemma {:induction false} EntailedExcludesSolutions(p: Provider, i: Incompatibility)
    requires p.Entailed(i)
    requires forall s: Selection :: p.Rooted(s) ==> Violates(s, i.terms)
    ensures forall s: Selection :: !p.Solves(s)
  {
    forall s: Selection
      ensures !p.Solves(s)
    {
      if p.Solves(s) {
        var e :| e in i.External() && Violates(s, e.terms);
        SolutionsRespectFacts(p, s, e);
      }
    }
  }
}
