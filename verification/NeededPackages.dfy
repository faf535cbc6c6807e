/**
 Why the solver selects nothing superfluous: only what some selected version requires comes to be required on
 the trail, and only what is required is decided (`src/poetry/mixology/version_solver.py`).
 */
module NeededPackages {
  import opened Options
  import opened Terms
  import opened Incompatibilities
  import opened Providers
  import opened Trails
  import opened Resolution
  import opened SolverStates

  /** The selected version of `n` requires the selected package `m`. */
  ghost predicate Asks(p: Provider, s: Selection, n: Name, m: Name) {
    && n in s && m in s && p.requirements(n, s[n]).Requires?
    && exists d <- p.requirements(n, s[n]).dependencies :: d.name == m
  }

  /** A chain of requirements of selected versions, from the root on. */
  ghost predicate Chain(p: Provider, s: Selection, path: seq<Name>) {
    && path != [] && path[0] == p.root
    && forall i :: 0 <= i < |path| - 1 ==> Asks(p, s, path[i], path[i + 1])
  }

  ghost predicate Reaches(p: Provider, s: Selection, n: Name) {
    exists path :: Chain(p, s, path) && path[|path| - 1] == n
  }

  ghost predicate OnlyNeeded(p: Provider, s: Selection) {
    forall n <- s :: Reaches(p, s, n)
  }

  lemma {:induction false} ReachesOn(p: Provider, s: Selection, n: Name, m: Name)
    requires Reaches(p, s, n) && Asks(p, s, n, m)
    ensures Reaches(p, s, m)
  {
    var path :| Chain(p, s, path) && path[|path| - 1] == n;
    var longer := path + [m];
    forall i | 0 <= i < |longer| - 1 ensures Asks(p, s, longer[i], longer[i + 1]) {
      assert i < |path| - 1 ==> Asks(p, s, path[i], path[i + 1]);
    }
    assert Chain(p, s, longer);
  }

  /** The part of the selection that chains lead to. */
  ghost function Needed(p: Provider, s: Selection): Selection {
    map n | n in s && Reaches(p, s, n) :: s[n]
  }

  /** It has everything that it requires. */
  lemma {:induction false} NeededIsComplete(p: Provider, s: Selection)
    requires p.Rooted(s) && forall n <- s :: p.RequirementsMet(s, n)
    ensures p.Rooted(Needed(p, s)) && forall n <- Needed(p, s) :: p.RequirementsMet(Needed(p, s), n)
  {
    var needed := Needed(p, s);
    assert Chain(p, s, [p.root]);
    forall n <- needed ensures p.RequirementsMet(needed, n) {
      assert p.RequirementsMet(s, n);
      forall d <- p.requirements(n, s[n]).dependencies ensures p.Requirement(needed, d) {
        assert p.Requirement(s, d);
        ReachesOn(p, s, n, d.name);
      }
    }
  }

  /** The first assignments are true of the selection. */
  ghost predicate TrueOf(trail: Trail, k: nat, s: Selection)
    requires k <= |trail|
  {
    forall j :: 0 <= j < k ==> trail[j].term.Span().Has(Outcome(s, trail[j].term.name))
  }

  lemma {:induction false} TrueIsAllowed(trail: Trail, k: nat, s: Selection, n: Name)
    requires k <= |trail| && TrueOf(trail, k, s)
    ensures Allowed(trail, k, n).Has(Outcome(s, n))
  {
    if k > 0 {
      TrueIsAllowed(trail, k - 1, s, n);
      SpanIsASetOfOutcomes(Allowed(trail, k - 1, n), trail[k - 1].term.Span());
    }
  }

  /** What an assignment says of a package is true of what is allowed in the end. */
  lemma {:induction false} AssignmentHolds(trail: Trail, j: nat, n: Name, o: Option<Version>)
    requires j < |trail| && trail[j].term.name == n && Allowed(trail, |trail|, n).Has(o)
    ensures trail[j].term.Span().Has(o)
  {
    AllowedShrinks(trail, j + 1, |trail|, n);
    SpanIsASetOfOutcomes(Allowed(trail, |trail|, n), Allowed(trail, j + 1, n));
    SpanIsASetOfOutcomes(Allowed(trail, j, n), trail[j].term.Span());
  }

  /** A derivation that the selection contradicts has a cause that the selection violates. */
  lemma {:induction false} CauseIsViolated(p: Provider, trail: Trail, j: nat, s: Selection)
    requires JustifiedTrail(p, trail) && j < |trail| && TrueOf(trail, j, s) && !trail[j].IsDecision()
    requires !trail[j].term.Span().Has(Outcome(s, trail[j].term.name))
    ensures p.IncompatibilityOk(trail[j].cause.value) && Violates(s, trail[j].cause.value.terms)
  {
    assert Justified(p, trail, j);
    var cause, open := trail[j].cause.value, trail[j].term.Inverse();
    SpanIsASetOfOutcomes(trail[j].term.Span(), trail[j].term.Span());
    forall t <- cause.terms ensures t.Span().Has(Outcome(s, t.name)) {
      if t != open {
        TrueIsAllowed(trail, j, s, t.name);
        SpanIsASetOfOutcomes(Allowed(trail, j, t.name), t.Span());
      }
    }
  }

  /** A selected version is not one that there are none of. */
  ghost predicate Available(absent: Absent, s: Selection) {
    forall e <- absent :: !Violates(s, e.terms)
  }

  /** A fact that the needed part violates is not one about what the search comes up with. */
  lemma {:induction false} NeededRespectsFacts(p: Provider, absent: Absent, s: Selection, e: Incompatibility)
    requires p.Rooted(s) && forall n <- s :: p.RequirementsMet(s, n)
    requires Available(absent, s) && p.IsFact(e) && (e.cause.NoVersionsCause? ==> e in absent)
    ensures !Violates(Needed(p, s), e.terms)
  {
    var needed := Needed(p, s);
    NeededIsComplete(p, s);
    if e == p.RootFact() {
      assert !e.terms[0].Span().Has(Outcome(needed, p.root));
    } else if n, v :| p.Facts(n, v).Some? && e in p.Facts(n, v).value {
      SolutionsRespectRequirements(p, needed, n, v, e);
    } else {
      var t: Term :| e == p.NoVersionsFact(t);
      assert e.terms[0] in e.terms;
      assert Violates(needed, e.terms) ==> Violates(s, e.terms);
    }
  }

  /** So nothing on the trail contradicts the needed part of what is decided in the end. */
  lemma {:induction false} NeededIsTrue(p: Provider, trail: Trail, absent: Absent, s: Selection, k: nat)
    requires JustifiedTrail(p, trail) && k <= |trail|
    requires p.Rooted(s) && (forall n <- s :: p.RequirementsMet(s, n)) && Available(absent, s)
    requires forall a <- trail :: CauseFound(a, absent)
    requires forall n <- s :: Allowed(trail, |trail|, n) == In({s[n]})
    ensures TrueOf(trail, k, Needed(p, s))
  {
    if k > 0 {
      var needed, j, a := Needed(p, s), k - 1, trail[k - 1];
      NeededIsTrue(p, trail, absent, s, j);
      NeededIsComplete(p, s);
      if a.term.name in needed {
        AssignmentHolds(trail, j, a.term.name, Some(s[a.term.name]));
      } else if !a.term.Span().Has(None) {
        TrueIsAllowed(trail, j, needed, a.term.name);
        assert WellPlaced(trail, j);
        assert !a.IsDecision();
        CauseIsViolated(p, trail, j, needed);
        var e :| e in a.cause.value.External() && Violates(needed, e.terms);
        assert a in trail && CauseFound(a, absent);
        NeededRespectsFacts(p, absent, s, e);
      }
    }
  }

  /** What is decided in the end is needed. */
  lemma {:induction false} DecidedIsNeeded(p: Provider, trail: Trail, absent: Absent, s: Selection)
    requires JustifiedTrail(p, trail)
    requires p.Rooted(s) && (forall n <- s :: p.RequirementsMet(s, n)) && Available(absent, s)
    requires forall a <- trail :: CauseFound(a, absent)
    requires forall n <- s :: Allowed(trail, |trail|, n) == In({s[n]})
    ensures OnlyNeeded(p, s)
  {
    NeededIsTrue(p, trail, absent, s, |trail|);
    forall n <- s ensures Reaches(p, s, n) {
      TrueIsAllowed(trail, |trail|, Needed(p, s), n);
    }
  }
}
