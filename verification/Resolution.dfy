/**
 Why every assignment is on the trail, and what conflict resolution makes of two incompatibilities
 (`_resolve_conflict` in `src/poetry/mixology/version_solver.py`).
 */
module Resolution {
  import opened Options
  import opened Terms
  import opened Incompatibilities
  import opened Providers
  import opened Trails

  /** A derivation follows from its cause and strictly narrows its package; a decision is a package. */
  ghost predicate Justified(p: Provider, trail: Trail, i: nat)
    requires i < |trail|
  {
    var a := trail[i];
    && p.TermOk(a.term)
    && match a.cause
       case Some(cause) =>
         && p.IncompatibilityOk(cause)
         && a.term.Inverse() in cause.terms
         && SatisfiedBut(trail, i, cause, a.term.Inverse())
         && Allowed(trail, i + 1, a.term.name) != Allowed(trail, i, a.term.name)
       case None =>
         && (a.level == 1 ==> a.term.name == p.root)
         && |a.term.constraint| == 1
         && p.Offers(a.term.name, TheVersion(a.term))
  }

  /** The version that a decision selects. */
  ghost function TheVersion(t: Term): (v: Version)
    requires |t.constraint| == 1
    ensures t.constraint == {v}
  {
    var v :| v in t.constraint;
    assert |t.constraint - {v}| == 0;
    v
  }

  ghost predicate JustifiedTrail(p: Provider, trail: Trail) {
    && WellFormedTrail(trail)
    && (forall i :: 0 <= i < |trail| ==> Justified(p, trail, i))
    && (trail != [] ==> trail[0].term == p.PackageTerm(p.root, p.rootVersion) && !trail[0].IsDecision())
  }

  lemma {:induction false} JustifiedPrefix(p: Provider, trail: Trail, k: nat)
    requires JustifiedTrail(p, trail) && k <= |trail|
    ensures JustifiedTrail(p, trail[..k])
  {
    PrefixWellFormed(trail, k);
    forall i | 0 <= i < k
      ensures Justified(p, trail[..k], i)
    {
      assert Justified(p, trail, i);
      SameJustification(p, trail, trail[..k], i);
    }
  }

  lemma {:induction false} SameJustification(p: Provider, trail: Trail, other: Trail, i: nat)
    requires i < |trail| && i < |other| && trail[..i + 1] == other[..i + 1]
    requires Justified(p, trail, i)
    ensures Justified(p, other, i)
  {
    assert trail[i] == trail[..i + 1][i] == other[i];
    assert trail[..i] == trail[..i + 1][..i] == other[..i];
    forall n
      ensures Allowed(trail, i, n) == Allowed(other, i, n) && Allowed(trail, i + 1, n) == Allowed(other, i + 1, n)
    {
      SamePrefix(trail, other, i, n);
      SamePrefix(trail, other, i + 1, n);
    }
  }

  /** Once anything is on the trail, the root package is pinned to its version. */
  lemma {:induction false} RootPinned(p: Provider, trail: Trail, k: nat)
    requires JustifiedTrail(p, trail) && 0 < k <= |trail|
    ensures Allowed(trail, k, p.root) == In({p.rootVersion})
  {
    assert Allowed(trail, 1, p.root) == Allowed(trail, 0, p.root).Meet(In({p.rootVersion}));
    AllowedShrinks(trail, 1, k, p.root);
    NeverEmpty(trail, k, p.root);
  }

  /** The flagged term of an incompatibility other than the root fact always holds. */
  lemma {:induction false} FlaggedTermHolds(p: Provider, trail: Trail, t: Term)
    requires JustifiedTrail(p, trail) && trail != [] && p.TermOk(t) && t.isRoot
    ensures Holds(trail, |trail|, t)
  {
    RootPinned(p, trail, |trail|);
  }

  // ----- extending the trail

  lemma {:induction false} OpenTermCanBeRuledOut(p: Provider, trail: Trail, i: Incompatibility, open: Term)
    requires p.WellFormed() && JustifiedTrail(p, trail) && p.IncompatibilityOk(i) && open in i.terms
    requires !Holds(trail, |trail|, open) && !Clashes(trail, |trail|, open)
    requires trail == [] ==> i == p.RootFact()
    ensures p.TermOk(open.Inverse())
    ensures trail == [] ==> open.Inverse() == p.PackageTerm(p.root, p.rootVersion)
  {
    if trail != [] {
      RootPinned(p, trail, |trail|);
      if open.isRoot && i != p.RootFact() {
        FlaggedTermHolds(p, trail, open);
      }
      assert i != p.RootFact();
    }
  }

  /** The open term of an almost satisfied incompatibility can be ruled out, and then is. */
  lemma {:induction false} DeriveJustified(p: Provider, trail: Trail, i: Incompatibility, open: Term)
    requires p.WellFormed() && JustifiedTrail(p, trail) && p.IncompatibilityOk(i) && open in i.terms
    requires SatisfiedBut(trail, |trail|, i, open)
    requires !Holds(trail, |trail|, open) && !Clashes(trail, |trail|, open)
    requires trail == [] ==> i == p.RootFact()
    ensures open.WellFormed()
    ensures !Allowed(trail, |trail|, open.name).Meet(open.Inverse().Span()).IsEmpty()
    ensures var a := Assignment(open.Inverse(), Level(trail, |trail|), |trail|, Some(i));
            JustifiedTrail(p, trail + [a]) && Contradicted(trail + [a], |trail| + 1, i)
  {
    OpenTermCanBeRuledOut(p, trail, i, open);
    var n, before := open.name, Allowed(trail, |trail|, open.name);
    assert open.Inverse().Span() == open.Span().Complement();
    MeetShrinks(before, open.Span());
    MeetShrinks(before, open.Span().Complement());
    var a := Assignment(open.Inverse(), Level(trail, |trail|), |trail|, Some(i));
    var longer := trail + [a];
    Extend(trail, a, n);
    ExtendWellFormed(trail, a);
    assert a.term.Inverse() == open;
    forall t | t in i.terms
      ensures t == open || Holds(longer, |trail|, t)
    {
      Extend(trail, a, t.name);
    }
    assert before.Meet(open.Span().Complement()) != before;
    ExtendJustified(p, trail, a);
    assert Clashes(longer, |longer|, open);
  }

  lemma {:induction false} ExtendJustified(p: Provider, trail: Trail, a: Assignment)
    requires JustifiedTrail(p, trail) && WellFormedTrail(trail + [a])
    requires Justified(p, trail + [a], |trail|)
    requires trail == [] ==> a.term == p.PackageTerm(p.root, p.rootVersion) && !a.IsDecision()
    ensures JustifiedTrail(p, trail + [a])
  {
    var longer := trail + [a];
    forall j | 0 <= j < |longer|
      ensures Justified(p, longer, j)
    {
      if j < |trail| {
        assert trail[..j + 1] == longer[..j + 1];
        SameJustification(p, trail, longer, j);
      }
    }
  }

  // ----- the assignment that made a term hold

  /** What remains of `a` outside `t` is excluded already, when `a` is what makes `t` hold. */
  lemma {:induction false} RemainderExcluded(before: Span, a: Span, t: Span)
    requires before.Meet(a).Within(t) && !before.Meet(a).IsEmpty()
    ensures before.Within(a.Meet(t.Complement()).Complement())
    ensures !a.Apart(t)
  {
  }

  /**
   The part of the satisfier that its term does not cover: it holds already before the satisfier
   that this part is excluded, the guard that would drop it never fires, and decisions leave none.
   */
  lemma {:induction false} DifferenceExcluded(p: Provider, trail: Trail, t: Term, k: nat)
    requires JustifiedTrail(p, trail) && k <= |trail| && p.TermOk(t) && Holds(trail, k, t)
    ensures var i := SatisfierIndex(trail, k, t);
            match trail[i].term.Difference(t)
            case None => trail[i].term.Span().Within(t.Span())
            case Some(d) =>
              && d.name == t.name
              && p.TermOk(d.Inverse())
              && d.Span() == trail[i].term.Span().Meet(t.Span().Complement())
              && Holds(trail, i, d.Inverse())
              && !d.Inverse().SameDependency(trail[i].term)
              && !trail[i].IsDecision()
  {
    var i := SatisfierIndex(trail, k, t);
    var a := trail[i].term;
    assert WellPlaced(trail, i) && Justified(p, trail, i);
    var before := Allowed(trail, i, t.name);
    RemainderExcluded(before, a.Span(), t.Span());
    assert t.Inverse().Span() == t.Span().Complement();
    IntersectIsMeet(a, t.Inverse());
    MeetShrinks(a.Span(), t.Span());
    if trail[i].IsDecision() || a.isRoot {
      SingletonWithin(a.constraint, t.Span());
    }
    if a.Difference(t).Some? {
      var d := a.Difference(t).value;
      assert d.Inverse().Span() == d.Span().Complement();
      ConstraintChanged(a, t);
    }
  }

  lemma {:induction false} SingletonWithin(c: set<Version>, t: Span)
    requires |c| == 1 && !In(c).Apart(t)
    ensures In(c).Within(t)
  {
    var v :| v in c;
    assert c == {v} by {
      assert |c - {v}| == 0;
    }
  }

  lemma {:induction false} ConstraintChanged(a: Term, t: Term)
    requires a.name == t.name && a.WellFormed() && t.WellFormed()
    requires !a.Span().Apart(t.Span()) && a.Difference(t).Some?
    ensures a.Difference(t).value.constraint != a.constraint
  {
    if a.positive == t.positive {
      if a.positive {
        EmptySets(a.constraint, t.constraint);
      } else {
        EmptySets(t.constraint, a.constraint);
        assert t.constraint - a.constraint !! a.constraint;
      }
    } else if a.positive {
      EmptySets(a.constraint, t.constraint);
    } else {
      EmptySets(a.constraint, t.constraint);
    }
  }

  // ----- the prior cause

  /** The terms other than `drop`. */
  function Others(terms: seq<Term>, drop: Term): seq<Term> {
    if terms == [] then []
    else Others(terms[..|terms| - 1], drop)
         + if terms[|terms| - 1] == drop then [] else [terms[|terms| - 1]]
  }

  /** The terms with another dependency than `drop`. */
  function OtherDependencies(terms: seq<Term>, drop: Term): seq<Term> {
    if terms == [] then []
    else OtherDependencies(terms[..|terms| - 1], drop)
         + if terms[|terms| - 1].SameDependency(drop) then [] else [terms[|terms| - 1]]
  }

  /** The terms of the resolvent of `i` and the cause of `a`, where `a` made `t` hold. */
  function PriorCauseTerms(i: Incompatibility, t: Term, a: Assignment): seq<Term>
    requires a.cause.Some? && a.term.name == t.name
  {
    var kept := Others(i.terms, t) + OtherDependencies(a.cause.value.terms, a.term);
    match a.term.Difference(t)
    case None => kept
    case Some(d) => if d.Inverse().SameDependency(a.term) then kept else kept + [d.Inverse()]
  }

  lemma {:induction false} OthersMembers(terms: seq<Term>, drop: Term, t: Term)
    ensures t in Others(terms, drop) <==> t in terms && t != drop
    ensures t in OtherDependencies(terms, drop) <==> t in terms && !t.SameDependency(drop)
    decreases |terms|
  {
    if terms != [] {
      OthersMembers(terms[..|terms| - 1], drop, t);
      assert terms == terms[..|terms| - 1] + [terms[|terms| - 1]];
    }
  }

  /** Satisfied incompatibilities have only unflagged negative terms: they are not the root fact. */
  lemma {:induction false} SatisfiedIsNotRootFact(p: Provider, trail: Trail, k: nat, i: Incompatibility)
    requires JustifiedTrail(p, trail) && k <= |trail| && p.IncompatibilityOk(i) && Satisfied(trail, k, i)
    ensures forall t <- i.terms :: p.TermOk(t)
    ensures i.terms != [] ==> k > 0
  {
    if i.terms != [] {
      assert i.terms[0] in i.terms;
      assert Holds(trail, k, i.terms[0]);
      if k > 0 {
        RootPinned(p, trail, k);
      }
    }
  }

  /** Every term of the resolvent already holds before the satisfier that was resolved away. */
  lemma {:induction false} PriorCauseHolds(p: Provider, trail: Trail, k: nat, i: Incompatibility, t: Term)
    requires JustifiedTrail(p, trail) && k <= |trail|
    requires p.IncompatibilityOk(i) && Satisfied(trail, k, i) && t in i.terms && p.TermOk(t)
    requires var s := SatisfierIndex(trail, k, t);
             && trail[s].cause.Some?
             && forall u <- i.terms :: u != t ==> Holds(trail, s, u)
    ensures var s := SatisfierIndex(trail, k, t);
            forall u <- PriorCauseTerms(i, t, trail[s]) :: p.TermOk(u) && Holds(trail, s, u)
  {
    var s := SatisfierIndex(trail, k, t);
    var a := trail[s];
    assert Justified(p, trail, s);
    var cause := a.cause.value;
    SatisfiedIsNotRootFact(p, trail, k, i);
    DifferenceExcluded(p, trail, t, k);
    forall u | u in PriorCauseTerms(i, t, a)
      ensures p.TermOk(u) && Holds(trail, s, u)
    {
      OthersMembers(i.terms, t, u);
      OthersMembers(cause.terms, a.term, u);
    }
  }

  /** Whoever makes the resolvent's terms true violates one of the two resolved incompatibilities. */
  lemma {:induction false} PriorCauseFollows(i: Incompatibility, t: Term, a: Assignment, s: Selection)
    requires t in i.terms && a.cause.Some? && a.term.name == t.name
    requires t.WellFormed() && a.term.WellFormed()
    requires DistinctNames(i.terms) && DistinctNames(a.cause.value.terms)
    requires a.term.Inverse() in a.cause.value.terms
    requires a.term.Difference(t).Some? ==> !a.term.Difference(t).value.Inverse().SameDependency(a.term)
    requires Violates(s, PriorCauseTerms(i, t, a))
    ensures Violates(s, i.terms) || Violates(s, a.cause.value.terms)
  {
    var cause, o := a.cause.value, Outcome(s, t.name);
    var terms := PriorCauseTerms(i, t, a);
    if !t.Span().Has(o) && !a.term.Inverse().Span().Has(o) {
      // then the outcome lies in the difference, whose inverse is among the terms
      DifferenceMeaning(a.term, t);
      SpanIsASetOfOutcomes(a.term.Span(), a.term.Span());
      assert a.term.Inverse().Span() == a.term.Span().Complement();
      var d := a.term.Difference(t).value;
      assert d.Inverse() in terms;
      SpanIsASetOfOutcomes(d.Span(), d.Span());
      assert false;
    } else if t.Span().Has(o) {
      forall u | u in i.terms
        ensures u.Span().Has(Outcome(s, u.name))
      {
        OthersMembers(i.terms, t, u);
      }
    } else {
      forall u | u in cause.terms
        ensures u.Span().Has(Outcome(s, u.name))
      {
        OthersMembers(cause.terms, a.term, u);
        if u.SameDependency(a.term) {
          assert u == a.term.Inverse();
        }
      }
    }
  }

  /** The resolvent is a proper incompatibility, entailed by the same facts, and satisfied earlier. */
  lemma {:induction false} PriorCause(p: Provider, trail: Trail, k: nat, i: Incompatibility, t: Term)
    requires p.WellFormed() && JustifiedTrail(p, trail) && k <= |trail|
    requires p.IncompatibilityOk(i) && Satisfied(trail, k, i) && t in i.terms && p.TermOk(t)
    requires var s := SatisfierIndex(trail, k, t);
             && trail[s].cause.Some?
             && forall u <- i.terms :: u != t ==> Holds(trail, s, u)
    ensures var s := SatisfierIndex(trail, k, t);
            var cause := ConflictCause(i, trail[s].cause.value);
            var r := Build(PriorCauseTerms(i, t, trail[s]), cause);
            r.Some? && p.IncompatibilityOk(r.value) && Satisfied(trail, s, r.value)
  {
    var s := SatisfierIndex(trail, k, t);
    var a := trail[s];
    var terms, cause := PriorCauseTerms(i, t, a), ConflictCause(i, a.cause.value);
    PriorCauseHolds(p, trail, k, i, t);
    var allowed := n => Allowed(trail, s, n);
    forall n
      ensures !allowed(n).IsEmpty()
    {
      NeverEmpty(trail, s, n);
    }
    BuildHolds(allowed, terms, cause);
    BuildDistinct(terms, cause);
    TermOkUnderIntersection(p);
    BuildKeeps(terms, cause, (u: Term) => p.TermOk(u));
    var r := Build(terms, cause).value;
    assert forall u <- r.terms :: Holds(trail, s, u);
    PriorCauseEntailed(p, trail, k, i, t, r);
  }

  lemma {:induction false} PriorCauseEntailed(p: Provider, trail: Trail, k: nat, i: Incompatibility, t: Term,
      r: Incompatibility)
    requires p.WellFormed() && JustifiedTrail(p, trail) && k <= |trail|
    requires p.IncompatibilityOk(i) && Satisfied(trail, k, i) && t in i.terms && p.TermOk(t)
    requires var s := SatisfierIndex(trail, k, t);
             && trail[s].cause.Some?
             && (forall u <- i.terms :: u != t ==> Holds(trail, s, u))
             && Build(PriorCauseTerms(i, t, trail[s]), ConflictCause(i, trail[s].cause.value)) == Some(r)
    ensures p.Entailed(r)
  {
    var at := SatisfierIndex(trail, k, t);
    var a := trail[at];
    var terms, cause := PriorCauseTerms(i, t, a), ConflictCause(i, a.cause.value);
    assert Justified(p, trail, at);
    PriorCauseHolds(p, trail, k, i, t);
    DifferenceExcluded(p, trail, t, k);
    assert r.cause == cause;
    assert r.External() == i.External() + a.cause.value.External();
    forall s: Selection | p.Rooted(s) && Violates(s, r.terms)
      ensures exists e <- r.External() :: Violates(s, e.terms)
    {
      BuildMeaning(terms, cause, s);
      PriorCauseFollows(i, t, a, s);
      if Violates(s, i.terms) {
        var e :| e in i.External() && Violates(s, e.terms);
        assert e in r.External();
      } else {
        var e :| e in a.cause.value.External() && Violates(s, e.terms);
        assert e in r.External();
      }
    }
  }

  // ----- where the resolution stops

  /** Failure is only reported for incompatibilities that every selection of the root violates. */
  lemma {:induction false} FailureIsUniversal(p: Provider, trail: Trail, k: nat, i: Incompatibility, s: Selection)
    requires JustifiedTrail(p, trail) && k <= |trail|
    requires p.IncompatibilityOk(i) && Satisfied(trail, k, i) && i.IsFailure() && p.Rooted(s)
    ensures Violates(s, i.terms)
  {
    SatisfiedIsNotRootFact(p, trail, k, i);
  }

  /**
   The conflict is a unit again on the shorter trail: all terms but one still hold there, and that
   one is open, neither implied nor excluded.
   */
  lemma {:induction false} BackjumpIsUnit(p: Provider, trail: Trail, k: nat, i: Incompatibility, t: Term, level: nat)
    requires JustifiedTrail(p, trail) && k <= |trail| && Satisfied(trail, k, i)
    requires t in i.terms && p.TermOk(t) && level < trail[SatisfierIndex(trail, k, t)].level
    requires forall u <- i.terms :: p.TermOk(u) && (u != t ==> trail[SatisfierIndex(trail, k, u)].level <= level)
    ensures var cut := Cut(trail, level);
            && SatisfiedBut(trail[..cut], cut, i, t)
            && !Holds(trail[..cut], cut, t) && !Clashes(trail[..cut], cut, t)
  {
    var cut, shorter := Cut(trail, level), trail[..Cut(trail, level)];
    forall u | u in i.terms
      ensures Allowed(shorter, cut, u.name) == Allowed(trail, cut, u.name)
    {
      assert shorter[..cut] == trail[..cut];
      SamePrefix(shorter, trail, cut, u.name);
    }
    forall u | u in i.terms && u != t
      ensures Holds(shorter, cut, u)
    {
      var s := SatisfierIndex(trail, k, u);
      CutBelow(trail, level, s);
      HoldsLater(trail, s + 1, cut, u);
    }
    var s := SatisfierIndex(trail, k, t);
    CutBelow(trail, level, s);
    HoldsLater(trail, cut, s, t);
    if Clashes(trail, cut, t) {
      HoldsLater(trail, cut, k, t);
      NeverEmpty(trail, k, t.name);
    }
  }
}
