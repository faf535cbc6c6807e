/**
 Terms of the version solver (`src/poetry/mixology/term.py`) and what they denote.

 A version constraint is a finite set of versions. What a term says about a package is a set of
 outcomes, an outcome being a selected version or "not selected"; `Span` is that set.
 */
module Terms {
  import opened Options

  type Name = string
  type Version = nat

  /** A set of outcomes: exactly the listed versions, or everything but the listed versions. */
  datatype Span = In(versions: set<Version>) | Out(versions: set<Version>) {
    predicate Has(outcome: Option<Version>) {
      match outcome
      case None => Out?
      case Some(v) => if In? then v in versions else v !in versions
    }

    predicate IsEmpty() {
      this == In({})
    }

    function Complement(): Span {
      if In? then Out(versions) else In(versions)
    }

    function Meet(other: Span): Span {
      match (this, other)
      case (In(a), In(b)) => In(a * b)
      case (In(a), Out(b)) => In(a - b)
      case (Out(a), In(b)) => In(b - a)
      case (Out(a), Out(b)) => Out(a + b)
    }

    predicate Within(other: Span) {
      match (this, other)
      case (In(a), In(b)) => a <= b
      case (In(a), Out(b)) => a !! b
      case (Out(_), In(_)) => false
      case (Out(a), Out(b)) => b <= a
    }

    predicate Apart(other: Span) {
      match (this, other)
      case (In(a), In(b)) => a !! b
      case (In(a), Out(b)) => a <= b
      case (Out(a), In(b)) => b <= a
      case (Out(_), Out(_)) => false
    }
  }

  /** The set operations on spans are the ones on sets of outcomes. */
  lemma {:induction false} SpanIsASetOfOutcomes(a: Span, b: Span)
    ensures a.IsEmpty() <==> forall o :: !a.Has(o)
    ensures a.Within(b) <==> forall o :: a.Has(o) ==> b.Has(o)
    ensures a.Apart(b) <==> forall o :: !(a.Has(o) && b.Has(o))
    ensures forall o :: a.Meet(b).Has(o) <==> a.Has(o) && b.Has(o)
    ensures forall o :: a.Complement().Has(o) <==> !a.Has(o)
  {
    assert a.Out? ==> a.Has(None);
    assert b.Out? ==> b.Has(None);
    assert forall v :: v in a.versions ==> (a.Has(Some(v)) <==> a.In?);
    assert forall v :: v in b.versions ==> (b.Has(Some(v)) <==> b.In?);
    if !a.IsEmpty() && a.In? {
      var v :| v in a.versions;
      assert a.Has(Some(v));
    }
  }

  lemma {:induction false} MeetShrinks(a: Span, b: Span)
    ensures a.Meet(b).Within(a) && a.Meet(b).Within(b)
    ensures a.Meet(b).IsEmpty() <==> a.Apart(b)
    ensures a.Meet(b.Complement()).IsEmpty() <==> a.Within(b)
    ensures a.Meet(b) == a <==> a.Within(b)
  {
    EmptySets(a.versions, b.versions);
    EmptySets(b.versions, a.versions);
  }

  lemma {:induction false} EmptySets(x: set<Version>, y: set<Version>)
    ensures x * y == {} <==> x !! y
    ensures x - y == {} <==> x <= y
    ensures x * y == x <==> x <= y
    ensures x - y == x <==> x !! y
    ensures x + y == x <==> y <= x
  {
    assert forall v :: v in x && v in y ==> v in x * y;
    assert forall v :: v in x && v !in y ==> v in x - y;
    assert forall v :: v in y ==> v in x + y;
  }

  lemma {:induction false} WithinTransitive(a: Span, b: Span, c: Span)
    requires a.Within(b)
    ensures b.Within(c) ==> a.Within(c)
    ensures b.Apart(c) ==> a.Apart(c)
    ensures b.IsEmpty() ==> a.IsEmpty()
  {
  }

  lemma {:induction false} MeetGreatest(a: Span, b: Span, c: Span)
    requires a.Within(b) && a.Within(c)
    ensures a.Within(b.Meet(c))
  {
  }

  datatype SetRelation = Subset | Disjoint | Overlapping

  /** A dependency (name, constraint, root flag) together with a sign. */
  datatype Term = Term(name: Name, constraint: set<Version>, positive: bool, isRoot: bool) {
    predicate WellFormed() {
      constraint != {}
    }

    /** What the term says of its package. */
    function Span(): Span {
      if positive then In(constraint) else Out(constraint)
    }

    function Inverse(): Term {
      this.(positive := !positive)
    }

    /** Equality of the dependency objects, which ignores the sign and the root flag. */
    predicate SameDependency(other: Term) {
      name == other.name && constraint == other.constraint
    }

    function Relation(other: Term): SetRelation
      requires name == other.name
    {
      if other.positive then
        if positive then
          if other.constraint >= constraint then Subset
          else if constraint !! other.constraint then Disjoint
          else Overlapping
        else
          if constraint >= other.constraint then Disjoint
          else Overlapping
      else
        if positive then
          if other.constraint !! constraint then Subset
          else if other.constraint >= constraint then Disjoint
          else Overlapping
        else
          if constraint >= other.constraint then Subset
          else Overlapping
    }

    predicate Satisfies(other: Term) {
      name == other.name && Relation(other) == Subset
    }

    function Intersect(other: Term): Option<Term>
      requires name == other.name
    {
      if positive != other.positive then
        var pos := if positive then this else other;
        var neg := if positive then other else this;
        NonEmptyTerm(pos.constraint - neg.constraint, true)
      else if positive then
        NonEmptyTerm(constraint * other.constraint, true)
      else
        NonEmptyTerm(constraint + other.constraint, false)
    }

    function Difference(other: Term): Option<Term>
      requires name == other.name
    {
      Intersect(other.Inverse())
    }

    function NonEmptyTerm(c: set<Version>, sign: bool): Option<Term> {
      if c == {} then None else Some(Term(name, c, sign, isRoot))
    }
  }

  /** `_relation` classifies the sets of outcomes, whenever the left term is well formed. */
  lemma {:induction false} RelationMeaning(t: Term, u: Term)
    requires t.name == u.name && t.WellFormed()
    ensures t.Relation(u) == Subset <==> forall o :: t.Span().Has(o) ==> u.Span().Has(o)
    ensures t.Relation(u) == Disjoint <==> forall o :: !(t.Span().Has(o) && u.Span().Has(o))
  {
    SpanIsASetOfOutcomes(t.Span(), u.Span());
    RelationIsSpan(t, u);
  }

  lemma {:induction false} RelationIsSpan(t: Term, u: Term)
    requires t.name == u.name && t.WellFormed()
    ensures t.Relation(u) == Subset <==> t.Span().Within(u.Span())
    ensures t.Relation(u) == Disjoint <==> t.Span().Apart(u.Span())
  {
    if t.positive && t.constraint !! u.constraint {
      var v :| v in t.constraint;
      assert v !in u.constraint;
    }
  }

  /** `_intersect` yields the common outcomes, and None exactly when there are none. */
  lemma {:induction false} IntersectMeaning(t: Term, u: Term)
    requires t.name == u.name && t.WellFormed() && u.WellFormed()
    ensures match t.Intersect(u)
            case None => forall o :: !(t.Span().Has(o) && u.Span().Has(o))
            case Some(r) =>
              && r.name == t.name && r.WellFormed()
              && forall o :: r.Span().Has(o) <==> t.Span().Has(o) && u.Span().Has(o)
  {
    SpanIsASetOfOutcomes(t.Span(), u.Span());
    IntersectIsMeet(t, u);
    MeetShrinks(t.Span(), u.Span());
  }

  lemma {:induction false} IntersectIsMeet(t: Term, u: Term)
    requires t.name == u.name && t.WellFormed() && u.WellFormed()
    ensures t.Intersect(u).None? <==> t.Span().Meet(u.Span()).IsEmpty()
    ensures t.Intersect(u).Some? ==>
              var r := t.Intersect(u).value;
              r.name == t.name && r.WellFormed() && r.Span() == t.Span().Meet(u.Span())
              && r.constraint <= t.constraint + u.constraint
  {
  }

  /** `difference` yields the outcomes of the first term that the second one rules out. */
  lemma {:induction false} DifferenceMeaning(t: Term, u: Term)
    requires t.name == u.name && t.WellFormed() && u.WellFormed()
    ensures match t.Difference(u)
            case None => forall o :: t.Span().Has(o) ==> u.Span().Has(o)
            case Some(r) =>
              && r.name == t.name && r.WellFormed()
              && forall o :: r.Span().Has(o) <==> t.Span().Has(o) && !u.Span().Has(o)
  {
    IntersectMeaning(t, u.Inverse());
    SpanIsASetOfOutcomes(u.Span(), u.Span());
    assert u.Inverse().Span() == u.Span().Complement();
  }

  // ----- where an empty constraint breaks this

  ghost predicate RelationRight(t: Term, u: Term)
    requires t.name == u.name
  {
    && (t.Relation(u) == Subset <==> forall o :: t.Span().Has(o) ==> u.Span().Has(o))
    && (t.Relation(u) == Disjoint <==> forall o :: !(t.Span().Has(o) && u.Span().Has(o)))
  }

  ghost predicate IntersectRight(t: Term, u: Term)
    requires t.name == u.name
  {
    match t.Intersect(u)
    case None => forall o :: !(t.Span().Has(o) && u.Span().Has(o))
    case Some(r) => forall o :: r.Span().Has(o) <==> t.Span().Has(o) && u.Span().Has(o)
  }

  ghost predicate DifferenceRight(t: Term, u: Term)
    requires t.name == u.name
  {
    match t.Difference(u)
    case None => forall o :: t.Span().Has(o) ==> u.Span().Has(o)
    case Some(r) => forall o :: r.Span().Has(o) <==> t.Span().Has(o) && !u.Span().Has(o)
  }

  /** `_relation` is wrong exactly about positive terms that allow no version, whatever the other term is. */
  lemma {:induction false} RelationRightExactly(t: Term, u: Term)
    requires t.name == u.name
    ensures RelationRight(t, u) <==> !(t.positive && t.constraint == {})
  {
    SpanIsASetOfOutcomes(t.Span(), u.Span());
    if !(t.positive && t.constraint == {}) {
      assert t.Relation(u) == Subset <==> t.Span().Within(u.Span()) by {
        if t.positive && t.constraint !! u.constraint {
          var v :| v in t.constraint;
          assert v !in u.constraint;
        }
      }
    }
  }

  /** `_intersect` is wrong exactly where both terms are negative and neither excludes a version. */
  lemma {:induction false} IntersectRightExactly(t: Term, u: Term)
    requires t.name == u.name
    ensures IntersectRight(t, u) <==> !(!t.positive && !u.positive && t.constraint == {} && u.constraint == {})
  {
    SpanIsASetOfOutcomes(t.Span(), u.Span());
    MeetShrinks(t.Span(), u.Span());
    if !t.positive && !u.positive && t.constraint == {} && u.constraint == {} {
      assert t.Span().Has(None) && u.Span().Has(None);
    }
  }

  /** `difference` is wrong exactly where nothing is excluded from everything. */
  lemma {:induction false} DifferenceRightExactly(t: Term, u: Term)
    requires t.name == u.name
    ensures DifferenceRight(t, u) <==> !(!t.positive && u.positive && t.constraint == {} && u.constraint == {})
  {
    SpanIsASetOfOutcomes(u.Span(), u.Span());
    assert u.Inverse().Span() == u.Span().Complement();
    IntersectRightExactly(t, u.Inverse());
    assert forall o :: u.Inverse().Span().Has(o) <==> !u.Span().Has(o);
  }
}
