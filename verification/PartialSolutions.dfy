/**
 The solver's current guess (`src/poetry/mixology/partial_solution.py`): the trail of assignments,
 the decisions, and the index of what the trail says about each package.
 */
module PartialSolutions {
  import opened Options
  import opened Terms
  import opened Incompatibilities
  import opened Trails

  // ----- the index, specified by replaying the trail

  /** What is known of a package after one more term about it; None means a contradiction. */
  function Registered(known: Option<Term>, t: Term): (r: Option<Term>)
    requires known.Some? ==> known.value.name == t.name
    ensures r.Some? ==> r.value.name == t.name
  {
    match known
    case None => Some(t)
    case Some(k) => if k.positive then k.Intersect(t) else t.Intersect(k)
  }

  /** The fold of the terms about package `n` among the first `k` assignments. */
  function Replay(trail: Trail, k: nat, n: Name): (r: Option<Term>)
    requires k <= |trail|
    ensures r.Some? ==> r.value.name == n
  {
    if k == 0 then None
    else if trail[k - 1].term.name == n then Registered(Replay(trail, k - 1, n), trail[k - 1].term)
    else Replay(trail, k - 1, n)
  }

  /** What the two dictionaries record for a package. */
  function Entry(positive: map<Name, Term>, negative: map<Name, Term>, n: Name): Option<Term> {
    if n in positive then Some(positive[n])
    else if n in negative then Some(negative[n])
    else None
  }

  ghost predicate Tidy(positive: map<Name, Term>, negative: map<Name, Term>) {
    && (forall n <- positive :: positive[n].name == n && positive[n].positive && n !in negative)
    && (forall n <- negative :: negative[n].name == n && !negative[n].positive)
  }

  ghost predicate Indexes(trail: Trail, positive: map<Name, Term>, negative: map<Name, Term>) {
    && Tidy(positive, negative)
    && forall n :: Entry(positive, negative, n) == Replay(trail, |trail|, n)
  }

  ghost predicate Decides(trail: Trail, decisions: map<Name, Version>) {
    && (forall i :: 0 <= i < |trail| && trail[i].IsDecision() ==>
                      && trail[i].term.name in decisions
                      && trail[i].term.constraint == {decisions[trail[i].term.name]})
    && (forall n <- decisions :: DecidedIn(trail, n))
    && |decisions| == Level(trail, |trail|)
  }

  ghost predicate DecidedIn(trail: Trail, n: Name) {
    exists i :: 0 <= i < |trail| && trail[i].IsDecision() && trail[i].term.name == n
  }

  lemma {:induction false} ReplaySpan(trail: Trail, k: nat, n: Name)
    requires WellFormedTrail(trail) && k <= |trail|
    ensures match Replay(trail, k, n)
            case None => Allowed(trail, k, n) == Out({})
            case Some(t) => t.WellFormed() && t.Span() == Allowed(trail, k, n)
  {
    if k > 0 {
      ReplaySpan(trail, k - 1, n);
      assert WellPlaced(trail, k - 1);
      var t := trail[k - 1].term;
      if t.name == n {
        match Replay(trail, k - 1, n)
        case None =>
        case Some(known) =>
          IntersectIsMeet(known, t);
          IntersectIsMeet(t, known);
      }
    }
  }

  lemma {:induction false} SameReplay(trail: Trail, other: Trail, k: nat, n: Name)
    requires k <= |trail| && k <= |other| && trail[..k] == other[..k]
    ensures Replay(trail, k, n) == Replay(other, k, n)
  {
    if k > 0 {
      assert trail[k - 1] == trail[..k][k - 1] == other[k - 1];
      assert trail[..k - 1] == trail[..k][..k - 1] == other[..k - 1];
      SameReplay(trail, other, k - 1, n);
    }
  }

  lemma {:induction false} ReplayExtended(trail: Trail, a: Assignment, n: Name)
    ensures Replay(trail + [a], |trail| + 1, n) ==
            if a.term.name == n then Registered(Replay(trail, |trail|, n), a.term) else Replay(trail, |trail|, n)
  {
    assert (trail + [a])[..|trail|] == trail[..|trail|];
    SameReplay(trail + [a], trail, |trail|, n);
  }

  /** Cutting off assignments about other packages leaves the replay of a package alone. */
  lemma {:induction false} CutFound(trail: Trail, level: nat, k: nat)
    requires WellFormedTrail(trail) && 0 < k <= |trail| && trail[k - 1].level <= level
    requires forall i :: k <= i < |trail| ==> trail[i].level > level
    ensures Cut(trail, level) == k
  {
    CutBelow(trail, level, k - 1);
    if k < |trail| {
      CutBelow(trail, level, k);
    }
  }

  lemma {:induction false} ReplayOfUntouched(trail: Trail, k: nat, n: Name)
    requires k <= |trail| && forall i :: k <= i < |trail| ==> trail[i].term.name != n
    ensures Replay(trail, |trail|, n) == Replay(trail[..k], k, n)
    decreases |trail| - k
  {
    if k == |trail| {
      assert trail[..k] == trail;
    } else {
      ReplayOfUntouched(trail, k + 1, n);
      assert trail[..k + 1][..k] == trail[..k];
      SameReplay(trail[..k + 1], trail[..k], k, n);
    }
  }

  class PartialSolution {
    var assignments: Trail
    var decisions: map<Name, Version>
    var positive: map<Name, Term>
    var negative: map<Name, Term>
    var attemptedSolutions: nat
    var backtracking: bool

    ghost predicate Valid()
      reads this
    {
      && WellFormedTrail(assignments)
      && Indexes(assignments, positive, negative)
      && Decides(assignments, decisions)
    }

    constructor ()
      ensures Valid() && assignments == [] && decisions == map[]
      ensures attemptedSolutions == 1 && !backtracking
    {
      assignments, decisions, positive, negative := [], map[], map[], map[];
      attemptedSolutions, backtracking := 1, false;
    }

    function DecisionLevel(): nat
      reads this
    {
      |decisions|
    }

    /** The dependencies that still need a version. */
    function Unsatisfied(): set<Term>
      reads this
    {
      set n | n in positive && n !in decisions :: positive[n]
    }

    /** Answers from the index what the whole trail says of a term. */
    function Relation(term: Term): (r: SetRelation)
      requires Valid() && term.WellFormed()
      reads this
      ensures r == Subset <==> Holds(assignments, |assignments|, term)
      ensures r == Disjoint <==> Clashes(assignments, |assignments|, term)
    {
      assert Entry(positive, negative, term.name) == Replay(assignments, |assignments|, term.name);
      ReplaySpan(assignments, |assignments|, term.name);
      if term.name in positive then
        RelationIsSpan(positive[term.name], term);
        positive[term.name].Relation(term)
      else if term.name in negative then
        RelationIsSpan(negative[term.name], term);
        negative[term.name].Relation(term)
      else
        Overlapping
    }

    predicate Satisfies(term: Term)
      requires Valid() && term.WellFormed()
      reads this
    {
      Relation(term) == Subset
    }

    method Register(term: Term)
      requires Tidy(positive, negative)
      requires Registered(Entry(positive, negative, term.name), term).Some?
      modifies this`positive, this`negative
      ensures Tidy(positive, negative)
      ensures Entry(positive, negative, term.name) == Registered(old(Entry(positive, negative, term.name)), term)
      ensures forall n :: n != term.name ==>
                            Entry(positive, negative, n) == old(Entry(positive, negative, n))
    {
      var name := term.name;
      if name in positive {
        var value := positive[name].Intersect(term);
        positive := positive[name := value.value];
        return;
      }
      var combined := if name in negative then term.Intersect(negative[name]).value else term;
      if combined.positive {
        negative := negative - {name};
        positive := positive[name := combined];
      } else {
        negative := negative[name := combined];
      }
    }

    method Assign(a: Assignment)
      requires Valid() && WellPlaced(assignments + [a], |assignments|)
      modifies this`assignments, this`positive, this`negative
      ensures assignments == old(assignments) + [a]
      ensures WellFormedTrail(assignments) && Indexes(assignments, positive, negative)
    {
      var n, trail := a.term.name, assignments;
      assert Entry(positive, negative, n) == Replay(trail, |trail|, n);
      ReplaySpan(trail, |trail|, n);
      Extend(trail, a, n);
      ExtendWellFormed(trail, a);
      ReplaySpan(trail + [a], |trail| + 1, n);
      RegisteredWhenOpen(Replay(trail, |trail|, n), Allowed(trail, |trail|, n), a.term);
      forall m
        ensures Replay(trail + [a], |trail| + 1, m) ==
                if n == m then Registered(Replay(trail, |trail|, m), a.term) else Replay(trail, |trail|, m)
      {
        ReplayExtended(trail, a, m);
      }
      assignments := assignments + [a];
      Register(a.term);
    }

    method Derive(term: Term, cause: Incompatibility)
      requires Valid() && term.WellFormed()
      requires !Allowed(assignments, |assignments|, term.name).Meet(term.Span()).IsEmpty()
      modifies this`assignments, this`positive, this`negative
      ensures Valid()
      ensures assignments ==
              old(assignments) + [Assignment(term, DecisionLevel(), |old(assignments)|, Some(cause))]
    {
      var a := Assignment(term, DecisionLevel(), |assignments|, Some(cause));
      Extend(assignments, a, term.name);
      DerivationDecidesNothing(assignments, a, decisions);
      Assign(a);
    }

    method Decide(n: Name, v: Version, isRoot: bool)
      requires Valid() && n in positive && n !in decisions && v in positive[n].constraint
      modifies this
      ensures Valid()
      ensures assignments ==
              old(assignments) + [Assignment(Term(n, {v}, true, isRoot), DecisionLevel(), |old(assignments)|, None)]
      ensures decisions == old(decisions)[n := v]
      ensures !backtracking
      ensures attemptedSolutions == old(attemptedSolutions) + if old(backtracking) then 1 else 0
    {
      if backtracking {
        attemptedSolutions := attemptedSolutions + 1;
      }
      backtracking := false;
      var trail := assignments;
      assert Entry(positive, negative, n) == Replay(trail, |trail|, n);
      ReplaySpan(trail, |trail|, n);
      var a := Assignment(Term(n, {v}, true, isRoot), DecisionLevel() + 1, |trail|, None);
      Extend(trail, a, n);
      DecisionIsOpen(positive[n].constraint, v);
      DecisionDecides(trail, a, v, decisions);
      Assign(a);
      decisions := decisions[n := v];
    }

    /** Drops the assignments of higher levels and rebuilds the index of the packages concerned. */
    method Backtrack(level: nat)
      requires Valid()
      requires Cut(assignments, level) > 0
      modifies this
      ensures Valid()
      ensures assignments == old(assignments)[..Cut(old(assignments), level)]
      ensures backtracking && attemptedSolutions == old(attemptedSolutions)
    {
      backtracking := true;
      ghost var trail := assignments;
      var packages := PopAbove(level);
      Popped(trail, level, |assignments|, old(decisions), positive, negative);
      Reindex(packages);
    }

    /** The first loop of `backtrack`: pops assignments and returns their packages. */
    method PopAbove(level: nat) returns (packages: set<Name>)
      requires Cut(assignments, level) > 0
      modifies this`assignments, this`decisions
      ensures var trail := old(assignments);
              var k := |assignments|;
              && k <= |trail| && assignments == trail[..k]
              && k > 0 && trail[k - 1].level <= level
              && (forall i :: k <= i < |trail| ==> trail[i].level > level)
              && packages == NamesFrom(trail, k)
              && decisions == Remaining(trail, k, old(decisions))
    {
      packages := {};
      ghost var trail, k := assignments, |assignments|;
      ghost var cut := Cut(trail, level);
      CutSplits(trail, level);
      while assignments[|assignments| - 1].level > level
        invariant cut <= k <= |trail|
        invariant assignments == trail[..k]
        invariant forall i :: k <= i < |trail| ==> trail[i].level > level
        invariant packages == NamesFrom(trail, k)
        invariant decisions == Remaining(trail, k, old(decisions))
        decreases k
      {
        var removed := assignments[|assignments| - 1];
        assert removed == trail[k - 1];
        k := k - 1;
        assignments := assignments[..|assignments| - 1];
        packages := {removed.term.name} + packages;
        if removed.IsDecision() {
          decisions := decisions - {removed.term.name};
        }
      }
    }

    /** The rest of `backtrack`: recomputes the entries of the given packages from the trail. */
    method Reindex(packages: set<Name>)
      requires WellFormedTrail(assignments) && Tidy(positive, negative)
      requires forall n :: n !in packages ==> Entry(positive, negative, n) == Replay(assignments, |assignments|, n)
      modifies this`positive, this`negative
      ensures Indexes(assignments, positive, negative)
    {
      positive := positive - packages;
      negative := negative - packages;
      for k := 0 to |assignments|
        invariant Tidy(positive, negative)
        invariant forall n :: Entry(positive, negative, n) ==
                              if n in packages then Replay(assignments, k, n) else Replay(assignments, |assignments|, n)
      {
        var t := assignments[k].term;
        if t.name in packages {
          assert Entry(positive, negative, t.name) == Replay(assignments, k, t.name);
          ReplaySpan(assignments, k, t.name);
          assert WellPlaced(assignments, k);
          RegisteredWhenOpen(Replay(assignments, k, t.name), Allowed(assignments, k, t.name), t);
          Register(t);
        }
      }
    }

    /** The first assignment up to which the trail implies the term; None is the "[BUG]" error. */
    method Satisfier(term: Term) returns (r: Option<Assignment>)
      requires Valid() && term.WellFormed()
      ensures r.Some? <==> Holds(assignments, |assignments|, term)
      ensures r.Some? ==>
                var i := r.value.index;
                && i < |assignments| && r.value == assignments[i] && r.value.term.name == term.name
                && Holds(assignments, i + 1, term) && !Holds(assignments, i, term)
    {
      var assignedTerm: Option<Term> := None;
      for k := 0 to |assignments|
        invariant !Holds(assignments, k, term)
        invariant assignedTerm.None? ==> Allowed(assignments, k, term.name) == Out({})
        invariant assignedTerm.Some? ==>
                    && assignedTerm.value.name == term.name && assignedTerm.value.WellFormed()
                    && assignedTerm.value.Span() == Allowed(assignments, k, term.name)
      {
        var a := assignments[k];
        if a.term.name == term.name {
          assert WellPlaced(assignments, k);
          if assignedTerm.None? {
            assignedTerm := Some(a.term);
          } else {
            IntersectIsMeet(assignedTerm.value, a.term);
            assignedTerm := assignedTerm.value.Intersect(a.term);
          }
          RelationIsSpan(assignedTerm.value, term);
          if assignedTerm.value.Satisfies(term) {
            HoldsLater(assignments, k + 1, |assignments|, term);
            return Some(a);
          }
        }
      }
      r := None;
    }
  }

  // ----- steps of the methods above

  /** Registering never fails while the package keeps an outcome. */
  lemma {:induction false} RegisteredWhenOpen(known: Option<Term>, allowed: Span, t: Term)
    requires t.WellFormed() && !allowed.Meet(t.Span()).IsEmpty()
    requires known.None? ==> allowed == Out({})
    requires known.Some? ==> known.value.name == t.name && known.value.WellFormed() && known.value.Span() == allowed
    ensures Registered(known, t).Some?
  {
    if known.Some? {
      IntersectIsMeet(known.value, t);
      IntersectIsMeet(t, known.value);
    }
  }

  lemma {:induction false} DecisionIsOpen(vs: set<Version>, v: Version)
    requires v in vs
    ensures In(vs).Meet(In({v})) == In({v})
  {
    assert vs * {v} == {v};
  }

  /** The packages of the assignments from position `k` on. */
  ghost function NamesFrom(trail: Trail, k: nat): set<Name>
    requires k <= |trail|
    decreases |trail| - k
  {
    if k == |trail| then {} else {trail[k].term.name} + NamesFrom(trail, k + 1)
  }

  lemma {:induction false} NamesFromAll(trail: Trail, k: nat)
    requires k <= |trail|
    ensures forall i :: k <= i < |trail| ==> trail[i].term.name in NamesFrom(trail, k)
    decreases |trail| - k
  {
    if k < |trail| {
      NamesFromAll(trail, k + 1);
    }
  }

  /** What is left when the assignments of higher levels have been popped. */
  lemma {:induction false} Popped(trail: Trail, level: nat, k: nat, decisions: map<Name, Version>,
      positive: map<Name, Term>, negative: map<Name, Term>)
    requires WellFormedTrail(trail) && Indexes(trail, positive, negative) && Decides(trail, decisions)
    requires 0 < k <= |trail| && trail[k - 1].level <= level
    requires forall i :: k <= i < |trail| ==> trail[i].level > level
    ensures k == Cut(trail, level) && WellFormedTrail(trail[..k])
    ensures Decides(trail[..k], Remaining(trail, k, decisions))
    ensures forall n :: n !in NamesFrom(trail, k) ==> Entry(positive, negative, n) == Replay(trail[..k], k, n)
  {
    CutFound(trail, level, k);
    PrefixWellFormed(trail, k);
    RemainingDecides(trail, k, decisions);
    UntouchedEntries(trail, k, positive, negative);
  }

  lemma {:induction false} UntouchedEntries(trail: Trail, k: nat, positive: map<Name, Term>, negative: map<Name, Term>)
    requires k <= |trail| && Indexes(trail, positive, negative)
    ensures forall n :: n !in NamesFrom(trail, k) ==> Entry(positive, negative, n) == Replay(trail[..k], k, n)
  {
    NamesFromAll(trail, k);
    forall n | n !in NamesFrom(trail, k) ensures Entry(positive, negative, n) == Replay(trail[..k], k, n) {
      assert Entry(positive, negative, n) == Replay(trail, |trail|, n);
      ReplayOfUntouched(trail, k, n);
    }
  }

  /** The decisions left once the assignments from position `k` on are popped. */
  ghost function Remaining(trail: Trail, k: nat, decisions: map<Name, Version>): map<Name, Version>
    requires k <= |trail|
    decreases |trail| - k
  {
    if k == |trail| then decisions
    else
      var rest := Remaining(trail, k + 1, decisions);
      if trail[k].IsDecision() then rest - {trail[k].term.name} else rest
  }

  lemma {:induction false} RemainingDecides(trail: Trail, k: nat, decisions: map<Name, Version>)
    requires k <= |trail| && WellFormedTrail(trail) && Decides(trail, decisions)
    ensures Decides(trail[..k], Remaining(trail, k, decisions))
    decreases |trail| - k
  {
    if k == |trail| {
      assert trail[..k] == trail;
    } else {
      RemainingDecides(trail, k + 1, decisions);
      PopLast(trail, k + 1, Remaining(trail, k + 1, decisions));
    }
  }

  lemma {:induction false} PopLast(trail: Trail, k: nat, decisions: map<Name, Version>)
    requires 0 < k <= |trail| && WellFormedTrail(trail) && Decides(trail[..k], decisions)
    ensures trail[..k][..k - 1] == trail[..k - 1] && trail[..k][k - 1] == trail[k - 1]
    ensures var last := trail[k - 1];
            Decides(trail[..k - 1], if last.IsDecision() then decisions - {last.term.name} else decisions)
  {
    PrefixWellFormed(trail, k);
    assert WellPlaced(trail[..k], k - 1);
    assert trail[..k][..k - 1] == trail[..k - 1];
    if trail[k - 1].IsDecision() {
      PopDecision(trail[..k], decisions);
    } else {
      PopDerivation(trail[..k], decisions);
    }
  }

  lemma {:induction false} DerivationDecidesNothing(trail: Trail, a: Assignment, decisions: map<Name, Version>)
    requires Decides(trail, decisions) && !a.IsDecision()
    ensures Decides(trail + [a], decisions)
  {
    Extend(trail, a, "");
    forall n | n in decisions
      ensures DecidedIn(trail + [a], n)
    {
      var i :| 0 <= i < |trail| && trail[i].IsDecision() && trail[i].term.name == n;
      assert (trail + [a])[i] == trail[i];
    }
  }

  lemma {:induction false} DecisionDecides(trail: Trail, a: Assignment, v: Version, decisions: map<Name, Version>)
    requires Decides(trail, decisions) && a.IsDecision()
    requires a.term.constraint == {v} && a.term.name !in decisions
    ensures Decides(trail + [a], decisions[a.term.name := v])
  {
    Extend(trail, a, "");
    var more := decisions[a.term.name := v];
    forall n | n in more
      ensures DecidedIn(trail + [a], n)
    {
      if n == a.term.name {
        assert (trail + [a])[|trail|] == a;
      } else {
        assert DecidedIn(trail, n);
        var i :| 0 <= i < |trail| && trail[i].IsDecision() && trail[i].term.name == n;
        assert (trail + [a])[i] == trail[i];
      }
    }
  }

  lemma {:induction false} PopDerivation(trail: Trail, decisions: map<Name, Version>)
    requires trail != [] && !trail[|trail| - 1].IsDecision() && Decides(trail, decisions)
    ensures Decides(trail[..|trail| - 1], decisions)
  {
    var shorter := trail[..|trail| - 1];
    SamePrefix(shorter, trail, |shorter|, "");
    forall n | n in decisions
      ensures DecidedIn(shorter, n)
    {
      var i :| 0 <= i < |trail| && trail[i].IsDecision() && trail[i].term.name == n;
      assert shorter[i] == trail[i];
    }
  }

  lemma {:induction false} PopDecision(trail: Trail, decisions: map<Name, Version>)
    requires trail != [] && trail[|trail| - 1].IsDecision() && Decides(trail, decisions)
    requires WellPlaced(trail, |trail| - 1)
    ensures Decides(trail[..|trail| - 1], decisions - {trail[|trail| - 1].term.name})
  {
    var last := |trail| - 1;
    var n := trail[last].term.name;
    var shorter, fewer := trail[..last], decisions - {n};
    SamePrefix(shorter, trail, last, "");
    assert fewer.Keys == decisions.Keys - {n};
    forall m | m in fewer
      ensures DecidedIn(shorter, m)
    {
      assert DecidedIn(trail, m);
      var i :| 0 <= i < |trail| && trail[i].IsDecision() && trail[i].term.name == m;
      assert shorter[i] == trail[i];
    }
  }
}
