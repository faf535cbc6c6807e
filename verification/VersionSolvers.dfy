/**
 The version solver (`src/poetry/mixology/version_solver.py`): unit propagation with a skip set,
 conflict resolution with backjumping, and decisions. Which unsatisfied package is decided next, and
 which of its available versions is taken, is left open, so all results hold for every heuristic.
 */
module VersionSolvers {
  import opened Conditions
  import opened Options
  import opened Terms
  import opened Incompatibilities
  import opened Providers
  import opened Trails
  import opened PartialSolutions
  import opened Resolution
  import opened SolverStates
  import opened SolverSearches
  import opened NeededPackages
  import opened Ranking

  datatype Propagation = Conflict | Derived(name: Name) | Inconclusive

  /** What the terms of an incompatibility are worth on the trail. */
  datatype Examination = Excluded | SeveralOpen | OneOpen(open: Term) | AllHold

  /** All terms hold but one, which is neither implied nor excluded. */
  ghost predicate IsUnit(trail: Trail, i: Incompatibility, open: Term) {
    && open in i.terms && SatisfiedBut(trail, |trail|, i, open)
    && !Holds(trail, |trail|, open) && !Clashes(trail, |trail|, open)
  }

  /** The trail grows by the inverse of the open term of a unit. */
  ghost predicate Derives(trail: Trail, i: Incompatibility, n: Name, longer: Trail) {
    exists open <- i.terms ::
      && open.name == n && IsUnit(trail, i, open)
      && longer == trail + [Assignment(open.Inverse(), Level(trail, |trail|), |trail|, Some(i))]
  }

  ghost predicate NothingTwice(registry: Registry) {
    forall n <- registry, i, j :: 0 <= i < j < |registry[n]| ==> registry[n][i] != registry[n][j]
  }

  /** `i` is listed under the packages of its first `k` terms. */
  ghost predicate ListsUpTo(registry: Registry, known: set<Incompatibility>, i: Incompatibility, k: nat)
    requires k <= |i.terms|
  {
    && (forall n <- registry, e <- registry[n] :: e in known + {i} && Mentions(e, n))
    && (forall e <- known, t <- e.terms :: ListedFor(registry, e, t.name))
    && (forall t <- i.terms[..k] :: ListedFor(registry, i, t.name))
  }

  /** The registry with the incompatibility at the end of the package's list, if it is not in it already. */
  function ListedUnder(registry: Registry, n: Name, i: Incompatibility): Registry {
    var list := if n in registry then registry[n] else [];
    if i in list then registry else registry[n := list + [i]]
  }

  lemma {:induction false} ListedOnce(registry: Registry, n: Name, i: Incompatibility)
    ensures NothingTwice(registry) ==> NothingTwice(ListedUnder(registry, n, i))
  {
  }

  lemma {:induction false} ListsStep(registry: Registry, known: set<Incompatibility>, i: Incompatibility, k: nat)
    requires k < |i.terms| && ListsUpTo(registry, known, i, k)
    ensures ListsUpTo(ListedUnder(registry, i.terms[k].name, i), known, i, k + 1)
  {
    var n := i.terms[k].name;
    var after := ListedUnder(registry, n, i);
    assert i.terms[k] in i.terms && Mentions(i, n);
    assert i.terms[..k + 1] == i.terms[..k] + [i.terms[k]];
    forall e, m | ListedFor(registry, e, m)
      ensures ListedFor(after, e, m)
    {
    }
    assert ListedFor(after, i, n);
  }

  /** The trail is justified by known incompatibilities, and all of these are listed. */
  ghost predicate Consistent(p: Provider, trail: Trail, registry: Registry, known: set<Incompatibility>) {
    && JustifiedTrail(p, trail)
    && Lists(registry, known)
    && (forall i <- known :: p.IncompatibilityOk(i))
    && (forall a <- trail :: a.term.name in registry)
    && (trail == [] ==> known <= {p.RootFact()})
    && (Level(trail, |trail|) == 0 && known <= {p.RootFact()} ==> |trail| <= 1)
  }

  lemma {:induction false} DeriveConsistent(
      p: Provider, trail: Trail, registry: Registry, known: set<Incompatibility>, i: Incompatibility, open: Term)
    requires p.WellFormed() && Consistent(p, trail, registry, known) && i in known && IsUnit(trail, i, open)
    ensures open.WellFormed() && open.name in registry
    ensures !Allowed(trail, |trail|, open.name).Meet(open.Inverse().Span()).IsEmpty()
    ensures var longer := trail + [Assignment(open.Inverse(), Level(trail, |trail|), |trail|, Some(i))];
            && Consistent(p, longer, registry, known)
            && Contradicted(longer, |longer|, i)
  {
    DeriveJustified(p, trail, i, open);
    OnlyRootFactIsSpent(p, trail, i, open);
    assert ListedFor(registry, i, open.name);
  }

  /** How conflict resolution ends; `Unsolvable` stands for raising SolveFailureError. */
  datatype ConflictResolution = RootCauseFound(cause: Incompatibility) | Unsolvable(reason: Incompatibility)

  datatype Choice = Next(name: Name) | Finished | SelfDependency(name: Name, version: Version)

  datatype Result =
    | Solved(packages: Selection)
    | Failed(reason: Incompatibility)
    | SelfDependent(name: Name, version: Version)

  /** The level at which a term that holds became satisfied. */
  ghost function SatisfierLevel(trail: Trail, t: Term): nat {
    if t.WellFormed() && Holds(trail, |trail|, t) then trail[SatisfierIndex(trail, |trail|, t)].level else 0
  }

  /**
   The level to go back to: the largest of 1, the levels that satisfied the terms other than `t`,
   and the level that excluded the remainder of the satisfier of `t`.
   */
  ghost predicate IsPreviousLevel(trail: Trail, terms: seq<Term>, t: Term, difference: Option<Term>, level: nat) {
    && level >= 1
    && (forall u <- terms :: u != t ==> SatisfierLevel(trail, u) <= level)
    && (difference.Some? ==> SatisfierLevel(trail, difference.value.Inverse()) <= level)
    && (|| level == 1
        || (exists u <- terms :: u != t && SatisfierLevel(trail, u) == level)
        || (difference.Some? && SatisfierLevel(trail, difference.value.Inverse()) == level))
  }

  /** `t` is the term among these that became satisfied last, by assignment `s`. */
  ghost predicate IsMostRecent(trail: Trail, terms: seq<Term>, t: Term, s: Assignment)
    requires forall u <- terms :: u.WellFormed() && Holds(trail, |trail|, u)
  {
    && t in terms && s == trail[SatisfierIndex(trail, |trail|, t)]
    && s.index == SatisfierIndex(trail, |trail|, t)
    && forall u <- terms :: u != t ==> SatisfierIndex(trail, |trail|, u) < s.index
  }

  /** Everything the scan over the terms of a conflict has found out so far. */
  ghost predicate Scanned(trail: Trail, seen: seq<Term>, t: Term, s: Assignment, difference: Option<Term>, level: nat) {
    && (forall u <- seen :: u.WellFormed() && Holds(trail, |trail|, u))
    && IsMostRecent(trail, seen, t, s)
    && s.term.name == t.name && difference == s.term.Difference(t)
    && IsPreviousLevel(trail, seen, t, difference, level)
  }

  function Max(a: nat, b: nat): nat {
    if a < b then b else a
  }

  /** The level contributed by what the satisfier of `t` leaves over. */
  ghost function DifferenceLevel(trail: Trail, difference: Option<Term>): nat {
    match difference
    case None => 0
    case Some(d) => SatisfierLevel(trail, d.Inverse())
  }

  lemma {:induction false} ScanFirst(p: Provider, trail: Trail, term: Term)
    requires JustifiedTrail(p, trail) && p.TermOk(term) && Holds(trail, |trail|, term)
    ensures var s := trail[SatisfierIndex(trail, |trail|, term)];
            var d := s.term.Difference(term);
            Scanned(trail, [term], term, s, d, Max(1, DifferenceLevel(trail, d)))
  {
    assert WellPlaced(trail, SatisfierIndex(trail, |trail|, term));
  }

  /** A term that became satisfied earlier only raises the level to go back to. */
  lemma {:induction false} ScanOlder(p: Provider, trail: Trail, seen: seq<Term>, term: Term, t: Term, s: Assignment,
      difference: Option<Term>, level: nat)
    requires JustifiedTrail(p, trail) && p.TermOk(term) && Holds(trail, |trail|, term)
    requires Scanned(trail, seen, t, s, difference, level) && forall u <- seen :: u.name != term.name
    requires SatisfierIndex(trail, |trail|, term) <= s.index
    ensures Scanned(trail, seen + [term], t, s, difference, Max(level, SatisfierLevel(trail, term)))
  {
    var terms, level' := seen + [term], Max(level, SatisfierLevel(trail, term));
    assert forall u :: u in terms <==> u in seen || u == term;
    assert term in terms && term != t;
  }

  /** A term that became satisfied later takes over; what it replaces counts as one of the others. */
  lemma {:induction false} ScanNewer(p: Provider, trail: Trail, seen: seq<Term>, term: Term, t: Term, s: Assignment,
      difference: Option<Term>, level: nat)
    requires JustifiedTrail(p, trail) && p.TermOk(term) && Holds(trail, |trail|, term)
    requires Scanned(trail, seen, t, s, difference, level) && forall u <- seen :: u.name != term.name && p.TermOk(u)
    requires s.index < SatisfierIndex(trail, |trail|, term)
    ensures var s' := trail[SatisfierIndex(trail, |trail|, term)];
            var d := s'.term.Difference(term);
            Scanned(trail, seen + [term], term, s', d, Max(Max(level, s.level), DifferenceLevel(trail, d)))
  {
    var terms := seen + [term];
    assert forall u :: u in terms <==> u in seen || u == term;
    assert WellPlaced(trail, SatisfierIndex(trail, |trail|, term));
    assert t in terms && t != term && SatisfierLevel(trail, t) == s.level;
    if difference.Some? {
      DifferenceExcluded(p, trail, t, |trail|);
      RemainderLevel(trail, difference.value.Inverse(), s.index);
    }
  }

  lemma {:induction false} RemainderLevel(trail: Trail, t: Term, i: nat)
    requires WellFormedTrail(trail) && i < |trail| && t.WellFormed() && Holds(trail, i, t)
    ensures SatisfierLevel(trail, t) <= trail[i].level
  {
    HoldsLater(trail, i, |trail|, t);
    SatisfierBefore(trail, i, t);
    LevelsSorted(trail, SatisfierIndex(trail, |trail|, t), i);
  }

  /** A term that holds early was made to hold early. */
  lemma {:induction false} SatisfierBefore(trail: Trail, k: nat, t: Term)
    requires k <= |trail| && t.WellFormed() && Holds(trail, k, t) && Holds(trail, |trail|, t)
    ensures SatisfierIndex(trail, |trail|, t) < k
  {
    SatisfierUnique(trail, t, SatisfierIndex(trail, |trail|, t), SatisfierIndex(trail, k, t));
  }

  /**
   Where resolution stops the level to go back to is lower than the satisfier's, and on the trail
   cut at that level the incompatibility is a unit.
   */
  lemma {:induction false} StopsAtUnit(p: Provider, trail: Trail, i: Incompatibility, t: Term, s: Assignment,
      difference: Option<Term>, level: nat)
    requires JustifiedTrail(p, trail) && DistinctNames(i.terms) && forall u <- i.terms :: p.TermOk(u)
    requires Scanned(trail, i.terms, t, s, difference, level)
    requires level < s.level || s.IsDecision()
    ensures 1 <= level < s.level <= Level(trail, |trail|)
    ensures 0 < Cut(trail, level) < |trail|
    ensures IsUnit(trail[..Cut(trail, level)], i, t)
  {
    if s.IsDecision() {
      DecisionIsAboveItsConflict(p, trail, i.terms, t, s, difference, level);
    }
    assert Justified(p, trail, s.index);
    assert WellPlaced(trail, s.index) && WellPlaced(trail, 0) && trail[0].level == Level(trail, 1) == 0;
    LevelsRise(trail, s.index + 1, |trail|);
    CutBelow(trail, level, 0);
    CutBelow(trail, level, s.index);
    BackjumpIsUnit(p, trail, |trail|, i, t, level);
  }

  lemma {:induction false} DecisionIsAboveItsConflict(p: Provider, trail: Trail, terms: seq<Term>, t: Term,
      s: Assignment, difference: Option<Term>, level: nat)
    requires JustifiedTrail(p, trail) && forall u <- terms :: p.TermOk(u)
    requires Scanned(trail, terms, t, s, difference, level) && s.IsDecision()
    ensures level < s.level
  {
    DifferenceExcluded(p, trail, t, |trail|);
    assert WellPlaced(trail, s.index) && Justified(p, trail, s.index);
    // the root's version was fixed before it was decided, so its decision satisfies nothing new
    RootPinned(p, trail, s.index);
    if u :| u in terms && u != t && SatisfierLevel(trail, u) == level {
      LevelsSorted(trail, SatisfierIndex(trail, |trail|, u), s.index);
    }
  }

  /** Where resolution goes on, the other terms hold before the satisfier that is resolved away. */
  lemma {:induction false} GoesOn(p: Provider, trail: Trail, limit: nat, i: Incompatibility, t: Term, s: Assignment,
      difference: Option<Term>, level: nat)
    requires p.WellFormed() && JustifiedTrail(p, trail) && limit <= |trail|
    requires p.IncompatibilityOk(i) && Satisfied(trail, |trail|, i) && Satisfied(trail, limit, i)
    requires forall u <- i.terms :: p.TermOk(u)
    requires Scanned(trail, i.terms, t, s, difference, level) && !s.IsDecision()
    ensures s.index < limit
    ensures var r := Build(PriorCauseTerms(i, t, s), ConflictCause(i, s.cause.value));
            r.Some? && p.IncompatibilityOk(r.value) && Satisfied(trail, s.index, r.value)
  {
    assert Holds(trail, limit, t);
    SatisfierBefore(trail, limit, t);
    forall u | u in i.terms && u != t
      ensures Holds(trail, s.index, u)
    {
      HoldsLater(trail, SatisfierIndex(trail, |trail|, u) + 1, s.index, u);
    }
    PriorCause(p, trail, |trail|, i, t);
  }

  /** The incompatibility refutes the problem: nothing that selects the root satisfies its leaves. */
  ghost predicate Refutes(p: Provider, reason: Incompatibility) {
    && reason.IsFailure()
    && (forall e <- reason.External() :: p.IsFact(e))
    && (forall s: Selection :: p.Rooted(s) ==> exists e <- reason.External() :: Violates(s, e.terms))
  }

  lemma {:induction false} FailureRefutes(p: Provider, trail: Trail, k: nat, i: Incompatibility)
    requires JustifiedTrail(p, trail) && k <= |trail|
    requires p.IncompatibilityOk(i) && Satisfied(trail, k, i) && i.IsFailure()
    ensures Refutes(p, i)
  {
    forall s: Selection | p.Rooted(s)
      ensures exists e <- i.External() :: Violates(s, e.terms)
    {
      FailureIsUniversal(p, trail, k, i, s);
    }
  }

  lemma {:induction false} RetreatConsistent(p: Provider, trail: Trail, k: nat, registry: Registry,
      known: set<Incompatibility>)
    requires Consistent(p, trail, registry, known) && 0 < k <= |trail| && Level(trail[..k], k) > 0
    ensures Consistent(p, trail[..k], registry, known)
  {
    JustifiedPrefix(p, trail, k);
    assert forall a <- trail[..k] :: a in trail;
  }

  /** The trail grew by derivations only. */
  ghost predicate Grown(before: Trail, after: Trail) {
    before <= after && Level(after, |after|) == Level(before, |before|)
  }

  ghost predicate Backjumped(before: Trail, after: Trail) {
    1 <= Level(after, |after|) < Level(before, |before|)
  }

  /** Incompatibilities that a propagation starting from the package has to deal with. */
  ghost predicate PendingFor(trail: Trail, known: set<Incompatibility>, pending: set<Incompatibility>, n: Name) {
    forall e <- pending :: e in known && Mentions(e, n) && AlmostSatisfied(trail, e)
  }

  /** A derivation, seen from outside. */
  lemma {:induction false} DerivesGrows(p: Provider, absent: Absent, trail: Trail, i: Incompatibility, n: Name,
      longer: Trail, settled: int)
    requires JustifiedTrail(p, trail) && JustifiedTrail(p, longer) && Derives(trail, i, n, longer)
    requires Settled(p, absent, trail, settled)
    ensures Grown(trail, longer) && trail < longer
    ensures Rank(p, longer) < Rank(p, trail)
    ensures Settled(p, absent, longer, settled)
  {
    var a := longer[|trail|];
    assert longer == trail + [a];
    Extend(trail, a, n);
    assert trail[..|trail|] == trail;
    RankFalls(p, trail, |trail|, a, longer);
    SettledExtend(p, absent, trail, a, settled);
  }

  /** Going back to a lower level and deriving there, seen from outside. */
  lemma {:induction false} RestartFalls(p: Provider, absent: Absent, trail: Trail, level: nat, shorter: Trail,
      i: Incompatibility, n: Name, after: Trail, settled: int)
    requires JustifiedTrail(p, trail) && JustifiedTrail(p, after) && JustifiedTrail(p, shorter)
    requires 1 <= level < Level(trail, |trail|) && shorter == trail[..Cut(trail, level)]
    requires Derives(shorter, i, n, after)
    requires Settled(p, absent, trail, settled) && Level(trail, |trail|) - 1 <= settled
    ensures Backjumped(trail, after) && Rank(p, after) < Rank(p, trail)
    ensures Settled(p, absent, after, Level(after, |after|))
  {
    var cut := Cut(trail, level);
    LevelOfCut(trail, level);
    SettledShorten(p, absent, trail, level, settled);
    var a := after[cut];
    assert after == shorter + [a];
    Extend(shorter, a, n);
    SettledExtend(p, absent, shorter, a, level);
    forall j | cut <= j < |trail|
      ensures trail[j].level > a.level
    {
      CutBelow(trail, level, j);
    }
    RankFalls(p, trail, cut, a, after);
  }

  /** The outcome of looking at one incompatibility during propagation. */
  datatype Visit = Nothing | Assigned(name: Name) | Restarted(name: Name) | Refuted(reason: Incompatibility)

  /** The packages that remain to be propagated after a visit. */
  function Changed(r: Visit, changed: set<Name>): set<Name> {
    match r
    case Nothing => changed
    case Assigned(n) => changed + {n}
    case Restarted(n) => {n}
    case Refuted(_) => {}
  }

  predicate NamedIn(r: Visit, names: set<Name>) {
    r.Assigned? || r.Restarted? ==> r.name in names
  }

  lemma {:induction false} ChangedIn(r: Visit, changed: set<Name>, names: set<Name>)
    requires changed <= names && NamedIn(r, names)
    ensures Changed(r, changed) <= names
  {
  }

  ghost predicate Visited(p: Provider, absent: Absent, r: Visit, i: Incompatibility, settled: int, trail: Trail,
                          after: Trail)
  {
    match r
    case Nothing =>
      after == trail && (Contradicted(trail, |trail|, i) || !AlmostSatisfied(trail, i))
    case Assigned(n) =>
      && JustifiedTrail(p, trail) && JustifiedTrail(p, after)
      && Grown(trail, after) && Rank(p, after) < Rank(p, trail)
      && Settled(p, absent, after, settled) && Contradicted(after, |after|, i)
    case Restarted(n) =>
      && JustifiedTrail(p, trail) && JustifiedTrail(p, after)
      && Backjumped(trail, after) && Rank(p, after) < Rank(p, trail)
      && Settled(p, absent, after, Level(after, |after|))
    case Refuted(reason) => Refutes(p, reason)
  }

  /** What propagation achieves on a trail: it shrinks the rank or does nothing, and settles. */
  ghost predicate Propagated(p: Provider, absent: Absent, settled: int, pending: set<Incompatibility>, trail: Trail,
                             after: Trail)
  {
    && JustifiedTrail(p, trail) && JustifiedTrail(p, after)
    && (after != trail ==> Rank(p, after) < Rank(p, trail))
    && if Backjumped(trail, after) then Settled(p, absent, after, Level(after, |after|))
       else
         && Grown(trail, after) && Settled(p, absent, after, settled)
         && forall e <- pending :: Contradicted(after, |after|, e)
  }

  /** The same with the incompatibilities below position `j` of a list still to be visited. */
  ghost predicate Halfway(p: Provider, absent: Absent, settled: int, pending: set<Incompatibility>,
                          list: seq<Incompatibility>, j: nat, trail: Trail, after: Trail)
    requires j <= |list|
  {
    && JustifiedTrail(p, trail) && JustifiedTrail(p, after)
    && (after != trail ==> Rank(p, after) < Rank(p, trail))
    && Grown(trail, after) && Settled(p, absent, after, settled)
    && (forall e <- pending :: AlmostSatisfied(trail, e))
    && (forall e <- pending :: e in list[..j] || Contradicted(after, |after|, e))
  }

  lemma {:induction false} HalfwayStart(p: Provider, absent: Absent, settled: int, pending: set<Incompatibility>,
      trail: Trail, registry: Registry, known: set<Incompatibility>, n: Name)
    requires JustifiedTrail(p, trail) && Settled(p, absent, trail, settled) && Lists(registry, known) && n in registry
    requires PendingFor(trail, known, pending, n)
    ensures Halfway(p, absent, settled, pending, registry[n], |registry[n]|, trail, trail)
    ensures forall e <- registry[n] :: e in known
  {
    ListedPending(registry, known, pending, n);
  }

  lemma {:induction false} HalfwayDone(p: Provider, absent: Absent, settled: int, pending: set<Incompatibility>,
      list: seq<Incompatibility>, trail: Trail, after: Trail)
    requires Halfway(p, absent, settled, pending, list, 0, trail, after)
    ensures Propagated(p, absent, settled, pending, trail, after)
  {
  }

  lemma {:induction false} HalfwayStep(p: Provider, absent: Absent, r: Visit, settled: int,
      pending: set<Incompatibility>, list: seq<Incompatibility>, j: nat, trail: Trail, before: Trail, after: Trail)
    requires j < |list| && Halfway(p, absent, settled, pending, list, j + 1, trail, before)
    requires Visited(p, absent, r, list[j], settled, before, after)
    ensures r.Nothing? || r.Assigned? ==> Halfway(p, absent, settled, pending, list, j, trail, after)
    ensures r.Assigned? ==> after != trail
    ensures r.Restarted? ==> after != trail && Backjumped(trail, after)
    ensures r.Restarted? ==> Propagated(p, absent, settled, pending, trail, after)
  {
    if r.Nothing? || r.Assigned? {
      assert before <= after;
      PendingShrinks(trail, before, after, pending, list, j);
    }
  }

  /** A round of propagation, be it the first one or a later one. */
  lemma {:induction false} RoundDone(p: Provider, absent: Absent, first: bool, pending: set<Incompatibility>,
      trail: Trail, before: Trail, after: Trail)
    requires Propagated(p, absent, SettledLevel(p, absent, before), if first then pending else {}, before, after)
    requires first ==> before == trail && SettledOrPending(p, absent, trail, pending)
    requires !first ==> Fixpoint(p, absent, pending, trail, before)
    ensures Fixpoint(p, absent, pending, trail, after)
    ensures !first && !Backjumped(trail, after) ==> !Backjumped(trail, before) && !Backjumped(before, after)
    ensures after != before ==> Rank(p, after) < Rank(p, before)
  {
    if first {
      FirstRound(p, absent, SettledLevel(p, absent, trail), pending, trail, after);
    } else {
      NextRound(p, absent, pending, trail, before, after);
    }
  }

  /** Everything decided is settled, except possibly the last decision, whose facts are pending. */
  ghost predicate SettledOrPending(p: Provider, absent: Absent, trail: Trail, pending: set<Incompatibility>) {
    var level := Level(trail, |trail|);
    || Settled(p, absent, trail, level)
    || (&& Settled(p, absent, trail, level - 1)
        && forall a <- trail :: a.IsDecision() && a.level == level ==> FactsWithin(p, absent, a, pending))
  }

  /** Where propagation ends: everything decided is settled, and what was pending is dealt with. */
  ghost predicate Fixpoint(p: Provider, absent: Absent, pending: set<Incompatibility>, trail: Trail, after: Trail) {
    && JustifiedTrail(p, trail) && JustifiedTrail(p, after)
    && (after != trail ==> Rank(p, after) < Rank(p, trail))
    && Settled(p, absent, after, Level(after, |after|))
    && (|| Backjumped(trail, after)
        || (Grown(trail, after) && forall e <- pending :: Contradicted(after, |after|, e)))
  }

  /** The highest level up to which everything decided is settled, of the last two. */
  ghost function SettledLevel(p: Provider, absent: Absent, trail: Trail): int {
    var level := Level(trail, |trail|);
    if Settled(p, absent, trail, level) then level else level - 1
  }

  lemma {:induction false} FirstRound(p: Provider, absent: Absent, settled: int, pending: set<Incompatibility>,
      trail: Trail, after: Trail)
    requires SettledOrPending(p, absent, trail, pending) && Propagated(p, absent, settled, pending, trail, after)
    requires settled == SettledLevel(p, absent, trail)
    ensures Fixpoint(p, absent, pending, trail, after)
  {
    if !Backjumped(trail, after) && settled < Level(trail, |trail|) {
      SettledByPending(p, absent, trail, after, pending);
    }
  }

  lemma {:induction false} NextRound(p: Provider, absent: Absent, pending: set<Incompatibility>, trail: Trail,
      before: Trail, after: Trail)
    requires Fixpoint(p, absent, pending, trail, before)
    requires Propagated(p, absent, SettledLevel(p, absent, before), {}, before, after)
    ensures Fixpoint(p, absent, pending, trail, after)
  {
    if Grown(trail, before) && Grown(before, after) {
      forall e | e in pending && Contradicted(before, |before|, e)
        ensures Contradicted(after, |after|, e)
      {
        ContradictedLonger(before, after, e);
      }
    }
  }

  // ----- choosing a version

  lemma {:induction false} ReplayInUniverse(p: Provider, trail: Trail, k: nat, n: Name)
    requires JustifiedTrail(p, trail) && k <= |trail|
    ensures match Replay(trail, k, n)
            case None => true
            case Some(t) =>
              && n in p.names && (t.isRoot ==> n == p.root)
              && exists a <- trail :: a.term.name == n
  {
    if k > 0 {
      ReplayInUniverse(p, trail, k - 1, n);
      assert Justified(p, trail, k - 1);
      assert trail[k - 1] in trail;
    }
  }

  /** What the solver may pick: a required, undecided package, which is the root only at level 0. */
  lemma {:induction false} ChoiceOk(p: Provider, trail: Trail, registry: Registry, known: set<Incompatibility>,
      decisions: map<Name, Version>, t: Term)
    requires Consistent(p, trail, registry, known) && Decides(trail, decisions) && trail != []
    requires Level(trail, |trail|) == 0 ==> known <= {p.RootFact()}
    requires Replay(trail, |trail|, t.name) == Some(t) && t.positive && t.name !in decisions
    ensures p.TermOk(t) && t.name in registry && Allowed(trail, |trail|, t.name) == In(t.constraint)
    ensures if Level(trail, |trail|) == 0 then t == p.PackageTerm(p.root, p.rootVersion) && |trail| == 1
            else t.name != p.root && !t.isRoot
  {
    ReplaySpan(trail, |trail|, t.name);
    ReplayInUniverse(p, trail, |trail|, t.name);
    AllowedInUniverse(p, trail, |trail|, t.name);
    if Level(trail, |trail|) == 0 {
      assert Replay(trail, 0, t.name).None?;
    } else {
      var j := RootDecidedFirst(p, trail);
    }
  }

  /** A required package without versions: the fact that says so is violated at once. */
  lemma {:induction false} NoVersionsViolated(p: Provider, trail: Trail, t: Term)
    requires p.WellFormed() && JustifiedTrail(p, trail) && p.TermOk(t) && t.positive && t.name != p.root
    requires Allowed(trail, |trail|, t.name) == In(t.constraint) && p.Search(t) == {}
    ensures p.IncompatibilityOk(p.NoVersionsFact(t))
    ensures Mentions(p.NoVersionsFact(t), t.name)
    ensures AlmostSatisfied(trail, p.NoVersionsFact(t)) && !Contradicted(trail, |trail|, p.NoVersionsFact(t))
  {
    var e := p.NoVersionsFact(t);
    assert p.IsFact(e) && e.External() == {e};
    SingleTermPends(trail, e, t);
  }

  /** It is one more of its kind, and what is decided stays settled. */
  lemma {:induction false} NoVersionsKeeps(p: Provider, trail: Trail, registry: Registry, known: set<Incompatibility>,
      absent: Absent, decisions: map<Name, Version>, t: Term)
    requires p.WellFormed() && JustifiedTrail(p, trail) && p.Search(t) == {} && t.name != p.root
    requires Choosable(p, trail, registry, decisions, t) && Decides(trail, decisions) && Level(trail, |trail|) > 0
    requires Sourced(trail, known, absent) && Settled(p, absent, trail, Level(trail, |trail|))
    ensures var e := p.NoVersionsFact(t);
            && p.IncompatibilityOk(e)
            && Sourced(trail, known + {e}, absent + {e})
            && Settled(p, absent + {e}, trail, Level(trail, |trail|))
            && PendingFor(trail, known + {e}, {e}, t.name) && Stuck(p, trail, {e})
  {
    NoVersionsViolated(p, trail, t);
    assert !DecidedIn(trail, t.name);
    SourcedNoVersions(p, trail, known, absent, t, Level(trail, |trail|));
  }

  lemma {:induction false} SingleTermPends(trail: Trail, e: Incompatibility, t: Term)
    requires e.terms == [t] && t.positive && t.constraint != {}
    requires Allowed(trail, |trail|, t.name) == In(t.constraint)
    ensures Mentions(e, t.name) && AlmostSatisfied(trail, e) && !Contradicted(trail, |trail|, e)
  {
    assert t in e.terms && SatisfiedBut(trail, |trail|, e, t);
  }

  /** All terms hold but those about package `n`: selecting the version would be a conflict. */
  ghost predicate ConflictsWith(trail: Trail, e: Incompatibility, n: Name) {
    forall t <- e.terms :: t.name == n || Holds(trail, |trail|, t)
  }

  /** While only the root is on the trail, no term about another package holds. */
  lemma {:induction false} OnlyRootIsKnown(p: Provider, trail: Trail, u: Term)
    requires JustifiedTrail(p, trail) && |trail| == 1 && u.WellFormed() && u.name != p.root
    ensures !Holds(trail, 1, u)
  {
    assert Allowed(trail, 1, u.name) == Allowed(trail, 0, u.name);
  }

  lemma {:induction false} FactsOk(p: Provider, n: Name, v: Version, facts: seq<Incompatibility>)
    requires p.WellFormed() && n in p.names && v in p.versions && p.Facts(n, v) == Some(facts)
    ensures forall e <- facts :: p.IncompatibilityOk(e) && e != p.RootFact()
  {
    forall e <- facts ensures p.IncompatibilityOk(e) && e != p.RootFact() {
      FactsMembers(p, n, v, e);
    }
  }

  /** A fact that speaks against selecting the version is almost satisfied, and not out of play. */
  lemma {:induction false} ConflictingFactPends(p: Provider, trail: Trail, t: Term, v: Version, e: Incompatibility)
    requires p.WellFormed() && JustifiedTrail(p, trail) && p.TermOk(t) && v in t.constraint
    requires Allowed(trail, |trail|, t.name) == In(t.constraint)
    requires p.Facts(t.name, v).Some? && e in p.Facts(t.name, v).value && ConflictsWith(trail, e, t.name)
    ensures AlmostSatisfied(trail, e) && !Contradicted(trail, |trail|, e)
    ensures |trail| == 1 && t == p.PackageTerm(p.root, p.rootVersion) ==> e.terms == [t]
  {
    FactsMembers(p, t.name, v, e);
    var own := p.PackageTerm(t.name, v);
    assert SatisfiedBut(trail, |trail|, e, own);
    forall u | u in e.terms
      ensures !Clashes(trail, |trail|, u)
    {
      NeverEmpty(trail, |trail|, u.name);
      assert u.name == t.name ==> u == own;
    }
    if |trail| == 1 && |e.terms| == 2 && t == p.PackageTerm(p.root, p.rootVersion) {
      assert e.terms[1] in e.terms;
      OnlyRootIsKnown(p, trail, e.terms[1]);
    }
  }

  /** Deciding keeps the trail justified, lowers the rank, and leaves the version's facts pending. */
  lemma {:induction false} DecideConsistent(p: Provider, trail: Trail, registry: Registry,
      known: set<Incompatibility>, decisions: map<Name, Version>, t: Term, v: Version)
    requires p.WellFormed() && Consistent(p, trail, registry, known) && Decides(trail, decisions) && trail != []
    requires p.TermOk(t) && t.name in registry && t.name !in decisions && v in t.constraint
    requires Allowed(trail, |trail|, t.name) == In(t.constraint) && p.Offers(t.name, v)
    requires Level(trail, |trail|) == 0 ==> t.name == p.root
    ensures var longer := trail + [Assignment(p.PackageTerm(t.name, v), Level(trail, |trail|) + 1, |trail|, None)];
            && Consistent(p, longer, registry, known)
            && Rank(p, longer) < Rank(p, trail)
            && Level(longer, |longer|) == Level(trail, |trail|) + 1
            && Allowed(longer, |longer|, t.name) == In({v})
  {
    var a := Assignment(p.PackageTerm(t.name, v), Level(trail, |trail|) + 1, |trail|, None);
    var longer := trail + [a];
    Extend(trail, a, t.name);
    DecisionIsOpen(t.constraint, v);
    assert forall j :: 0 <= j < |trail| ==> longer[j] == trail[j];
    ExtendWellFormed(trail, a);
    assert p.TermOk(a.term) && TheVersion(a.term) == v;
    ExtendJustified(p, trail, a);
    assert trail[..|trail|] == trail;
    RankFalls(p, trail, |trail|, a, longer);
  }

  lemma {:induction false} FactsPendAfterDecision(p: Provider, absent: Absent, trail: Trail, a: Assignment, v: Version,
      known: set<Incompatibility>, pending: set<Incompatibility>)
    requires p.WellFormed() && JustifiedTrail(p, trail + [a]) && WellFormedTrail(trail)
    requires a.IsDecision() && a.term == p.PackageTerm(a.term.name, v)
    requires Level(trail + [a], |trail| + 1) == Level(trail, |trail|) + 1
    requires Allowed(trail + [a], |trail| + 1, a.term.name) == In({v})
    requires Settled(p, absent, trail, Level(trail, |trail|))
    requires p.Facts(a.term.name, v).Some? && pending == FactsAbout(p, absent, a.term.name, v) <= known
    requires forall e <- absent :: IsAbsence(e)
    ensures PendingFor(trail + [a], known, pending, a.term.name)
    ensures SettledOrPending(p, absent, trail + [a], pending)
  {
    var longer, n := trail + [a], a.term.name;
    assert Justified(p, longer, |trail|) && WellPlaced(longer, |trail|);
    assert longer[|trail|] == a;
    forall e | e in pending
      ensures Mentions(e, n) && AlmostSatisfied(longer, e)
    {
      if e in p.Facts(n, v).value {
        FactsMembers(p, n, v, e);
      }
      assert Holds(longer, |longer|, a.term);
      var open := e.terms[|e.terms| - 1];
      assert open in e.terms && SatisfiedBut(longer, |longer|, e, open);
    }
    SettledExtend(p, absent, trail, a, Level(trail, |trail|));
    forall b | b in longer && b.IsDecision() && b.level == Level(longer, |longer|)
      ensures FactsWithin(p, absent, b, pending)
    {
      var j :| 0 <= j < |longer| && longer[j] == b;
      if j < |trail| {
        LevelsSorted(longer, j, |trail|);
      }
      assert b == a && TheVersion(a.term) == v;
    }
  }

  lemma {:induction false} NoFactsMeansSelfDependency(p: Provider, n: Name, v: Version)
    requires p.Facts(n, v).None?
    ensures p.DependsOnItself(n, v)
  {
    var ds := p.requirements(n, v).dependencies;
    DependencyFactsMembers(p, n, v, ds);
    var d :| d in ds && p.DependencyFact(n, v, d).None?;
    DependencyFactShape(p, n, v, d);
  }

  /** The trail grew by one decision. */
  ghost predicate Decided(p: Provider, before: Trail, after: Trail) {
    && JustifiedTrail(p, before) && JustifiedTrail(p, after)
    && Rank(p, after) < Rank(p, before)
    && Level(after, |after|) == Level(before, |before|) + 1
  }

  /** Something pending is not out of play yet; before the root is decided it forbids the root. */
  ghost predicate Stuck(p: Provider, trail: Trail, pending: set<Incompatibility>) {
    exists e <- pending ::
      && !Contradicted(trail, |trail|, e)
      && (Level(trail, |trail|) == 0 ==> e.terms == [p.PackageTerm(p.root, p.rootVersion)])
  }

  lemma {:induction false} ConflictStuck(p: Provider, trail: Trail, registry: Registry, known: set<Incompatibility>,
      decisions: map<Name, Version>, t: Term, v: Version, facts: seq<Incompatibility>)
    returns (e: Incompatibility)
    requires p.WellFormed() && JustifiedTrail(p, trail) && Choosable(p, trail, registry, decisions, t)
    requires v in t.constraint && p.Offers(t.name, v) && p.Facts(t.name, v) == Some(facts)
    requires (forall e <- facts :: e in known) && exists e <- facts :: ConflictsWith(trail, e, t.name)
    ensures PendingFor(trail, known, {e}, t.name) && Stuck(p, trail, {e})
  {
    e :| e in facts && ConflictsWith(trail, e, t.name);
    ConflictingFactPends(p, trail, t, v, e);
    FactsMembers(p, t.name, v, e);
  }

  /** A required, undecided package; at level 0 it is the root, and nothing else is on the trail. */
  ghost predicate Choosable(p: Provider, trail: Trail, registry: Registry, decisions: map<Name, Version>, t: Term) {
    && p.TermOk(t) && t.name in registry && t.name !in decisions
    && Replay(trail, |trail|, t.name) == Some(t) && t.positive
    && Allowed(trail, |trail|, t.name) == In(t.constraint)
    && (Level(trail, |trail|) == 0 ==> t == p.PackageTerm(p.root, p.rootVersion) && |trail| == 1)
  }

  // ----- the end of the search

  /** A decided package keeps exactly the decided version. */
  lemma {:induction false} DecidedVersionOnly(trail: Trail, decisions: map<Name, Version>, n: Name)
    requires WellFormedTrail(trail) && Decides(trail, decisions) && n in decisions
    ensures Allowed(trail, |trail|, n) == In({decisions[n]})
  {
    assert DecidedIn(trail, n);
    var j :| 0 <= j < |trail| && trail[j].IsDecision() && trail[j].term.name == n;
    assert WellPlaced(trail, j);
    AllowedShrinks(trail, j + 1, |trail|, n);
    MeetShrinks(Allowed(trail, j, n), trail[j].term.Span());
    WithinTransitive(Allowed(trail, |trail|, n), Allowed(trail, j + 1, n), trail[j].term.Span());
    NeverEmpty(trail, |trail|, n);
  }

  /** Everything required is decided. */
  ghost predicate AllDecided(trail: Trail, decisions: map<Name, Version>) {
    forall n :: Allowed(trail, |trail|, n).In? ==> n in decisions
  }

  lemma {:induction false} RequirementMet(p: Provider, trail: Trail, decisions: map<Name, Version>, n: Name,
      d: Dependency)
    requires WellFormedTrail(trail) && Decides(trail, decisions) && AllDecided(trail, decisions)
    requires n in decisions && p.DependencyFact(n, decisions[n], d).Some?
    requires Contradicted(trail, |trail|, p.DependencyFact(n, decisions[n], d).value)
    ensures p.Requirement(decisions, d)
  {
    var v := decisions[n];
    var e := p.DependencyFact(n, v, d).value;
    DependencyFactShape(p, n, v, d);
    DecidedVersionOnly(trail, decisions, n);
    var t :| t in e.terms && Clashes(trail, |trail|, t);
    assert t != p.PackageTerm(n, v);
    assert Allowed(trail, |trail|, d.name).In?;
    DecidedVersionOnly(trail, decisions, d.name);
  }

  /** When nothing is left to decide and everything decided is settled, all requirements are met. */
  lemma {:induction false} FinishedFulfils(p: Provider, absent: Absent, trail: Trail, decisions: map<Name, Version>)
    requires JustifiedTrail(p, trail) && trail != []
    requires Decides(trail, decisions) && AllDecided(trail, decisions)
    requires Settled(p, absent, trail, Level(trail, |trail|))
    ensures p.Fulfils(decisions)
  {
    RootPinned(p, trail, |trail|);
    DecidedVersionOnly(trail, decisions, p.root);
    forall n | n in decisions
      ensures p.RequirementsMet(decisions, n) && p.Offers(n, decisions[n])
    {
      assert DecidedIn(trail, n);
      var j :| 0 <= j < |trail| && trail[j].IsDecision() && trail[j].term.name == n;
      assert WellPlaced(trail, j) && Justified(p, trail, j);
      LevelsRise(trail, j + 1, |trail|);
      assert DecisionSettled(p, absent, trail, j);
      var v := TheVersion(trail[j].term);
      assert {v} == {decisions[n]} && v in {decisions[n]};
      assert forall e <- p.Facts(n, v).value :: e in FactsAbout(p, absent, n, v);
      SettledRequirementsMet(p, trail, decisions, n, trail[j].level);
    }
  }

  lemma {:induction false} AbsenceContradicted(p: Provider, absent: Absent, trail: Trail,
      decisions: map<Name, Version>, e: Incompatibility, n: Name)
    requires JustifiedTrail(p, trail) && Decides(trail, decisions) && n in decisions
    requires Settled(p, absent, trail, Level(trail, |trail|)) && e in absent && Mentions(e, n)
    ensures Contradicted(trail, |trail|, e)
  {
    assert DecidedIn(trail, n);
    var j :| 0 <= j < |trail| && trail[j].IsDecision() && trail[j].term.name == n;
    assert WellPlaced(trail, j) && Justified(p, trail, j);
    LevelsRise(trail, j + 1, |trail|);
    assert DecisionSettled(p, absent, trail, j);
    assert e in FactsAbout(p, absent, n, TheVersion(trail[j].term));
    ContradictedLater(trail, Cut(trail, trail[j].level), |trail|, e);
  }

  /** No decided version is one of which a search found that there are none. */
  lemma {:induction false} SettledAvailable(p: Provider, absent: Absent, trail: Trail, decisions: map<Name, Version>,
      e: Incompatibility)
    requires JustifiedTrail(p, trail) && Decides(trail, decisions)
    requires Settled(p, absent, trail, Level(trail, |trail|)) && e in absent && IsAbsence(e)
    ensures !Violates(decisions, e.terms)
  {
    var t := e.terms[0];
    assert t in e.terms;
    if t.name in decisions {
      AbsenceContradicted(p, absent, trail, decisions, e, t.name);
      DecidedVersionOnly(trail, decisions, t.name);
    }
  }

  lemma {:induction false} FinishedNeeded(p: Provider, absent: Absent, trail: Trail, known: set<Incompatibility>,
      decisions: map<Name, Version>)
    requires JustifiedTrail(p, trail) && Decides(trail, decisions) && p.Fulfils(decisions)
    requires Settled(p, absent, trail, Level(trail, |trail|)) && Sourced(trail, known, absent)
    ensures OnlyNeeded(p, decisions)
  {
    forall e <- absent ensures !Violates(decisions, e.terms) {
      SettledAvailable(p, absent, trail, decisions, e);
    }
    forall n <- decisions ensures Allowed(trail, |trail|, n) == In({decisions[n]}) {
      DecidedVersionOnly(trail, decisions, n);
    }
    DecidedIsNeeded(p, trail, absent, decisions);
  }

  lemma {:induction false} SettledRequirementsMet(p: Provider, trail: Trail, decisions: map<Name, Version>, n: Name,
      level: nat)
    requires WellFormedTrail(trail) && Decides(trail, decisions) && AllDecided(trail, decisions)
    requires n in decisions && p.Facts(n, decisions[n]).Some?
    requires forall e <- p.Facts(n, decisions[n]).value :: Contradicted(trail, Cut(trail, level), e)
    ensures p.RequirementsMet(decisions, n)
  {
    var v := decisions[n];
    DecidedVersionOnly(trail, decisions, n);
    match p.requirements(n, v)
    case UnsupportedPython =>
      var e := Incompatibility([p.PackageTerm(n, v)], PythonCause);
      assert e in p.Facts(n, v).value;
      ContradictedLater(trail, Cut(trail, level), |trail|, e);
    case Requires(ds) =>
      DependencyFactsMembers(p, n, v, ds);
      forall d | d in ds
        ensures p.Requirement(decisions, d)
      {
        var e := p.DependencyFact(n, v, d).value;
        ContradictedLater(trail, Cut(trail, level), |trail|, e);
        RequirementMet(p, trail, decisions, n, d);
      }
  }

  /** Nothing is missing, and nothing is superfluous. */
  ghost predicate IsSolution(p: Provider, packages: Selection) {
    var selected := packages[p.root := p.rootVersion];
    p.root !in packages && p.Fulfils(selected) && OnlyNeeded(p, selected)
  }

  /** The result is right: it fulfils everything, or is a refutation, or names a self-dependency. */
  ghost predicate Answers(p: Provider, r: Result) {
    match r
    case Solved(packages) => IsSolution(p, packages)
    case Failed(reason) => Refutes(p, reason)
    case SelfDependent(n, v) => p.DependsOnItself(n, v) && p.Offers(n, v)
  }

  /** A round lowers the rank, or leaves it and gets stuck when it was not. */
  ghost predicate Advanced(p: Provider, before: Trail, wasStuck: bool, after: Trail, pending: set<Incompatibility>) {
    && JustifiedTrail(p, before) && JustifiedTrail(p, after) && after != []
    && Rank(p, after) <= Rank(p, before)
    && (wasStuck || !Stuck(p, after, pending) ==> Rank(p, after) < Rank(p, before))
    && (Level(after, |after|) == 0 ==> Stuck(p, after, pending))
  }

  /** Where the search stands between two rounds. */
  ghost predicate Searching(p: Provider, trail: Trail, known: set<Incompatibility>, pending: set<Incompatibility>,
      stuck: bool) {
    && (stuck ==> Stuck(p, trail, pending))
    && (trail == [] ==> pending == {p.RootFact()})
    && (Level(trail, |trail|) == 0 && !stuck ==> trail == [] && known <= {p.RootFact()})
  }

  /** Propagation makes progress when the search is stuck, and starts the trail if it is empty. */
  lemma {:induction false} RoundProgresses(p: Provider, absent: Absent, pending: set<Incompatibility>, trail: Trail,
      after: Trail, known: set<Incompatibility>, stuck: bool)
    requires Fixpoint(p, absent, pending, trail, after) && Searching(p, trail, known, pending, stuck)
    ensures after != []
    ensures Rank(p, after) <= Rank(p, trail) && (stuck ==> Rank(p, after) < Rank(p, trail))
    ensures Level(after, |after|) == 0 ==> !stuck && !Backjumped(trail, after) && known <= {p.RootFact()}
  {
    assert p.RootFact() in {p.RootFact()};
    if stuck {
      var e :| e in pending && !Contradicted(trail, |trail|, e)
               && (Level(trail, |trail|) == 0 ==> e.terms == [p.PackageTerm(p.root, p.rootVersion)]);
      if e.terms == [p.PackageTerm(p.root, p.rootVersion)] {
        RootTermStands(p, after, e);
      }
    }
  }

  /** A fact that only names the root package is not out of play once the root is pinned. */
  lemma {:induction false} RootTermStands(p: Provider, trail: Trail, e: Incompatibility)
    requires JustifiedTrail(p, trail) && trail != [] && e.terms == [p.PackageTerm(p.root, p.rootVersion)]
    ensures !Contradicted(trail, |trail|, e)
  {
    RootPinned(p, trail, |trail|);
  }

  lemma {:induction false} RootFactOk(p: Provider)
    requires p.WellFormed()
    ensures p.IncompatibilityOk(p.RootFact()) && Mentions(p.RootFact(), p.root)
    ensures AlmostSatisfied([], p.RootFact())
  {
    var e := p.RootFact();
    assert p.IsFact(e) && e.External() == {e};
    assert e.terms[0] in e.terms && SatisfiedBut([], 0, e, e.terms[0]);
  }

  lemma {:induction false} RulingOutRecords(trail: Trail, a: Assignment, contradicted: set<Incompatibility>,
      byLevel: map<nat, set<Incompatibility>>, searches: seq<Search>, i: Incompatibility)
    requires WellFormedTrail(trail + [a]) && !a.IsDecision() && Contradicted(trail + [a], |trail| + 1, i)
    requires SkipsSound(trail, contradicted, byLevel) && SearchesKept(trail, searches)
    ensures var level := Level(trail, |trail|);
            && SkipsSound(trail + [a], contradicted + {i}, byLevel[level := LevelSet(byLevel, level) + {i}])
            && SearchesKept(trail + [a], searches)
  {
    SkipsExtend(trail, a, contradicted, byLevel);
    SearchesExtend(trail, a, searches);
    Extend(trail, a, a.term.name);
    SkipsAdd(trail + [a], contradicted, byLevel, i);
  }

  /** Ruling out the open term of a unit keeps the agreement, with the unit among what is skipped. */
  lemma {:induction false} RulingOutKeeps(p: Provider, trail: Trail, registry: Registry, known: set<Incompatibility>,
      absent: Absent, contradicted: set<Incompatibility>, byLevel: map<nat, set<Incompatibility>>,
      searches: seq<Search>, i: Incompatibility, open: Term)
    requires Agreement(p, trail, registry, known, contradicted, byLevel, searches) == Sound
    requires Sourced(trail, known, absent) && i in known && IsUnit(trail, i, open)
    ensures open.WellFormed() && open.name in registry
    ensures !Allowed(trail, |trail|, open.name).Meet(open.Inverse().Span()).IsEmpty()
    ensures var level := Level(trail, |trail|);
            var longer := trail + [Assignment(open.Inverse(), level, |trail|, Some(i))];
            && Contradicted(longer, |longer|, i) && Sourced(longer, known, absent)
            && Agreement(p, longer, registry, known, contradicted + {i},
                         byLevel[level := LevelSet(byLevel, level) + {i}], searches) == Sound
  {
    DeriveConsistent(p, trail, registry, known, i, open);
    var a := Assignment(open.Inverse(), Level(trail, |trail|), |trail|, Some(i));
    RulingOutRecords(trail, a, contradicted, byLevel, searches, i);
    SourcedLonger(trail, known, absent, a);
  }

  /** Selecting a version keeps the agreement. */
  lemma {:induction false} DecidingKeeps(p: Provider, trail: Trail, registry: Registry, known: set<Incompatibility>,
      absent: Absent, contradicted: set<Incompatibility>, byLevel: map<nat, set<Incompatibility>>,
      searches: seq<Search>, decisions: map<Name, Version>, t: Term, v: Version)
    requires Agreement(p, trail, registry, known, contradicted, byLevel, searches) == Sound
    requires Sourced(trail, known, absent) && Decides(trail, decisions) && trail != []
    requires Choosable(p, trail, registry, decisions, t) && v in t.constraint && p.Offers(t.name, v)
    ensures var longer := trail + [Assignment(p.PackageTerm(t.name, v), Level(trail, |trail|) + 1, |trail|, None)];
            && Agreement(p, longer, registry, known, contradicted, byLevel, searches) == Sound
            && Sourced(longer, known, absent) && Decided(p, trail, longer)
            && Allowed(longer, |longer|, t.name) == In({v})
  {
    var a := Assignment(p.PackageTerm(t.name, v), Level(trail, |trail|) + 1, |trail|, None);
    DecideConsistent(p, trail, registry, known, decisions, t, v);
    SkipsExtend(trail, a, contradicted, byLevel);
    SearchesExtend(trail, a, searches);
    SourcedLonger(trail, known, absent, a);
  }

  /** What the fields of a solver have to agree on, as a value. */
  ghost function Agreement(p: Provider, trail: Trail, registry: Registry, known: set<Incompatibility>,
      contradicted: set<Incompatibility>, byLevel: map<nat, set<Incompatibility>>, searches: seq<Search>): Condition
  {
    if
      && p.WellFormed() && Consistent(p, trail, registry, known)
      && SkipsSound(trail, contradicted, byLevel) && SearchesKept(trail, searches)
    then Sound else Unsound
  }

  class VersionSolver {
    const provider: Provider
    const solution: PartialSolution
    var incompatibilities: Registry
    var contradicted: set<Incompatibility>
    var contradictedByLevel: map<nat, set<Incompatibility>>
    ghost var known: set<Incompatibility>
    ghost var absent: Absent          // what searches have come up with nothing for
    ghost var searches: seq<Search>   // those whose results the cache of searches keeps

    ghost predicate Valid()
      reads this, solution
    {
      Condition() == Sound
    }

    /** A value rather than a formula, so that every method has one thing to keep and not thirty. */
    ghost function Condition(): Condition
      reads this, solution
    {
      if
        && solution.Valid()
        && Agreement(provider, solution.assignments, incompatibilities, known,
                     contradicted, contradictedByLevel, searches) == Sound
        && Sourced(solution.assignments, known, absent)
      then Sound else Unsound
    }

    constructor (provider: Provider)
      requires provider.WellFormed()
      ensures Valid() && this.provider == provider && fresh(solution)
      ensures solution.assignments == [] && known == {} && searches == []
    {
      this.provider := provider;
      incompatibilities, contradicted, contradictedByLevel := map[], {}, map[];
      known, absent, searches := {}, {}, [];
      solution := new PartialSolution();
    }

    method ListUnder(n: Name, i: Incompatibility)
      modifies this`incompatibilities
      ensures incompatibilities == ListedUnder(old(incompatibilities), n, i)
      ensures old(incompatibilities).Keys <= incompatibilities.Keys
    {
      if n !in incompatibilities {
        incompatibilities := incompatibilities[n := []];
      }
      if i !in incompatibilities[n] {
        incompatibilities := incompatibilities[n := incompatibilities[n] + [i]];
      }
    }

    /** Lists an incompatibility under each package that it mentions. */
    method AddIncompatibility(i: Incompatibility)
      requires Lists(incompatibilities, known)
      modifies this`incompatibilities, this`known
      ensures known == old(known) + {i}
      ensures Lists(incompatibilities, known)
      ensures NothingTwice(old(incompatibilities)) ==> NothingTwice(incompatibilities)
      ensures old(incompatibilities).Keys <= incompatibilities.Keys
    {
      for k := 0 to |i.terms|
        invariant known == old(known) && ListsUpTo(incompatibilities, known, i, k)
        invariant NothingTwice(old(incompatibilities)) ==> NothingTwice(incompatibilities)
        invariant old(incompatibilities).Keys <= incompatibilities.Keys
      {
        var n := i.terms[k].name;
        ListsStep(incompatibilities, known, i, k);
        ListedOnce(incompatibilities, n, i);
        ListUnder(n, i);
      }
      known := known + {i};
      assert i.terms[..|i.terms|] == i.terms;
    }

    /** Looks for a term that the trail excludes, and for the terms that it leaves open. */
    method Examine(i: Incompatibility) returns (r: Examination)
      requires solution.Valid() && forall t <- i.terms :: t.WellFormed()
      requires DistinctNames(i.terms)
      ensures var trail := solution.assignments;
              match r
              case Excluded => Contradicted(trail, |trail|, i)
              case SeveralOpen => !AlmostSatisfied(trail, i) && !Satisfied(trail, |trail|, i)
              case OneOpen(open) => IsUnit(trail, i, open)
              case AllHold => Satisfied(trail, |trail|, i)
    {
      ghost var trail := solution.assignments;
      var unsatisfied: Option<Term> := None;
      for k := 0 to |i.terms|
        invariant match unsatisfied
                  case None => forall t <- i.terms[..k] :: Holds(trail, |trail|, t)
                  case Some(open) =>
                    && open in i.terms[..k]
                    && !Holds(trail, |trail|, open) && !Clashes(trail, |trail|, open)
                    && forall t <- i.terms[..k] :: t == open || Holds(trail, |trail|, t)
      {
        var term := i.terms[k];
        TakeOneMore(i.terms, k);
        var relation := solution.Relation(term);
        if relation == Disjoint {
          return Excluded;
        } else if relation == Overlapping {
          if unsatisfied.Some? {
            return SeveralOpen;
          }
          unsatisfied := Some(term);
        }
      }
      assert i.terms[..|i.terms|] == i.terms;
      r := if unsatisfied.None? then AllHold else OneOpen(unsatisfied.value);
    }

    /**
     Classifies an incompatibility against the trail: violated, or a unit whose open term is then
     ruled out, or neither.
     */
    method PropagateIncompatibility(i: Incompatibility) returns (r: Propagation)
      requires Valid() && i in known
      modifies this`contradicted, this`contradictedByLevel, solution
      ensures Valid()
      ensures var trail := old(solution.assignments);
              match r
              case Conflict =>
                solution.assignments == trail && Satisfied(trail, |trail|, i)
              case Inconclusive =>
                && solution.assignments == trail
                && !Satisfied(trail, |trail|, i)
                && (Contradicted(trail, |trail|, i) || !AlmostSatisfied(trail, i))
              case Derived(n) =>
                && n in incompatibilities
                && Derives(trail, i, n, solution.assignments)
                && Contradicted(solution.assignments, |solution.assignments|, i)
    {
      ghost var trail := solution.assignments;
      var found := Examine(i);
      match found {
        case Excluded =>
          Skip(i);
          r := Inconclusive;
        case SeveralOpen =>
          r := Inconclusive;
        case AllHold =>
          r := Conflict;
        case OneOpen(open) =>
          RuleOut(i, open);
          r := Derived(open.name);
      }
    }

    /** Remembers that the incompatibility is contradicted for as long as the current level lasts. */
    method Skip(i: Incompatibility)
      requires Valid() && Contradicted(solution.assignments, |solution.assignments|, i)
      modifies this`contradicted, this`contradictedByLevel
      ensures Valid() && !Satisfied(solution.assignments, |solution.assignments|, i)
    {
      ContradictedExcludes(solution.assignments, i);
      SkipsAdd(solution.assignments, contradicted, contradictedByLevel, i);
      MarkContradicted(i);
    }

    /** Adds the inverse of a unit's open term to the trail, which contradicts the unit. */
    method RuleOut(i: Incompatibility, open: Term)
      requires Valid() && i in known && IsUnit(solution.assignments, i, open)
      modifies this`contradicted, this`contradictedByLevel, solution
      ensures Valid() && open.name in incompatibilities
      ensures var trail := old(solution.assignments);
              solution.assignments == trail + [Assignment(open.Inverse(), Level(trail, |trail|), |trail|, Some(i))]
      ensures Contradicted(solution.assignments, |solution.assignments|, i)
    {
      RulingOutKeeps(provider, solution.assignments, incompatibilities, known, absent, contradicted,
                     contradictedByLevel, searches, i, open);
      MarkContradicted(i);
      solution.Derive(open.Inverse(), i);
    }

    /** The satisfier of a term that holds; the error for unsatisfied terms is out of reach. */
    method SatisfierOf(t: Term) returns (s: Assignment)
      requires solution.Valid() && t.WellFormed() && Holds(solution.assignments, |solution.assignments|, t)
      ensures var i := SatisfierIndex(solution.assignments, |solution.assignments|, t);
              s == solution.assignments[i] && s.index == i
    {
      var found := solution.Satisfier(t);
      s := found.value;
      SatisfierUnique(solution.assignments, t, s.index,
                      SatisfierIndex(solution.assignments, |solution.assignments|, t));
    }

    /** The scan over the terms of a violated incompatibility that starts each resolution step. */
    method MostRecentSatisfier(i: Incompatibility)
      returns (t: Term, s: Assignment, difference: Option<Term>, level: nat)
      requires solution.Valid() && JustifiedTrail(provider, solution.assignments)
      requires i.terms != [] && DistinctNames(i.terms) && forall u <- i.terms :: provider.TermOk(u)
      requires Satisfied(solution.assignments, |solution.assignments|, i)
      ensures Scanned(solution.assignments, i.terms, t, s, difference, level)
    {
      ghost var trail := solution.assignments;
      t := i.terms[0];
      assert t in i.terms;
      s := SatisfierOf(t);
      ScanFirst(provider, trail, t);
      difference, level := Remainder(s, t, 1);
      assert i.terms[..1] == [t];
      for k := 1 to |i.terms|
        invariant Scanned(trail, i.terms[..k], t, s, difference, level)
      {
        TakeOneMore(i.terms, k);
        t, s, difference, level := ScanTerm(i.terms[..k], i.terms[k], t, s, difference, level);
      }
      assert i.terms[..|i.terms|] == i.terms;
    }

    /** One round of that scan, after the terms in `seen`. */
    method ScanTerm(ghost seen: seq<Term>, term: Term, t: Term, s: Assignment, difference: Option<Term>, level: nat)
      returns (t': Term, s': Assignment, difference': Option<Term>, level': nat)
      requires solution.Valid() && JustifiedTrail(provider, solution.assignments)
      requires provider.TermOk(term) && Holds(solution.assignments, |solution.assignments|, term)
      requires Scanned(solution.assignments, seen, t, s, difference, level)
      requires forall u <- seen :: u.name != term.name && provider.TermOk(u)
      ensures Scanned(solution.assignments, seen + [term], t', s', difference', level')
    {
      t', s', difference', level' := t, s, difference, level;
      var satisfier := SatisfierOf(term);
      if s.index < satisfier.index {
        ScanNewer(provider, solution.assignments, seen, term, t, s, difference, level);
        level' := Max(level, s.level);
        t', s' := term, satisfier;
        difference', level' := Remainder(s', t', level');
      } else {
        ScanOlder(provider, solution.assignments, seen, term, t, s, difference, level);
        level' := Max(level, satisfier.level);
      }
    }

    /** What the satisfier leaves over of its term, and the level at which that was excluded. */
    method Remainder(s: Assignment, t: Term, level: nat) returns (difference: Option<Term>, level': nat)
      requires solution.Valid() && JustifiedTrail(provider, solution.assignments)
      requires provider.TermOk(t) && Holds(solution.assignments, |solution.assignments|, t)
      requires s == solution.assignments[SatisfierIndex(solution.assignments, |solution.assignments|, t)]
      ensures difference == s.term.Difference(t)
      ensures level' == Max(level, DifferenceLevel(solution.assignments, difference))
    {
      ghost var trail := solution.assignments;
      difference, level' := s.term.Difference(t), level;
      if difference.Some? {
        DifferenceExcluded(provider, trail, t, |trail|);
        var inverse := difference.value.Inverse();
        HoldsLater(trail, SatisfierIndex(trail, |trail|, t), |trail|, inverse);
        var excluder := SatisfierOf(inverse);
        level' := Max(level, excluder.level);
      }
    }

    /** Forgets what was found contradicted above the given level. */
    method ClearLevels(level: nat)
      requires SkipsSound(solution.assignments, contradicted, contradictedByLevel)
      requires solution.DecisionLevel() == Level(solution.assignments, |solution.assignments|)
      modifies this`contradicted, this`contradictedByLevel
      ensures SkipsSound(solution.assignments, contradicted, contradictedByLevel)
      ensures contradictedByLevel.Keys == set l | l in old(contradictedByLevel) && l <= level
      ensures forall l <- contradictedByLevel :: contradictedByLevel[l] == old(contradictedByLevel)[l]
      ensures forall i :: i in contradicted <==>
                          i in old(contradicted) && !RecordedAbove(old(contradictedByLevel), i, level)
    {
      var l: nat := solution.DecisionLevel();
      while l > level
        invariant contradictedByLevel.Keys == set m | m in old(contradictedByLevel) && m <= Max(l, level)
        invariant forall m <- contradictedByLevel :: contradictedByLevel[m] == old(contradictedByLevel)[m]
        invariant forall i :: i in contradicted <==>
                              i in old(contradicted) && !RecordedAbove(old(contradictedByLevel), i, Max(l, level))
      {
        if l in contradictedByLevel {
          contradicted := contradicted - contradictedByLevel[l];
          contradictedByLevel := contradictedByLevel - {l};
        }
        l := l - 1;
      }
      forall i | i in contradicted
        ensures exists m <- contradictedByLevel :: i in contradictedByLevel[m]
      {
        var m :| m in old(contradictedByLevel) && i in old(contradictedByLevel)[m];
        assert m in contradictedByLevel;
      }
    }

    /** Goes back to the given level. */
    method Backjump(level: nat)
      requires Valid()
      requires 0 < level <= Level(solution.assignments, |solution.assignments|) && 0 < Cut(solution.assignments, level)
      modifies this`contradicted, this`contradictedByLevel, this`searches, solution
      ensures Valid() && searches == Surviving(old(searches), level)
      ensures solution.assignments == old(solution.assignments)[..Cut(old(solution.assignments), level)]
    {
      ghost var trail := solution.assignments;
      ClearLevels(level);
      SkipsShorten(trail, level, contradicted, contradictedByLevel);
      LevelOfCut(trail, level);
      SearchesShorten(trail, level, searches);
      searches := Surviving(searches, level);
      RetreatConsistent(provider, trail, Cut(trail, level), incompatibilities, known);
      SourcedShorter(trail, known, absent, Cut(trail, level));
      solution.Backtrack(level);
    }

    /** The terms of the next incompatibility during conflict resolution. */
    method CollectPriorCause(i: Incompatibility, t: Term, s: Assignment, difference: Option<Term>)
      returns (terms: seq<Term>)
      requires s.cause.Some? && s.term.name == t.name && difference == s.term.Difference(t)
      ensures terms == PriorCauseTerms(i, t, s)
    {
      terms := Others(i.terms, t);
      var cause := s.cause.value.terms;
      for k := 0 to |cause|
        invariant terms == Others(i.terms, t) + OtherDependencies(cause[..k], s.term)
      {
        assert cause[..k + 1][..k] == cause[..k];
        if !cause[k].SameDependency(s.term) {
          terms := terms + [cause[k]];
        }
      }
      assert cause[..|cause|] == cause;
      if difference.Some? && !difference.value.Inverse().SameDependency(s.term) {
        terms := terms + [difference.value.Inverse()];
      }
    }

    /** One resolution step: combines a violated incompatibility with the cause of its satisfier. */
    method Resolve(i: Incompatibility, t: Term, s: Assignment, difference: Option<Term>,
                   ghost level: nat, ghost limit: nat) returns (resolvent: Incompatibility)
      requires provider.WellFormed() && JustifiedTrail(provider, solution.assignments)
      requires limit <= |solution.assignments| && Satisfied(solution.assignments, limit, i)
      requires provider.IncompatibilityOk(i) && forall u <- i.terms :: provider.TermOk(u)
      requires Satisfied(solution.assignments, |solution.assignments|, i)
      requires Scanned(solution.assignments, i.terms, t, s, difference, level) && !s.IsDecision()
      requires Sourced(solution.assignments, known, absent) && LeavesFound(i, absent)
      ensures Build(PriorCauseTerms(i, t, s), ConflictCause(i, s.cause.value)) == Some(resolvent)
      ensures s.index < limit
      ensures provider.IncompatibilityOk(resolvent) && Satisfied(solution.assignments, s.index, resolvent)
      ensures LeavesFound(resolvent, absent)
    {
      GoesOn(provider, solution.assignments, limit, i, t, s, difference, level);
      var terms := CollectPriorCause(i, t, s, difference);
      var built := NewIncompatibility(terms, ConflictCause(i, s.cause.value));
      resolvent := built.value;
      ResolventFound(solution.assignments, known, absent, i, s, resolvent);
    }

    /**
     The loop of conflict resolution: combines a violated incompatibility with the causes of its
     satisfiers until it is a failure, or a unit on the trail of a lower level.
     */
    method FindRootCause(conflict: Incompatibility)
      returns (i: Incompatibility, isNew: bool, level: nat, ghost open: Term)
      requires Valid() && conflict in known
      requires Satisfied(solution.assignments, |solution.assignments|, conflict)
      ensures provider.IncompatibilityOk(i) && LeavesFound(i, absent) && (!isNew ==> i in known)
      ensures i.IsFailure() ==> Refutes(provider, i)
      ensures var trail := solution.assignments;
              !i.IsFailure() ==> 1 <= level < Level(trail, |trail|) && 0 < Cut(trail, level)
      ensures var trail := solution.assignments;
              !i.IsFailure() ==> IsUnit(trail[..Cut(trail, level)], i, open)
    {
      ghost var trail := solution.assignments;
      i, isNew, level, open := conflict, false, 0, Term("", {}, true, false);
      ghost var limit: nat := |trail|;
      while !i.IsFailure()
        invariant limit <= |trail|
        invariant provider.IncompatibilityOk(i) && Satisfied(trail, limit, i) && LeavesFound(i, absent)
        invariant !isNew ==> i in known
        decreases limit
      {
        SatisfiedIsNotRootFact(provider, trail, limit, i);
        SatisfiedLater(trail, limit, i);
        var t, s, difference, previous := MostRecentSatisfier(i);
        if previous < s.level || s.IsDecision() {
          StopsAtUnit(provider, trail, i, t, s, difference, previous);
          return i, isNew, previous, t;
        }
        i := Resolve(i, t, s, difference, previous, limit);
        isNew, limit := true, s.index;
      }
      FailureRefutes(provider, trail, limit, i);
    }

    /**
     Turns a violated incompatibility into its root cause and goes back to where that is a unit, or
     finds that there is no solution.
     */
    method ResolveConflict(conflict: Incompatibility) returns (r: ConflictResolution, ghost level: nat,
        ghost open: Term)
      requires Valid() && conflict in known
      requires Satisfied(solution.assignments, |solution.assignments|, conflict)
      modifies this`incompatibilities, this`contradicted, this`contradictedByLevel, this`known, this`searches,
               solution
      ensures var trail := old(solution.assignments);
              match r
              case Unsolvable(reason) => Refutes(provider, reason)
              case RootCauseFound(cause) =>
                && Valid() && cause in known && old(known) <= known
                && old(incompatibilities).Keys <= incompatibilities.Keys
                && 1 <= level < Level(trail, |trail|)
                && solution.assignments == trail[..Cut(trail, level)]
                && IsUnit(solution.assignments, cause, open)
    {
      var i, isNew, previous, unit := FindRootCause(conflict);
      level, open := previous, unit;
      if i.IsFailure() {
        r := Unsolvable(i);
      } else {
        Backjump(previous);
        if isNew {
          AddKnown(i);
        }
        r := RootCauseFound(i);
      }
    }

    /**
     Resolves a conflict, goes back, and propagates the root cause there, which is bound to derive
     something.
     */
    method Restart(conflict: Incompatibility, ghost settled: int) returns (r: Visit)
      requires Valid() && conflict in known
      requires Satisfied(solution.assignments, |solution.assignments|, conflict)
      requires Settled(provider, absent, solution.assignments, settled)
      requires Level(solution.assignments, |solution.assignments|) - 1 <= settled
      modifies this`incompatibilities, this`contradicted, this`contradictedByLevel, this`known, this`searches,
               solution
      ensures var trail, after := old(solution.assignments), solution.assignments;
              match r
              case Refuted(reason) => Refutes(provider, reason)
              case Restarted(n) =>
                && Valid() && old(incompatibilities).Keys <= incompatibilities.Keys
                && n in incompatibilities && Backjumped(trail, after)
                && Rank(provider, after) < Rank(provider, trail)
                && Settled(provider, absent, after, Level(after, |after|))
              case _ => false
    {
      ghost var trail := solution.assignments;
      var resolution, level, open := ResolveConflict(conflict);
      if resolution.Unsolvable? {
        return Refuted(resolution.reason);
      }
      ghost var shorter := solution.assignments;
      UnitIsNeither(shorter, resolution.cause, open);
      var result := PropagateIncompatibility(resolution.cause);
      RestartFalls(provider, absent, trail, level, shorter, resolution.cause, result.name, solution.assignments,
                   settled);
      r := Restarted(result.name);
    }

    lemma {:induction false} SkippedForNow(i: Incompatibility)
      requires Valid() && i in contradicted
      ensures Contradicted(solution.assignments, |solution.assignments|, i)
    {
      SkippedIsContradicted(solution.assignments, contradicted, contradictedByLevel, i);
    }

    /** The body of the loop over a package's incompatibilities. */
    method VisitIncompatibility(i: Incompatibility, ghost settled: int) returns (r: Visit)
      requires Valid() && i in known
      requires Settled(provider, absent, solution.assignments, settled)
      requires Level(solution.assignments, |solution.assignments|) - 1 <= settled
      modifies this`incompatibilities, this`contradicted, this`contradictedByLevel, this`known, this`searches,
               solution
      ensures r.Refuted? || (Valid() && old(incompatibilities).Keys <= incompatibilities.Keys)
      ensures Visited(provider, absent, r, i, settled, old(solution.assignments), solution.assignments)
      ensures NamedIn(r, incompatibilities.Keys)
      ensures r.Assigned? || r.Nothing? ==> known == old(known) && incompatibilities == old(incompatibilities)
    {
      ghost var trail := solution.assignments;
      if i in contradicted {
        SkippedForNow(i);
        return Nothing;
      }
      var result := PropagateIncompatibility(i);
      if result.Conflict? {
        r := Restart(i, settled);
      } else if result.Derived? {
        DerivesGrows(provider, absent, trail, i, result.name, solution.assignments, settled);
        r := Assigned(result.name);
      } else {
        r := Nothing;
      }
    }

    /** Visits position `j` of a package's list and records what was derived. */
    method VisitPosition(list: seq<Incompatibility>, j: nat, changed: set<Name>,
                         ghost settled: int, ghost pending: set<Incompatibility>, ghost trail: Trail)
      returns (changed': set<Name>, r: Visit)
      requires Valid() && j < |list| && list[j] in known && changed <= incompatibilities.Keys
      requires Level(solution.assignments, |solution.assignments|) - 1 <= settled
      requires Halfway(provider, absent, settled, pending, list, j + 1, trail, solution.assignments)
      modifies this`incompatibilities, this`contradicted, this`contradictedByLevel, this`known, this`searches,
               solution
      ensures r.Refuted? ==> Refutes(provider, r.reason)
      ensures !r.Refuted? ==> Valid() && changed' <= incompatibilities.Keys
      ensures r.Restarted? ==> Propagated(provider, absent, settled, pending, trail, solution.assignments)
      ensures r.Restarted? ==> Backjumped(trail, solution.assignments)
      ensures r.Nothing? || r.Assigned? ==>
                && Halfway(provider, absent, settled, pending, list, j, trail, solution.assignments)
                && known == old(known) && incompatibilities == old(incompatibilities)
      ensures r.Nothing? ==> solution.assignments == old(solution.assignments)
      ensures r.Assigned? || r.Restarted? ==> solution.assignments != trail
      ensures changed' == Changed(r, changed)
    {
      ghost var before := solution.assignments;
      r := VisitIncompatibility(list[j], settled);
      HalfwayStep(provider, absent, r, settled, pending, list, j, trail, before, solution.assignments);
      if !r.Refuted? {
        ChangedIn(r, changed, incompatibilities.Keys);
      }
      changed' := Changed(r, changed);
    }

    /**
     One round of propagation: visits the incompatibilities of a package, latest first. Unless the
     trail is cut, every pending incompatibility ends up contradicted.
     */
    method PropagatePackage(package: Name, changed: set<Name>, ghost settled: int, ghost pending: set<Incompatibility>)
      returns (changed': set<Name>, failure: Option<Incompatibility>)
      requires Valid() && package in incompatibilities && changed <= incompatibilities.Keys
      requires PendingFor(solution.assignments, known, pending, package)
      requires Settled(provider, absent, solution.assignments, settled)
      requires Level(solution.assignments, |solution.assignments|) - 1 <= settled
      modifies this`incompatibilities, this`contradicted, this`contradictedByLevel, this`known, this`searches,
               solution
      ensures failure.Some? ==> Refutes(provider, failure.value)
      ensures failure.None? ==>
                && Valid() && changed' <= incompatibilities.Keys
                && Propagated(provider, absent, settled, pending, old(solution.assignments), solution.assignments)
                && (solution.assignments == old(solution.assignments) ==> changed' == changed)
                && (Backjumped(old(solution.assignments), solution.assignments) || known == old(known))
    {
      ghost var trail := solution.assignments;
      var list := incompatibilities[package];
      HalfwayStart(provider, absent, settled, pending, trail, incompatibilities, known, package);
      changed', failure := changed, None;
      var j, r := |list|, Nothing;
      while j > 0 && (r.Nothing? || r.Assigned?)
        invariant 0 <= j <= |list| && forall e <- list :: e in old(known)
        invariant r.Refuted? ==> Refutes(provider, r.reason)
        invariant !r.Refuted? ==> Valid() && changed' <= incompatibilities.Keys
        invariant !r.Refuted? && solution.assignments == trail ==> changed' == changed
        invariant r.Restarted? ==> Propagated(provider, absent, settled, pending, trail, solution.assignments)
        invariant r.Restarted? ==> Backjumped(trail, solution.assignments)
        invariant r.Nothing? || r.Assigned? ==>
                    && known == old(known)
                    && Halfway(provider, absent, settled, pending, list, j, trail, solution.assignments)
      {
        j := j - 1;
        changed', r := VisitPosition(list, j, changed', settled, pending, trail);
      }
      if r.Refuted? {
        failure := Some(r.reason);
      } else if !r.Restarted? {
        HalfwayDone(provider, absent, settled, pending, list, trail, solution.assignments);
      }
    }

    /** Unit propagation, from the incompatibilities of one package to all that are affected. */
    method Propagate(start: Name, ghost pending: set<Incompatibility>) returns (failure: Option<Incompatibility>)
      requires Valid() && start in incompatibilities
      requires PendingFor(solution.assignments, known, pending, start)
      requires SettledOrPending(provider, absent, solution.assignments, pending)
      modifies this`incompatibilities, this`contradicted, this`contradictedByLevel, this`known, this`searches,
               solution
      ensures failure.Some? ==> Refutes(provider, failure.value)
      ensures failure.None? ==>
                Valid() && Fixpoint(provider, absent, pending, old(solution.assignments), solution.assignments)
      ensures failure.None? ==> Backjumped(old(solution.assignments), solution.assignments) || known == old(known)
    {
      ghost var trail := solution.assignments;
      ghost var first := true;
      var changed := {start};
      failure := None;
      while changed != {} && failure.None?
        invariant failure.Some? ==> Refutes(provider, failure.value)
        invariant failure.None? ==> Valid() && changed <= incompatibilities.Keys
        invariant first ==> failure.None? && changed == {start} && solution.assignments == trail && known == old(known)
        invariant !first && failure.None? ==>
                    && Fixpoint(provider, absent, pending, trail, solution.assignments)
                    && (Backjumped(trail, solution.assignments) || known == old(known))
        decreases if failure.None? then 1 else 0,
                  if failure.None? then Rank(provider, solution.assignments) else 0, changed
      {
        ghost var before := solution.assignments;
        ghost var settled := SettledLevel(provider, absent, before);
        ghost var due := if first then pending else {};
        var package :| package in changed;
        changed, failure := PropagatePackage(package, changed - {package}, settled, due);
        if failure.None? {
          RoundDone(provider, absent, first, pending, trail, before, solution.assignments);
        }
        first := false;
      }
    }

    /** Whether all terms but those about package `n` hold. */
    predicate Conflicts(e: Incompatibility, n: Name)
      requires solution.Valid() && forall t <- e.terms :: t.WellFormed()
      reads this, solution
      ensures Conflicts(e, n) <==> ConflictsWith(solution.assignments, e, n)
    {
      assert forall t <- e.terms :: solution.Satisfies(t) <==> Holds(solution.assignments, |solution.assignments|, t);
      forall t <- e.terms :: t.name == n || solution.Satisfies(t)
    }

    /** Adds the facts about a version, and tells whether one of them speaks against selecting it. */
    method AddFacts(n: Name, facts: seq<Incompatibility>) returns (conflict: bool)
      requires Valid() && solution.assignments != []
      requires forall e <- facts :: provider.IncompatibilityOk(e) && e != provider.RootFact()
      requires forall e <- facts :: LeavesFound(e, absent)
      modifies this`incompatibilities, this`known
      ensures Valid() && known == old(known) + set e | e in facts
      ensures old(incompatibilities).Keys <= incompatibilities.Keys
      ensures conflict <==> exists e <- facts :: ConflictsWith(solution.assignments, e, n)
    {
      conflict := false;
      for k := 0 to |facts|
        invariant Valid() && known == old(known) + set e | e in facts[..k]
        invariant old(incompatibilities).Keys <= incompatibilities.Keys
        invariant conflict <==> exists e <- facts[..k] :: ConflictsWith(solution.assignments, e, n)
      {
        TakeOneMore(facts, k);
        AddKnown(facts[k]);
        conflict := conflict || Conflicts(facts[k], n);
      }
      assert facts[..|facts|] == facts;
    }

    /** Nothing satisfies the term: that is a fact to go on with. */
    method AddNoVersions(t: Term) returns (ghost pending: set<Incompatibility>)
      requires Valid() && solution.assignments != [] && provider.Search(t) == {}
      requires Choosable(provider, solution.assignments, incompatibilities, solution.decisions, t)
      requires Level(solution.assignments, |solution.assignments|) != 0 ==> t.name != provider.root
      requires Settled(provider, absent, solution.assignments, Level(solution.assignments, |solution.assignments|))
      modifies this`incompatibilities, this`known, this`absent
      ensures Valid() && t.name in incompatibilities
      ensures Settled(provider, absent, solution.assignments, Level(solution.assignments, |solution.assignments|))
      ensures PendingFor(solution.assignments, known, pending, t.name)
      ensures Stuck(provider, solution.assignments, pending)
    {
      NoVersionsKeeps(provider, solution.assignments, incompatibilities, known, absent, solution.decisions, t);
      AddAbsence(provider.NoVersionsFact(t));
      pending := {provider.NoVersionsFact(t)};
    }

    /**
     The solver's use of `DependencyCache.search_for`. The search is for a subset of what the package's
     earlier searches that are still cached were for; the cache keeps the result, or has it on top.
     */
    method LookUp(t: Term) returns (found: set<Version>)
      requires Valid() && t in solution.Unsatisfied()
      modifies this`searches
      ensures Valid() && found == provider.Search(t)
      ensures forall e <- old(searches) :: e.name == t.name ==> t.constraint <= e.constraint
      ensures forall e <- old(searches) :: e.level <= solution.DecisionLevel()
      ensures searches == old(searches)
              || searches == old(searches) + [Search(solution.DecisionLevel(), t.name, t.constraint)]
    {
      ghost var trail := solution.assignments;
      assert Entry(solution.positive, solution.negative, t.name) == Replay(trail, |trail|, t.name);
      ReplaySpan(trail, |trail|, t.name);
      SearchNarrows(trail, searches, t.name, t.constraint);
      found := provider.Search(t);
      ghost var isNew: bool :| true;
      if isNew {
        searches := searches + [Search(solution.DecisionLevel(), t.name, t.constraint)];
      }
    }

    /** The searches that comparing the candidates makes, for whichever of them it does. */
    method LookUpSome(terms: set<Term>)
      requires Valid() && terms <= solution.Unsatisfied()
      modifies this`searches
      ensures Valid()
    {
      var todo := terms;
      while todo != {}
        invariant Valid() && todo <= solution.Unsatisfied()
        decreases todo
      {
        var t :| t in todo;
        var found := LookUp(t);
        todo := todo - {t};
      }
    }

    /** Chooses an unsatisfied package and searches for its versions. */
    method ChooseNext() returns (t: Term, candidates: set<Version>)
      requires Valid() && solution.assignments != [] && solution.Unsatisfied() != {}
      requires Level(solution.assignments, |solution.assignments|) == 0 ==> known <= {provider.RootFact()}
      modifies this`searches
      ensures Valid() && candidates == provider.Search(t)
      ensures Choosable(provider, solution.assignments, incompatibilities, solution.decisions, t)
      ensures Level(solution.assignments, |solution.assignments|) != 0 ==> t.name != provider.root
    {
      ghost var trail := solution.assignments;
      var unsatisfied := solution.Unsatisfied();
      var compared :| compared <= unsatisfied;
      LookUpSome(compared);
      t :| t in unsatisfied;
      assert Entry(solution.positive, solution.negative, t.name) == Replay(trail, |trail|, t.name);
      ChoiceOk(provider, trail, incompatibilities, known, solution.decisions, t);
      candidates := LookUp(t);
    }

    /**
     Tries to decide an unsatisfied package. If nothing is left to decide the solver is finished;
     otherwise the package comes back together with what propagation now has to deal with.
     */
    method ChoosePackageVersion() returns (r: Choice, ghost pending: set<Incompatibility>)
      requires Valid() && solution.assignments != []
      requires Settled(provider, absent, solution.assignments, Level(solution.assignments, |solution.assignments|))
      requires Level(solution.assignments, |solution.assignments|) == 0 ==> known <= {provider.RootFact()}
      modifies this, solution
      ensures match r
              case Finished =>
                && Valid() && solution.assignments == old(solution.assignments) && absent == old(absent)
                && solution.Unsatisfied() == {}
              case SelfDependency(n, v) => provider.DependsOnItself(n, v) && provider.Offers(n, v)
              case Next(n) =>
                && Valid() && n in incompatibilities
                && PendingFor(solution.assignments, known, pending, n)
                && SettledOrPending(provider, absent, solution.assignments, pending)
                && (|| Decided(provider, old(solution.assignments), solution.assignments)
                    || (solution.assignments == old(solution.assignments)
                        && Stuck(provider, solution.assignments, pending)))
    {
      pending := {};
      if solution.Unsatisfied() == {} {
        return Finished, {};
      }
      var t, candidates := ChooseNext();
      if candidates == {} {
        pending := AddNoVersions(t);
        return Next(t.name), pending;
      }
      var v :| v in candidates;
      var facts := provider.Facts(t.name, v);
      if facts.None? {
        NoFactsMeansSelfDependency(provider, t.name, v);
        return SelfDependency(t.name, v), {};
      }
      r, pending := Consider(t, v, facts.value);
    }

    /** The rest of the choice: adds the facts about the version and decides, unless they forbid it. */
    method Consider(t: Term, v: Version, facts: seq<Incompatibility>) returns (r: Choice,
        ghost pending: set<Incompatibility>)
      requires Valid() && solution.assignments != []
      requires Settled(provider, absent, solution.assignments, Level(solution.assignments, |solution.assignments|))
      requires Choosable(provider, solution.assignments, incompatibilities, solution.decisions, t)
      requires v in t.constraint && provider.Offers(t.name, v) && provider.Facts(t.name, v) == Some(facts)
      modifies this, solution
      ensures Valid() && r == Next(t.name) && t.name in incompatibilities
      ensures PendingFor(solution.assignments, known, pending, t.name)
      ensures SettledOrPending(provider, absent, solution.assignments, pending)
      ensures || Decided(provider, old(solution.assignments), solution.assignments)
              || (solution.assignments == old(solution.assignments)
                  && Stuck(provider, solution.assignments, pending))
    {
      ghost var trail := solution.assignments;
      r := Next(t.name);
      FactsOk(provider, t.name, v, facts);
      FactsSourced(provider, t.name, v, absent);
      var conflict := AddFacts(t.name, facts);
      if conflict {
        ghost var e := ConflictStuck(provider, trail, incompatibilities, known, solution.decisions, t, v, facts);
        pending := {e};
      } else {
        pending := FactsAbout(provider, absent, t.name, v);
        DecideVersion(t, v, pending);
      }
    }

    /** Selects a version whose facts are known. */
    method DecideVersion(t: Term, v: Version, ghost pending: set<Incompatibility>)
      requires Valid() && solution.assignments != []
      requires Settled(provider, absent, solution.assignments, Level(solution.assignments, |solution.assignments|))
      requires Choosable(provider, solution.assignments, incompatibilities, solution.decisions, t)
      requires v in t.constraint && provider.Offers(t.name, v)
      requires provider.Facts(t.name, v).Some? && pending == FactsAbout(provider, absent, t.name, v) <= known
      modifies solution
      ensures Valid()
      ensures solution.decisions == old(solution.decisions)[t.name := v]
      ensures PendingFor(solution.assignments, known, pending, t.name)
      ensures SettledOrPending(provider, absent, solution.assignments, pending)
      ensures Decided(provider, old(solution.assignments), solution.assignments)
    {
      ghost var trail := solution.assignments;
      DecidingKeeps(provider, trail, incompatibilities, known, absent, contradicted, contradictedByLevel, searches,
                    solution.decisions, t, v);
      ghost var a := Assignment(provider.PackageTerm(t.name, v), Level(trail, |trail|) + 1, |trail|, None);
      FactsPendAfterDecision(provider, absent, trail, a, v, known, pending);
      assert Entry(solution.positive, solution.negative, t.name) == Some(t);
      solution.Decide(t.name, v, provider.PackageTerm(t.name, v).isRoot);
    }

    /** Adds an incompatibility that may be relied on. */
    method AddKnown(i: Incompatibility)
      requires Valid() && provider.IncompatibilityOk(i) && LeavesFound(i, absent)
      requires solution.assignments == [] ==> known <= {} && i == provider.RootFact()
      modifies this`incompatibilities, this`known
      ensures Valid() && known == old(known) + {i}
      ensures old(incompatibilities).Keys <= incompatibilities.Keys
    {
      SourcedMore(solution.assignments, known, absent, i);
      AddIncompatibility(i);
    }

    /** Adds a fact about what a search has come up with. */
    method AddAbsence(e: Incompatibility)
      requires Valid() && solution.assignments != [] && provider.IncompatibilityOk(e)
      requires Sourced(solution.assignments, known + {e}, absent + {e})
      modifies this`incompatibilities, this`known, this`absent
      ensures Valid() && known == old(known) + {e} && absent == old(absent) + {e}
      ensures old(incompatibilities).Keys <= incompatibilities.Keys
    {
      AddIncompatibility(e);
      absent := absent + {e};
    }

    lemma {:induction false} UnsatisfiedListed(n: Name)
      requires n in solution.positive && n !in solution.decisions
      ensures solution.positive[n] in solution.Unsatisfied()
    {
    }

    /** Everything required is decided once the index lists no unsatisfied package. */
    lemma {:induction false} NothingUnsatisfied()
      requires solution.Valid() && solution.Unsatisfied() == {}
      ensures AllDecided(solution.assignments, solution.decisions)
    {
      var trail := solution.assignments;
      forall n | Allowed(trail, |trail|, n).In?
        ensures n in solution.decisions
      {
        ReplaySpan(trail, |trail|, n);
        assert Entry(solution.positive, solution.negative, n) == Replay(trail, |trail|, n);
        if n !in solution.decisions {
          UnsatisfiedListed(n);
        }
      }
    }

    /**
     Finds versions for the root package and everything it requires, or proves that there are none.
     The one way out besides these two is the assertion that a self-dependency trips.
     */
    method Solve() returns (r: Result)
      requires Valid() && solution.assignments == [] && known == {}
      modifies this, solution
      ensures Answers(provider, r)
    {
      Begin();
      var next := provider.root;
      ghost var stuck, pending := false, {provider.RootFact()};
      while true
        invariant Valid() && next in incompatibilities
        invariant PendingFor(solution.assignments, known, pending, next)
        invariant SettledOrPending(provider, absent, solution.assignments, pending)
        invariant Searching(provider, solution.assignments, known, pending, stuck)
        decreases Rank(provider, solution.assignments), if stuck then 0 else 1
      {
        var choice;
        r, choice, pending := Round(next, pending, stuck);
        if choice.Finished? {
          return;
        }
        next := choice.name;
        stuck := Stuck(provider, solution.assignments, pending);
      }
    }

    /** Adds the fact that the root package is selected. */
    method Begin()
      requires Valid() && solution.assignments == [] && known == {}
      modifies this`incompatibilities, this`known
      ensures Valid() && known == {provider.RootFact()} && provider.root in incompatibilities
      ensures PendingFor(solution.assignments, known, {provider.RootFact()}, provider.root)
    {
      RootFactOk(provider);
      AddKnown(provider.RootFact());
      assert ListedFor(incompatibilities, provider.RootFact(), provider.root);
    }

    /** Propagates from a package and then makes a choice; without a next package, there is a result. */
    method Round(start: Name, ghost pending: set<Incompatibility>, ghost stuck: bool)
      returns (r: Result, choice: Choice, ghost pending': set<Incompatibility>)
      requires Valid() && start in incompatibilities
      requires PendingFor(solution.assignments, known, pending, start)
      requires SettledOrPending(provider, absent, solution.assignments, pending)
      requires Searching(provider, solution.assignments, known, pending, stuck)
      modifies this, solution
      ensures choice.Finished? || choice.Next?
      ensures choice.Finished? ==> Answers(provider, r)
      ensures choice.Next? ==>
                && Valid() && choice.name in incompatibilities
                && PendingFor(solution.assignments, known, pending', choice.name)
                && SettledOrPending(provider, absent, solution.assignments, pending')
                && Advanced(provider, old(solution.assignments), stuck, solution.assignments, pending')
    {
      ghost var trail, before := solution.assignments, known;
      r, choice, pending' := Failed(provider.RootFact()), Finished, {};
      var failure := Propagate(start, pending);
      if failure.Some? {
        r := Failed(failure.value);
        return;
      }
      RoundProgresses(provider, absent, pending, trail, solution.assignments, before, stuck);
      choice, pending' := ChoosePackageVersion();
      match choice {
        case Finished =>
          r := Answer();
        case SelfDependency(n, v) =>
          r, choice := SelfDependent(n, v), Finished;
        case Next(n) =>
      }
    }

    /** The decisions other than the root package. */
    method Answer() returns (r: Result)
      requires Valid() && solution.assignments != [] && solution.Unsatisfied() == {}
      requires Settled(provider, absent, solution.assignments, Level(solution.assignments, |solution.assignments|))
      ensures Answers(provider, r)
    {
      NothingUnsatisfied();
      FinishedFulfils(provider, absent, solution.assignments, solution.decisions);
      FinishedNeeded(provider, absent, solution.assignments, known, solution.decisions);
      var packages := solution.decisions - {provider.root};
      assert packages[provider.root := provider.rootVersion] == solution.decisions;
      r := Solved(packages);
    }

    method MarkContradicted(i: Incompatibility)
      modifies this`contradicted, this`contradictedByLevel
      ensures contradicted == old(contradicted) + {i}
      ensures var level := solution.DecisionLevel();
              contradictedByLevel == old(contradictedByLevel)[level := LevelSet(old(contradictedByLevel), level) + {i}]
    {
      var level := solution.DecisionLevel();
      contradicted := contradicted + {i};
      contradictedByLevel := contradictedByLevel[level := LevelSet(contradictedByLevel, level) + {i}];
    }
  }

  ghost predicate RecordedAbove(byLevel: map<nat, set<Incompatibility>>, i: Incompatibility, level: nat) {
    exists l <- byLevel :: l > level && i in byLevel[l]
  }

  lemma {:induction false} SatisfiedLater(trail: Trail, k: nat, i: Incompatibility)
    requires k <= |trail| && Satisfied(trail, k, i)
    ensures Satisfied(trail, |trail|, i)
  {
    forall t | t in i.terms
      ensures Holds(trail, |trail|, t)
    {
      HoldsLater(trail, k, |trail|, t);
    }
  }

  /** A unit is neither violated nor out of play, so propagating it derives something. */
  lemma {:induction false} UnitIsNeither(trail: Trail, i: Incompatibility, open: Term)
    requires WellFormedTrail(trail) && IsUnit(trail, i, open)
    ensures !Satisfied(trail, |trail|, i) && !Contradicted(trail, |trail|, i) && AlmostSatisfied(trail, i)
  {
    if t :| t in i.terms && Clashes(trail, |trail|, t) {
      NeverEmpty(trail, |trail|, t.name);
    }
  }

  lemma {:induction false} ListedPending(registry: Registry, known: set<Incompatibility>,
      pending: set<Incompatibility>, n: Name)
    requires Lists(registry, known) && n in registry
    requires forall e <- pending :: e in known && Mentions(e, n)
    ensures forall e <- pending :: e in registry[n][..|registry[n]|]
  {
    assert registry[n][..|registry[n]|] == registry[n];
    forall e | e in pending
      ensures ListedFor(registry, e, n)
    {
    }
  }

  /** After position `j` has been visited, what is pending lies below it or is contradicted. */
  lemma {:induction false} PendingShrinks(trail: Trail, before: Trail, after: Trail, pending: set<Incompatibility>,
      list: seq<Incompatibility>, j: nat)
    requires trail <= before <= after && j < |list|
    requires forall e <- pending :: AlmostSatisfied(trail, e)
    requires forall e <- pending :: e in list[..j + 1] || Contradicted(before, |before|, e)
    requires Contradicted(after, |after|, list[j]) || (after == before && !AlmostSatisfied(before, list[j]))
    ensures forall e <- pending :: e in list[..j] || Contradicted(after, |after|, e)
  {
    assert list[..j + 1] == list[..j] + [list[j]];
    forall e | e in pending && e !in list[..j]
      ensures Contradicted(after, |after|, e)
    {
      AlmostSatisfiedLater(trail, before, e);
      if Contradicted(before, |before|, e) {
        ContradictedLonger(before, after, e);
      }
    }
  }

  lemma {:induction false} TakeOneMore<T>(s: seq<T>, k: nat)
    requires k < |s|
    ensures s[..k + 1] == s[..k] + [s[k]] && s[k] in s
  {
  }

  /** After the first derivation the root fact alone yields nothing more. */
  lemma {:induction false} OnlyRootFactIsSpent(p: Provider, trail: Trail, i: Incompatibility, open: Term)
    requires JustifiedTrail(p, trail) && open in i.terms && !Clashes(trail, |trail|, open)
    ensures i == p.RootFact() ==> trail == []
  {
    if trail != [] {
      RootPinned(p, trail, |trail|);
    }
  }
}
