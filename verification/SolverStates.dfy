/**
 What the solver's bookkeeping means and how it survives growing and cutting the trail: the lists of
 incompatibilities by package, the contradicted ones by level, and the facts of decided packages.
 */
module SolverStates {
  import opened Options
  import opened Terms
  import opened Incompatibilities
  import opened Providers
  import opened Trails
  import opened Resolution
  import opened Conditions

  type Registry = map<Name, seq<Incompatibility>>

  ghost predicate Mentions(i: Incompatibility, n: Name) {
    exists t <- i.terms :: t.name == n
  }

  ghost predicate ListedFor(registry: Registry, i: Incompatibility, n: Name) {
    n in registry && i in registry[n]
  }

  /** Each known incompatibility is listed under exactly the packages that it mentions. */
  ghost predicate Lists(registry: Registry, known: set<Incompatibility>) {
    && (forall n <- registry, i <- registry[n] :: i in known && Mentions(i, n))
    && (forall i <- known, t <- i.terms :: ListedFor(registry, i, t.name))
  }

  // ----- the skip set

  /** What is recorded for a level is contradicted by the assignments up to that level. */
  ghost predicate SkipsSound(
    trail: Trail, contradicted: set<Incompatibility>, byLevel: map<nat, set<Incompatibility>>)
  {
    && (forall l <- byLevel :: l <= Level(trail, |trail|))
    && (forall l <- byLevel, i <- byLevel[l] :: Contradicted(trail, Cut(trail, l), i))
    && (forall i <- contradicted :: exists l <- byLevel :: i in byLevel[l])
  }

  /** Skipped incompatibilities are neither violated nor almost violated by the trail. */
  lemma {:induction false} SkippedIsContradicted(
      trail: Trail, contradicted: set<Incompatibility>, byLevel: map<nat, set<Incompatibility>>, i: Incompatibility)
    requires SkipsSound(trail, contradicted, byLevel) && i in contradicted
    ensures Contradicted(trail, |trail|, i)
  {
    var l :| l in byLevel && i in byLevel[l];
    ContradictedLater(trail, Cut(trail, l), |trail|, i);
  }

  lemma {:induction false} ContradictedExcludes(trail: Trail, i: Incompatibility)
    requires WellFormedTrail(trail) && Contradicted(trail, |trail|, i)
    ensures !Satisfied(trail, |trail|, i)
  {
    var t :| t in i.terms && Clashes(trail, |trail|, t);
    NeverEmpty(trail, |trail|, t.name);
  }

  lemma {:induction false} CutExtend(trail: Trail, a: Assignment, level: nat, i: Incompatibility)
    requires WellFormedTrail(trail + [a]) && Contradicted(trail, Cut(trail, level), i)
    ensures Contradicted(trail + [a], Cut(trail + [a], level), i)
  {
    var longer, c := trail + [a], Cut(trail, level);
    CutSplits(trail, level);
    if c > 0 {
      CutBelow(longer, level, c - 1);
    }
    var t :| t in i.terms && Clashes(trail, c, t);
    Extend(trail, a, t.name);
    assert Clashes(longer, c, t);
    ContradictedLater(longer, c, Cut(longer, level), i);
  }

  lemma {:induction false} CutShorten(trail: Trail, top: nat, level: nat, i: Incompatibility)
    requires WellFormedTrail(trail) && level <= top && Contradicted(trail, Cut(trail, level), i)
    ensures var shorter := trail[..Cut(trail, top)];
            Contradicted(shorter, Cut(shorter, level), i)
  {
    var k, c := Cut(trail, top), Cut(trail, level);
    CutSplits(trail, level);
    if c > 0 {
      CutBelow(trail, top, c - 1);
    }
    CutOfPrefix(trail, k, level);
    var t :| t in i.terms && Clashes(trail, c, t);
    assert trail[..k][..c] == trail[..c];
    SamePrefix(trail, trail[..k], c, t.name);
    assert Clashes(trail[..k], c, t);
  }

  lemma {:induction false} SkipsExtend(
      trail: Trail, a: Assignment, contradicted: set<Incompatibility>, byLevel: map<nat, set<Incompatibility>>)
    requires WellFormedTrail(trail + [a]) && SkipsSound(trail, contradicted, byLevel)
    ensures SkipsSound(trail + [a], contradicted, byLevel)
  {
    Extend(trail, a, "");
    forall l, i | l in byLevel && i in byLevel[l]
      ensures Contradicted(trail + [a], Cut(trail + [a], l), i)
    {
      CutExtend(trail, a, l, i);
    }
  }

  lemma {:induction false} SkipsAdd(
      trail: Trail, contradicted: set<Incompatibility>, byLevel: map<nat, set<Incompatibility>>, i: Incompatibility)
    requires WellFormedTrail(trail) && SkipsSound(trail, contradicted, byLevel)
    requires Contradicted(trail, |trail|, i)
    ensures var level := Level(trail, |trail|);
            SkipsSound(trail, contradicted + {i}, byLevel[level := LevelSet(byLevel, level) + {i}])
  {
    var level := Level(trail, |trail|);
    CutAll(trail, level);
    var after := byLevel[level := LevelSet(byLevel, level) + {i}];
    forall j | j in contradicted + {i}
      ensures exists l <- after :: j in after[l]
    {
      if j == i {
        assert i in after[level];
      } else {
        var l :| l in byLevel && j in byLevel[l];
        assert j in after[l];
      }
    }
  }

  function LevelSet(byLevel: map<nat, set<Incompatibility>>, level: nat): set<Incompatibility> {
    if level in byLevel then byLevel[level] else {}
  }

  lemma {:induction false} SkipsShorten(
      trail: Trail, top: nat, contradicted: set<Incompatibility>, byLevel: map<nat, set<Incompatibility>>)
    requires WellFormedTrail(trail) && SkipsSound(trail, contradicted, byLevel)
    requires top <= Level(trail, |trail|) && forall l <- byLevel :: l <= top
    ensures SkipsSound(trail[..Cut(trail, top)], contradicted, byLevel)
  {
    LevelOfCut(trail, top);
    forall l, i | l in byLevel && i in byLevel[l]
      ensures var shorter := trail[..Cut(trail, top)]; Contradicted(shorter, Cut(shorter, l), i)
    {
      CutShorten(trail, top, l, i);
    }
  }

  /** Cutting at a level that was reached leaves exactly that level. */
  lemma {:induction false} LevelOfCut(trail: Trail, level: nat)
    requires WellFormedTrail(trail) && level <= Level(trail, |trail|)
    ensures Level(trail[..Cut(trail, level)], Cut(trail, level)) == level
  {
    var k := Cut(trail, level);
    CutSplits(trail, level);
    assert trail[..k][..k] == trail[..k];
    SamePrefix(trail, trail[..k], k, "");
    if k < |trail| {
      assert WellPlaced(trail, k);
    }
    if k > 0 {
      assert WellPlaced(trail, k - 1);
    }
  }

  // ----- the dependencies of what has been decided

  /** The facts found so far that there are no versions for a term. */
  type Absent = set<Incompatibility>

  /** What must stay false while the version is selected: what is known of it and of its package. */
  ghost function FactsAbout(p: Provider, absent: Absent, n: Name, v: Version): set<Incompatibility>
    requires p.Facts(n, v).Some?
  {
    (set e | e in p.Facts(n, v).value) + (set e | e in absent && Mentions(e, n))
  }

  /** The facts about the selected version all stay false from the end of its level on. */
  ghost predicate DecisionSettled(p: Provider, absent: Absent, trail: Trail, j: nat)
    requires j < |trail|
  {
    var a := trail[j];
    |a.term.constraint| == 1 ==>
      var (n, v) := (a.term.name, TheVersion(a.term));
      p.Facts(n, v).Some? && forall e <- FactsAbout(p, absent, n, v) :: Contradicted(trail, Cut(trail, a.level), e)
  }

  ghost predicate Settled(p: Provider, absent: Absent, trail: Trail, upTo: int) {
    forall j :: 0 <= j < |trail| && trail[j].IsDecision() && trail[j].level <= upTo ==>
      DecisionSettled(p, absent, trail, j)
  }

  lemma {:induction false} SettledExtend(p: Provider, absent: Absent, trail: Trail, a: Assignment, upTo: int)
    requires WellFormedTrail(trail + [a]) && Settled(p, absent, trail, upTo)
    requires a.IsDecision() ==> upTo < a.level
    ensures Settled(p, absent, trail + [a], upTo)
  {
    var longer := trail + [a];
    forall j | 0 <= j < |longer| && longer[j].IsDecision() && longer[j].level <= upTo
      ensures DecisionSettled(p, absent, longer, j)
    {
      assert j < |trail| && longer[j] == trail[j];
      assert DecisionSettled(p, absent, trail, j);
      forall i | Contradicted(trail, Cut(trail, trail[j].level), i)
        ensures Contradicted(longer, Cut(longer, trail[j].level), i)
      {
        CutExtend(trail, a, trail[j].level, i);
      }
    }
  }

  lemma {:induction false} SettledShorten(p: Provider, absent: Absent, trail: Trail, top: nat, upTo: int)
    requires WellFormedTrail(trail) && Settled(p, absent, trail, upTo) && top <= upTo
    ensures Settled(p, absent, trail[..Cut(trail, top)], top)
  {
    var shorter := trail[..Cut(trail, top)];
    forall j | 0 <= j < |shorter| && shorter[j].IsDecision() && shorter[j].level <= top
      ensures DecisionSettled(p, absent, shorter, j)
    {
      assert shorter[j] == trail[j];
      assert DecisionSettled(p, absent, trail, j);
      forall i | Contradicted(trail, Cut(trail, trail[j].level), i)
        ensures Contradicted(shorter, Cut(shorter, trail[j].level), i)
      {
        CutShorten(trail, top, trail[j].level, i);
      }
    }
  }

  /** A fact about a package that is not decided settles nothing and unsettles nothing. */
  lemma {:induction false} SettledWithout(p: Provider, absent: Absent, trail: Trail, upTo: int, e: Incompatibility)
    requires Settled(p, absent, trail, upTo)
    requires forall a <- trail :: a.IsDecision() ==> !Mentions(e, a.term.name)
    ensures Settled(p, absent + {e}, trail, upTo)
  {
    forall j | 0 <= j < |trail| && trail[j].IsDecision() && trail[j].level <= upTo
      ensures DecisionSettled(p, absent + {e}, trail, j)
    {
      assert DecisionSettled(p, absent, trail, j) && trail[j] in trail;
    }
  }

  /** The facts about the selected version are among the given incompatibilities. */
  ghost predicate FactsWithin(p: Provider, absent: Absent, a: Assignment, pending: set<Incompatibility>) {
    |a.term.constraint| == 1 ==>
      var (n, v) := (a.term.name, TheVersion(a.term));
      p.Facts(n, v).Some? && FactsAbout(p, absent, n, v) <= pending
  }

  lemma {:induction false} NoNewDecisions(trail: Trail, longer: Trail, j: nat)
    requires WellFormedTrail(longer) && trail <= longer && |trail| <= j < |longer|
    requires Level(longer, |longer|) == Level(trail, |trail|)
    ensures !longer[j].IsDecision()
  {
    assert longer[..|trail|] == trail[..|trail|];
    SamePrefix(longer, trail, |trail|, "");
    LevelsRise(longer, |trail|, j);
    LevelsRise(longer, j + 1, |longer|);
  }

  /** The last decision is settled once the facts about it are contradicted. */
  lemma {:induction false} SettledByPending(p: Provider, absent: Absent, trail: Trail, longer: Trail,
      pending: set<Incompatibility>)
    requires WellFormedTrail(longer) && trail <= longer
    requires Level(longer, |longer|) == Level(trail, |trail|)
    requires Settled(p, absent, longer, Level(longer, |longer|) - 1)
    requires forall a <- trail :: a.IsDecision() && a.level == Level(trail, |trail|) ==>
      FactsWithin(p, absent, a, pending)
    requires forall e <- pending :: Contradicted(longer, |longer|, e)
    ensures Settled(p, absent, longer, Level(longer, |longer|))
  {
    var level := Level(longer, |longer|);
    CutAll(longer, level);
    forall j | 0 <= j < |longer| && longer[j].IsDecision() && longer[j].level <= level
      ensures DecisionSettled(p, absent, longer, j)
    {
      if longer[j].level == level {
        if j >= |trail| {
          NoNewDecisions(trail, longer, j);
        }
        assert trail[j] in trail;
      }
    }
  }

  /** All terms but possibly one hold: the incompatibility is violated, or a unit, or contradicted. */
  ghost predicate AlmostSatisfied(trail: Trail, i: Incompatibility) {
    exists open <- i.terms :: SatisfiedBut(trail, |trail|, i, open)
  }

  lemma {:induction false} AlmostSatisfiedLater(trail: Trail, longer: Trail, i: Incompatibility)
    requires trail <= longer && AlmostSatisfied(trail, i)
    ensures AlmostSatisfied(longer, i)
  {
    var open :| open in i.terms && SatisfiedBut(trail, |trail|, i, open);
    forall t | t in i.terms
      ensures t == open || Holds(longer, |longer|, t)
    {
      assert longer[..|trail|] == trail[..|trail|];
      SamePrefix(longer, trail, |trail|, t.name);
      HoldsLater(longer, |trail|, |longer|, t);
    }
  }

  lemma {:induction false} ContradictedLonger(trail: Trail, longer: Trail, i: Incompatibility)
    requires trail <= longer && Contradicted(trail, |trail|, i)
    ensures Contradicted(longer, |longer|, i)
  {
    var t :| t in i.terms && Clashes(trail, |trail|, t);
    assert longer[..|trail|] == trail[..|trail|];
    SamePrefix(longer, trail, |trail|, t.name);
    assert Clashes(longer, |trail|, t);
    ContradictedLater(longer, |trail|, |longer|, i);
  }

  // ----- where derivations come from

  /** The no-versions facts among the leaves are known as such. */
  ghost predicate LeavesFound(i: Incompatibility, absent: Absent) {
    forall e <- i.External() :: e.cause.NoVersionsCause? ==> e in absent
  }

  /** All incompatibilities, and with them all causes, go back to facts that have been found. */
  ghost predicate Sourced(trail: Trail, known: set<Incompatibility>, absent: Absent) {
    Sources(trail, known, absent) == Sound
  }

  ghost function Sources(trail: Trail, known: set<Incompatibility>, absent: Absent): Condition {
    if && absent <= known
       && (forall i {:trigger LeavesFound(i, absent)} :: i in known ==> LeavesFound(i, absent))
       && (forall a {:trigger CauseFound(a, absent)} :: a in trail ==> CauseFound(a, absent))
       && (forall e {:trigger IsAbsence(e)} :: e in absent ==> IsAbsence(e))
    then Sound else Unsound
  }

  ghost predicate CauseFound(a: Assignment, absent: Absent) {
    a.cause.Some? ==> LeavesFound(a.cause.value, absent)
  }

  /** The one term says that some versions are not to be had. */
  ghost predicate IsAbsence(e: Incompatibility) {
    |e.terms| == 1 && e.terms[0].positive
  }

  /** What is resolved from two incompatibilities has their leaves. */
  lemma {:induction false} ResolventFound(trail: Trail, known: set<Incompatibility>, absent: Absent,
      i: Incompatibility, a: Assignment, r: Incompatibility)
    requires Sourced(trail, known, absent) && a in trail && a.cause.Some? && LeavesFound(i, absent)
    requires r.cause == ConflictCause(i, a.cause.value)
    ensures LeavesFound(r, absent)
  {
    assert CauseFound(a, absent);
  }

  lemma {:induction false} SourcedLonger(trail: Trail, known: set<Incompatibility>, absent: Absent, a: Assignment)
    requires Sourced(trail, known, absent) && (a.cause.Some? ==> a.cause.value in known)
    ensures Sourced(trail + [a], known, absent)
  {
    assert a.cause.Some? ==> LeavesFound(a.cause.value, absent);
  }

  lemma {:induction false} SourcedShorter(trail: Trail, known: set<Incompatibility>, absent: Absent, k: nat)
    requires Sourced(trail, known, absent) && k <= |trail|
    ensures Sourced(trail[..k], known, absent)
  {
    assert forall a <- trail[..k] :: a in trail;
  }

  lemma {:induction false} SourcedMore(trail: Trail, known: set<Incompatibility>, absent: Absent, i: Incompatibility)
    requires Sourced(trail, known, absent) && LeavesFound(i, absent)
    ensures Sourced(trail, known + {i}, absent)
  {
  }

  /** One more such fact, about a package that is not decided. */
  lemma {:induction false} SourcedNoVersions(p: Provider, trail: Trail, known: set<Incompatibility>, absent: Absent,
      t: Term, upTo: int)
    requires Sourced(trail, known, absent) && Settled(p, absent, trail, upTo)
    requires forall a <- trail :: a.IsDecision() ==> a.term.name != t.name
    ensures Sourced(trail, known + {p.NoVersionsFact(t)}, absent + {p.NoVersionsFact(t)})
    ensures Settled(p, absent + {p.NoVersionsFact(t)}, trail, upTo)
  {
    var e := p.NoVersionsFact(t);
    var more := absent + {e};
    forall i | i in known + {e} ensures LeavesFound(i, more) {
      assert i in known ==> LeavesFound(i, absent);
    }
    forall a | a in trail ensures CauseFound(a, more) {
      assert CauseFound(a, absent);
    }
    SettledWithout(p, absent, trail, upTo, e);
  }

  lemma {:induction false} FactsSourced(p: Provider, n: Name, v: Version, absent: Absent)
    requires p.WellFormed() && n in p.names && v in p.versions && p.Facts(n, v).Some?
    ensures forall e <- p.Facts(n, v).value :: LeavesFound(e, absent)
  {
    forall e <- p.Facts(n, v).value ensures LeavesFound(e, absent) {
      FactsMembers(p, n, v, e);
    }
  }

  // ----- the root

  lemma {:induction false} LevelOneDecision(trail: Trail, k: nat) returns (j: nat)
    requires WellFormedTrail(trail) && k <= |trail| && Level(trail, k) > 0
    ensures j < k && trail[j].IsDecision() && trail[j].level == 1
  {
    if Level(trail, k - 1) > 0 {
      j := LevelOneDecision(trail, k - 1);
    } else {
      assert WellPlaced(trail, k - 1);
      j := k - 1;
    }
  }

  /** Anything above level 0 rests on the decision for the root package. */
  lemma {:induction false} RootDecidedFirst(p: Provider, trail: Trail) returns (j: nat)
    requires JustifiedTrail(p, trail) && Level(trail, |trail|) > 0
    ensures j < |trail| && trail[j].IsDecision() && trail[j].term.name == p.root
  {
    j := LevelOneDecision(trail, |trail|);
    assert Justified(p, trail, j);
  }
}
