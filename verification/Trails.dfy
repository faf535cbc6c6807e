/**
 The theory of the assignment trail (`src/poetry/mixology/assignment.py` and the list that
 `src/poetry/mixology/partial_solution.py` keeps): what a prefix of it allows, replaying it, and
 where a term becomes satisfied.
 */
module Trails {
  import opened Options
  import opened Terms
  import opened Incompatibilities

  /** A term of the trail; it is a decision exactly when it has no cause. */
  datatype Assignment =
    Assignment(term: Term, level: nat, index: nat, cause: Option<Incompatibility>)
  {
    predicate IsDecision() {
      cause.None?
    }
  }

  type Trail = seq<Assignment>

  /** The outcomes for package `n` that the first `k` assignments leave open. */
  function Allowed(trail: Trail, k: nat, n: Name): Span
    requires k <= |trail|
  {
    if k == 0 then Out({})
    else if trail[k - 1].term.name == n then Allowed(trail, k - 1, n).Meet(trail[k - 1].term.Span())
    else Allowed(trail, k - 1, n)
  }

  /** The number of decisions among the first `k` assignments. */
  function Level(trail: Trail, k: nat): nat
    requires k <= |trail|
  {
    if k == 0 then 0 else Level(trail, k - 1) + if trail[k - 1].IsDecision() then 1 else 0
  }

  /** The length of the prefix of assignments of level at most `level`. */
  function Cut(trail: Trail, level: nat): (k: nat)
    ensures k <= |trail|
  {
    if trail == [] then 0
    else
      var k := Cut(trail[..|trail| - 1], level);
      if k < |trail| - 1 || trail[|trail| - 1].level > level then k else |trail|
  }

  ghost predicate Holds(trail: Trail, k: nat, t: Term)
    requires k <= |trail|
  {
    Allowed(trail, k, t.name).Within(t.Span())
  }

  ghost predicate Clashes(trail: Trail, k: nat, t: Term)
    requires k <= |trail|
  {
    Allowed(trail, k, t.name).Apart(t.Span())
  }

  /** Some term of the incompatibility is false whatever the rest of the trail. */
  ghost predicate Contradicted(trail: Trail, k: nat, i: Incompatibility)
    requires k <= |trail|
  {
    exists t <- i.terms :: Clashes(trail, k, t)
  }

  /** Every term of the incompatibility is implied by the first `k` assignments. */
  ghost predicate Satisfied(trail: Trail, k: nat, i: Incompatibility)
    requires k <= |trail|
  {
    forall t <- i.terms :: Holds(trail, k, t)
  }

  /** All terms but possibly `open` are implied. */
  ghost predicate SatisfiedBut(trail: Trail, k: nat, i: Incompatibility, open: Term)
    requires k <= |trail|
  {
    forall t <- i.terms :: t == open || Holds(trail, k, t)
  }

  // ----- well-formed trails

  ghost predicate WellPlaced(trail: Trail, i: nat)
    requires i < |trail|
  {
    var a := trail[i];
    && a.index == i
    && a.level == Level(trail, i + 1)
    && a.term.WellFormed()
    && !Allowed(trail, i + 1, a.term.name).IsEmpty()
    && (a.IsDecision() ==> DecisionOk(trail, i))
  }

  /** A decision picks one of the versions that are required to be among, once per package. */
  ghost predicate DecisionOk(trail: Trail, i: nat)
    requires i < |trail|
  {
    var t := trail[i].term;
    && t.positive && |t.constraint| == 1
    && Allowed(trail, i, t.name).In?
    && forall j :: 0 <= j < i && trail[j].IsDecision() ==> trail[j].term.name != t.name
  }

  ghost predicate WellFormedTrail(trail: Trail) {
    forall i :: 0 <= i < |trail| ==> WellPlaced(trail, i)
  }

  // ----- prefixes

  /** Two trails that start alike agree on everything about that start. */
  lemma {:induction false} SamePrefix(trail: Trail, other: Trail, k: nat, n: Name)
    requires k <= |trail| && k <= |other| && trail[..k] == other[..k]
    ensures Allowed(trail, k, n) == Allowed(other, k, n)
    ensures Level(trail, k) == Level(other, k)
  {
    if k > 0 {
      assert trail[k - 1] == trail[..k][k - 1] == other[k - 1];
      assert trail[..k - 1] == trail[..k][..k - 1] == other[..k - 1];
      SamePrefix(trail, other, k - 1, n);
    }
  }

  lemma {:induction false} PrefixWellPlaced(trail: Trail, other: Trail, i: nat)
    requires i < |trail| && i < |other| && trail[..i + 1] == other[..i + 1]
    requires WellPlaced(trail, i)
    ensures WellPlaced(other, i)
  {
    assert forall j :: 0 <= j <= i ==> trail[j] == trail[..i + 1][j] == other[j];
    assert trail[..i] == trail[..i + 1][..i] == other[..i];
    SamePrefix(trail, other, i + 1, trail[i].term.name);
    SamePrefix(trail, other, i, trail[i].term.name);
  }

  lemma {:induction false} PrefixWellFormed(trail: Trail, k: nat)
    requires WellFormedTrail(trail) && k <= |trail|
    ensures WellFormedTrail(trail[..k])
  {
    forall i | 0 <= i < k
      ensures WellPlaced(trail[..k], i)
    {
      assert trail[..k][..i + 1] == trail[..i + 1];
      PrefixWellPlaced(trail, trail[..k], i);
    }
  }

  /** Longer prefixes allow less. */
  lemma {:induction false} AllowedShrinks(trail: Trail, j: nat, k: nat, n: Name)
    requires j <= k <= |trail|
    ensures Allowed(trail, k, n).Within(Allowed(trail, j, n))
    decreases k - j
  {
    if j < k {
      AllowedShrinks(trail, j, k - 1, n);
      if trail[k - 1].term.name == n {
        var before, span := Allowed(trail, k - 1, n), trail[k - 1].term.Span();
        MeetShrinks(before, span);
        WithinTransitive(before.Meet(span), before, Allowed(trail, j, n));
      }
    }
  }

  lemma {:induction false} HoldsLater(trail: Trail, j: nat, k: nat, t: Term)
    requires j <= k <= |trail|
    ensures Holds(trail, j, t) ==> Holds(trail, k, t)
    ensures Clashes(trail, j, t) ==> Clashes(trail, k, t)
  {
    AllowedShrinks(trail, j, k, t.name);
    WithinTransitive(Allowed(trail, k, t.name), Allowed(trail, j, t.name), t.Span());
  }

  lemma {:induction false} ContradictedLater(trail: Trail, j: nat, k: nat, i: Incompatibility)
    requires j <= k <= |trail| && Contradicted(trail, j, i)
    ensures Contradicted(trail, k, i)
  {
    var t :| t in i.terms && Clashes(trail, j, t);
    HoldsLater(trail, j, k, t);
  }

  lemma {:induction false} NeverEmpty(trail: Trail, k: nat, n: Name)
    requires WellFormedTrail(trail) && k <= |trail|
    ensures !Allowed(trail, k, n).IsEmpty()
  {
    if k > 0 {
      NeverEmpty(trail, k - 1, n);
      assert WellPlaced(trail, k - 1);
    }
  }

  lemma {:induction false} LevelsRise(trail: Trail, j: nat, k: nat)
    requires j <= k <= |trail|
    ensures Level(trail, j) <= Level(trail, k)
    decreases k - j
  {
    if j < k {
      LevelsRise(trail, j, k - 1);
    }
  }

  /** Along the trail levels never fall, and each decision starts a new level. */
  lemma {:induction false} LevelsSorted(trail: Trail, i: nat, j: nat)
    requires WellFormedTrail(trail) && i <= j < |trail|
    ensures trail[i].level <= trail[j].level
    ensures i < j && trail[j].IsDecision() ==> trail[i].level < trail[j].level
  {
    assert WellPlaced(trail, i) && WellPlaced(trail, j);
    LevelsRise(trail, i + 1, j + 1);
    if i < j {
      LevelsRise(trail, i + 1, j);
    }
  }

  lemma {:induction false} CutSplits(trail: Trail, level: nat)
    ensures forall i :: 0 <= i < Cut(trail, level) ==> trail[i].level <= level
    ensures Cut(trail, level) < |trail| ==> trail[Cut(trail, level)].level > level
    decreases |trail|
  {
    if trail != [] {
      CutSplits(trail[..|trail| - 1], level);
    }
  }

  lemma {:induction false} CutBelow(trail: Trail, level: nat, i: nat)
    requires WellFormedTrail(trail) && i < |trail|
    ensures i < Cut(trail, level) <==> trail[i].level <= level
  {
    CutSplits(trail, level);
    if Cut(trail, level) <= i {
      LevelsSorted(trail, Cut(trail, level), i);
    }
  }

  lemma {:induction false} CutOfPrefix(trail: Trail, k: nat, level: nat)
    requires WellFormedTrail(trail) && k <= |trail| && Cut(trail, level) <= k
    ensures Cut(trail[..k], level) == Cut(trail, level)
  {
    var c := Cut(trail, level);
    CutSplits(trail, level);
    PrefixWellFormed(trail, k);
    if c < k {
      CutBelow(trail[..k], level, c);
    }
    if c > 0 {
      CutBelow(trail[..k], level, c - 1);
    }
  }

  lemma {:induction false} CutAll(trail: Trail, level: nat)
    requires WellFormedTrail(trail) && Level(trail, |trail|) <= level
    ensures Cut(trail, level) == |trail|
  {
    var c := Cut(trail, level);
    CutSplits(trail, level);
    if c < |trail| {
      assert WellPlaced(trail, c);
      LevelsRise(trail, c + 1, |trail|);
    }
  }

  // ----- one more assignment

  lemma {:induction false} Extend(trail: Trail, a: Assignment, n: Name)
    ensures var longer := trail + [a];
            && (forall k :: 0 <= k <= |trail| ==> Allowed(longer, k, n) == Allowed(trail, k, n))
            && Allowed(longer, |longer|, n) == (if a.term.name == n then Allowed(trail, |trail|, n).Meet(a.term.Span())
                                                else Allowed(trail, |trail|, n))
            && Level(longer, |longer|) == Level(trail, |trail|) + if a.IsDecision() then 1 else 0
  {
    var longer := trail + [a];
    forall k | 0 <= k <= |trail|
      ensures Allowed(longer, k, n) == Allowed(trail, k, n) && Level(longer, k) == Level(trail, k)
    {
      assert longer[..k] == trail[..k];
      SamePrefix(longer, trail, k, n);
    }
  }

  lemma {:induction false} ExtendWellFormed(trail: Trail, a: Assignment)
    requires WellFormedTrail(trail)
    requires WellPlaced(trail + [a], |trail|)
    ensures WellFormedTrail(trail + [a])
  {
    var longer := trail + [a];
    forall i | 0 <= i < |longer|
      ensures WellPlaced(longer, i)
    {
      if i < |trail| {
        assert trail[..i + 1] == longer[..i + 1];
        PrefixWellPlaced(trail, longer, i);
      }
    }
  }

  // ----- satisfiers

  /** The position of the assignment that makes a term hold; it is about the term's own package. */
  ghost function SatisfierIndex(trail: Trail, k: nat, t: Term): (i: nat)
    requires k <= |trail| && t.WellFormed() && Holds(trail, k, t)
    ensures i < k && trail[i].term.name == t.name
    ensures Holds(trail, i + 1, t) && !Holds(trail, i, t)
  {
    assert k > 0;
    if Holds(trail, k - 1, t) then SatisfierIndex(trail, k - 1, t) else k - 1
  }

  /** At most one assignment is the one that makes a term hold. */
  lemma {:induction false} SatisfierUnique(trail: Trail, t: Term, i: nat, j: nat)
    requires i < |trail| && j < |trail|
    requires Holds(trail, i + 1, t) && !Holds(trail, i, t)
    requires Holds(trail, j + 1, t) && !Holds(trail, j, t)
    ensures i == j
  {
    if i < j {
      HoldsLater(trail, i + 1, j, t);
    } else if j < i {
      HoldsLater(trail, j + 1, i, t);
    }
  }
}
