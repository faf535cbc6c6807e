/**
 Why solving ends. The numbers of assignments per decision level grow lexicographically, and they
 are bounded: each derivation leaves its package fewer outcomes, and each package is decided once.
 */
module Ranking {
  import opened Options
  import opened Terms
  import opened Incompatibilities
  import opened Providers
  import opened Trails
  import opened Resolution

  // ----- trails are bounded

  ghost function Outcomes(p: Provider): set<Option<Version>> {
    {None} + set v | v in p.versions :: Some(v)
  }

  ghost function Pairs(p: Provider): set<(Name, Option<Version>)> {
    set n, o | n in p.names && o in Outcomes(p) :: (n, o)
  }

  /** The packages and outcomes that the first `k` assignments leave open. */
  ghost function Alive(p: Provider, trail: Trail, k: nat): set<(Name, Option<Version>)>
    requires k <= |trail|
  {
    set n, o | n in p.names && o in Outcomes(p) && Allowed(trail, k, n).Has(o) :: (n, o)
  }

  ghost function DecidedNames(trail: Trail, k: nat): set<Name>
    requires k <= |trail|
  {
    if k == 0 then {}
    else DecidedNames(trail, k - 1) + if trail[k - 1].IsDecision() then {trail[k - 1].term.name} else {}
  }

  /** The most assignments a trail can hold. */
  ghost function Bound(p: Provider): nat {
    |Pairs(p)| + |p.names|
  }

  lemma {:induction false} AllowedInUniverse(p: Provider, trail: Trail, k: nat, n: Name)
    requires JustifiedTrail(p, trail) && k <= |trail|
    ensures Allowed(trail, k, n).versions <= p.versions
  {
    if k > 0 {
      AllowedInUniverse(p, trail, k - 1, n);
      assert Justified(p, trail, k - 1);
    }
  }

  lemma {:induction false} OutcomeLost(before: Span, after: Span, universe: set<Version>) returns (o: Option<Version>)
    requires after.Within(before) && after != before
    requires before.versions <= universe && after.versions <= universe
    ensures before.Has(o) && !after.Has(o)
    ensures o == None || (o.Some? && o.value in universe)
  {
    if before.Out? && after.In? {
      o := None;
    } else if before.In? {
      var v :| v in before.versions && v !in after.versions;
      o := Some(v);
    } else {
      var v :| v in after.versions && v !in before.versions;
      o := Some(v);
    }
  }

  lemma {:induction false} AliveStep(p: Provider, trail: Trail, i: nat)
    requires JustifiedTrail(p, trail) && i < |trail|
    ensures |Alive(p, trail, i + 1)| <= |Alive(p, trail, i)|
    ensures !trail[i].IsDecision() ==> |Alive(p, trail, i + 1)| < |Alive(p, trail, i)|
  {
    var before, after := Alive(p, trail, i), Alive(p, trail, i + 1);
    forall n, o | (n, o) in after
      ensures (n, o) in before
    {
      AllowedShrinks(trail, i, i + 1, n);
      SpanIsASetOfOutcomes(Allowed(trail, i + 1, n), Allowed(trail, i, n));
    }
    SubsetSize(after, before);
    if !trail[i].IsDecision() {
      assert Justified(p, trail, i);
      var n := trail[i].term.name;
      AllowedInUniverse(p, trail, i, n);
      AllowedInUniverse(p, trail, i + 1, n);
      AllowedShrinks(trail, i, i + 1, n);
      var o := OutcomeLost(Allowed(trail, i, n), Allowed(trail, i + 1, n), p.versions);
      assert o in Outcomes(p);
      assert (n, o) in before && (n, o) !in after;
      SubsetSize(after, before - {(n, o)});
    }
  }

  lemma {:induction false} SubsetSize<T>(a: set<T>, b: set<T>)
    requires a <= b
    ensures |a| <= |b|
  {
    assert b == a + (b - a);
  }

  lemma {:induction false} DecidedNamesCounted(p: Provider, trail: Trail, k: nat)
    requires JustifiedTrail(p, trail) && k <= |trail|
    ensures DecidedNames(trail, k) <= p.names && |DecidedNames(trail, k)| == Level(trail, k)
    ensures forall n <- DecidedNames(trail, k) ::
              exists j :: 0 <= j < k && trail[j].IsDecision() && trail[j].term.name == n
  {
    if k > 0 {
      DecidedNamesCounted(p, trail, k - 1);
      assert WellPlaced(trail, k - 1) && Justified(p, trail, k - 1);
    }
  }

  lemma {:induction false} LengthBounded(p: Provider, trail: Trail, k: nat)
    requires JustifiedTrail(p, trail) && k <= |trail|
    ensures k + |Alive(p, trail, k)| <= |Pairs(p)| + Level(trail, k)
  {
    if k == 0 {
      SubsetSize(Alive(p, trail, 0), Pairs(p));
    } else {
      LengthBounded(p, trail, k - 1);
      AliveStep(p, trail, k - 1);
    }
  }

  /** No trail is longer than the bound, and there are no more levels than packages. */
  lemma {:induction false} TrailBounded(p: Provider, trail: Trail)
    requires JustifiedTrail(p, trail)
    ensures |trail| <= Bound(p) && Level(trail, |trail|) <= |p.names|
  {
    LengthBounded(p, trail, |trail|);
    DecidedNamesCounted(p, trail, |trail|);
    SubsetSize(DecidedNames(trail, |trail|), p.names);
  }

  // ----- the assignments per level, as the digits of a number

  function Count(trail: Trail, k: nat, level: nat): (c: nat)
    requires k <= |trail|
    ensures c <= k
  {
    if k == 0 then 0 else Count(trail, k - 1, level) + if trail[k - 1].level == level then 1 else 0
  }

  /** The number whose digits in the given base are the counts of levels 0 to `top`. */
  function Digits(trail: Trail, base: nat, top: nat): nat {
    Count(trail, |trail|, top) + if top == 0 then 0 else Digits(trail, base, top - 1) * base
  }

  function Pow(base: nat, exponent: nat): nat {
    if exponent == 0 then 1 else Pow(base, exponent - 1) * base
  }

  lemma {:induction false} DigitsBounded(trail: Trail, base: nat, top: nat)
    requires |trail| < base
    ensures Digits(trail, base, top) < Pow(base, top + 1)
  {
    if top == 0 {
      assert Pow(base, 1) == Pow(base, 0) * base == base;
    } else {
      DigitsBounded(trail, base, top - 1);
      HigherDigitWins(Digits(trail, base, top - 1), Pow(base, top), base, Count(trail, |trail|, top), 0);
    }
  }

  lemma {:induction false} Times(a: int, b: int, c: nat)
    requires a <= b
    ensures a * c <= b * c
  {
  }

  lemma {:induction false} CountBeyond(trail: Trail, j: nat, k: nat, level: nat)
    requires j <= k <= |trail| && forall i :: j <= i < k ==> trail[i].level != level
    ensures Count(trail, k, level) == Count(trail, j, level)
    decreases k - j
  {
    if j < k {
      CountBeyond(trail, j, k - 1, level);
    }
  }

  lemma {:induction false} CountOfPrefix(trail: Trail, other: Trail, k: nat, level: nat)
    requires k <= |trail| && k <= |other| && trail[..k] == other[..k]
    ensures Count(trail, k, level) == Count(other, k, level)
  {
    if k > 0 {
      assert trail[k - 1] == trail[..k][k - 1] == other[k - 1];
      assert trail[..k - 1] == trail[..k][..k - 1] == other[..k - 1];
      CountOfPrefix(trail, other, k - 1, level);
    }
  }

  /** `other` keeps a prefix of `trail`, drops only higher levels, and adds one assignment. */
  ghost predicate Replaces(trail: Trail, k: nat, a: Assignment, other: Trail) {
    && k <= |trail| && other == trail[..k] + [a]
    && (forall i :: k <= i < |trail| ==> trail[i].level > a.level)
  }

  lemma {:induction false} CountReplaced(trail: Trail, k: nat, a: Assignment, other: Trail, level: nat)
    requires Replaces(trail, k, a, other) && level <= a.level
    ensures Count(other, |other|, level) == Count(trail, |trail|, level) + if level == a.level then 1 else 0
  {
    CountBeyond(trail, k, |trail|, level);
    assert other[..k] == trail[..k];
    CountOfPrefix(other, trail, k, level);
  }

  lemma {:induction false} DigitsSame(trail: Trail, k: nat, a: Assignment, other: Trail, base: nat, top: nat)
    requires Replaces(trail, k, a, other) && top < a.level
    ensures Digits(other, base, top) == Digits(trail, base, top)
  {
    CountReplaced(trail, k, a, other, top);
    if top > 0 {
      DigitsSame(trail, k, a, other, base, top - 1);
    }
  }

  lemma {:induction false} HigherDigitWins(high: nat, newHigh: nat, base: nat, low: nat, newLow: nat)
    requires high < newHigh && low < base
    ensures low + high * base < newLow + newHigh * base
  {
    Times(high + 1, newHigh, base);
    assert (high + 1) * base == high * base + base;
  }

  lemma {:induction false} DigitsGrow(trail: Trail, k: nat, a: Assignment, other: Trail, base: nat, top: nat)
    requires Replaces(trail, k, a, other) && a.level <= top && |trail| < base
    ensures Digits(other, base, top) > Digits(trail, base, top)
  {
    if top == a.level {
      CountReplaced(trail, k, a, other, top);
      if top > 0 {
        DigitsSame(trail, k, a, other, base, top - 1);
      }
    } else {
      DigitsGrow(trail, k, a, other, base, top - 1);
      HigherDigitWins(Digits(trail, base, top - 1), Digits(other, base, top - 1), base,
                      Count(trail, |trail|, top), Count(other, |other|, top));
    }
  }

  /** What is left to do, as a number that every step of the solver makes smaller. */
  ghost function Rank(p: Provider, trail: Trail): nat
    requires JustifiedTrail(p, trail)
  {
    TrailBounded(p, trail);
    DigitsBounded(trail, Bound(p) + 1, |p.names|);
    Pow(Bound(p) + 1, |p.names| + 1) - Digits(trail, Bound(p) + 1, |p.names|)
  }

  /**
   Adding an assignment, or dropping whole levels and then adding one to the level that is left,
   lowers the rank.
   */
  lemma {:induction false} RankFalls(p: Provider, trail: Trail, k: nat, a: Assignment, other: Trail)
    requires JustifiedTrail(p, trail) && JustifiedTrail(p, other) && Replaces(trail, k, a, other)
    ensures Rank(p, other) < Rank(p, trail)
  {
    TrailBounded(p, trail);
    TrailBounded(p, other);
    assert other[|other| - 1] == a && WellPlaced(other, |other| - 1);
    DigitsGrow(trail, k, a, other, Bound(p) + 1, |p.names|);
  }
}
