/**
 Incompatibilities (`src/poetry/mixology/incompatibility.py`): sets of terms that no solution may
 satisfy together, each with the reason why it is one.
 */
module Incompatibilities {
  import opened Options
  import opened Terms

  datatype Cause =
    | RootCause
    | NoVersionsCause
    | DependencyCause
    | PythonCause
    | ConflictCause(conflict: Incompatibility, other: Incompatibility)

  datatype Incompatibility = Incompatibility(terms: seq<Term>, cause: Cause) {
    predicate IsFailure() {
      |terms| == 0 || (|terms| == 1 && terms[0].isRoot)
    }

    /** The leaves of the derivation graph. */
    function External(): set<Incompatibility> {
      match cause
      case ConflictCause(conflict, other) => conflict.External() + other.External()
      case _ => {this}
    }
  }

  /** A choice of at most one version per package. */
  type Selection = map<Name, Version>

  function Outcome(s: Selection, n: Name): Option<Version> {
    if n in s then Some(s[n]) else None
  }

  /** The selection makes every term true, which is what an incompatibility forbids. */
  ghost predicate Violates(s: Selection, terms: seq<Term>) {
    forall t <- terms :: t.Span().Has(Outcome(s, t.name))
  }

  ghost predicate DistinctNames(terms: seq<Term>) {
    forall i, j :: 0 <= i < j < |terms| ==> terms[i].name != terms[j].name
  }

  /** Every term is implied by what is allowed for its package. */
  ghost predicate AllHold(allowed: Name -> Span, terms: seq<Term>) {
    forall t <- terms :: allowed(t.name).Within(t.Span())
  }

  // ----- the specification of the constructor

  /** Position of the term about package `n`, or the length if there is none. */
  function IndexOf(terms: seq<Term>, n: Name): (i: nat)
    ensures i <= |terms|
    ensures i < |terms| ==> terms[i].name == n
    ensures forall j :: 0 <= j < i ==> terms[j].name != n
  {
    if terms == [] then 0
    else if terms[0].name == n then 0
    else
      assert forall j :: 0 < j < |terms| ==> terms[j] == terms[1..][j - 1];
      1 + IndexOf(terms[1..], n)
  }

  /** Folds one more term into a list with one term per package. */
  function Insert(terms: seq<Term>, t: Term): Option<seq<Term>> {
    var i := IndexOf(terms, t.name);
    if i == |terms| then Some(terms + [t])
    else
      match terms[i].Intersect(t)
      case None => None
      case Some(u) => Some(terms[i := u])
  }

  /** One term per package, in order of first occurrence; None if the terms of a package have nothing in common. */
  function Coalesce(terms: seq<Term>): Option<seq<Term>> {
    if terms == [] then Some([])
    else
      match Coalesce(terms[..|terms| - 1])
      case None => None
      case Some(merged) => Insert(merged, terms[|terms| - 1])
  }

  function WithoutPositiveRoot(terms: seq<Term>): seq<Term> {
    if terms == [] then []
    else
      var init, last := terms[..|terms| - 1], terms[|terms| - 1];
      WithoutPositiveRoot(init) + if last.positive && last.isRoot then [] else [last]
  }

  function RootRemoved(terms: seq<Term>, cause: Cause): seq<Term> {
    if |terms| != 1 && cause.ConflictCause? then WithoutPositiveRoot(terms) else terms
  }

  /** What the constructor builds; None stands for its failing assertion. */
  function Build(terms: seq<Term>, cause: Cause): Option<Incompatibility> {
    var kept := RootRemoved(terms, cause);
    if |kept| != 1 && (|kept| != 2 || kept[0].name == kept[1].name) then
      match Coalesce(kept)
      case None => None
      case Some(merged) => Some(Incompatibility(merged, cause))
    else
      Some(Incompatibility(kept, cause))
  }

  // ----- the constructor itself

  /** The insertion-ordered dictionary holds the terms of `merged`, by package. */
  ghost predicate Tabulates(byName: map<Name, Term>, order: seq<Name>, merged: seq<Term>) {
    && |order| == |merged|
    && (forall i :: 0 <= i < |merged| ==> order[i] == merged[i].name)
    && (forall i :: 0 <= i < |merged| ==> order[i] in byName && byName[order[i]] == merged[i])
    && (forall n :: n in byName ==> n in order)
  }

  lemma {:induction false} TabulatesAfterUpdate(byName: map<Name, Term>, order: seq<Name>, merged: seq<Term>, u: Term)
    requires Tabulates(byName, order, merged) && DistinctNames(merged) && u.name in byName
    ensures Tabulates(byName[u.name := u], order, merged[IndexOf(merged, u.name) := u])
  {
    var at := IndexOf(merged, u.name);
    assert u.name in order;
    assert at < |merged|;
  }

  lemma {:induction false} TabulatesAfterAppend(byName: map<Name, Term>, order: seq<Name>, merged: seq<Term>, t: Term)
    requires Tabulates(byName, order, merged) && t.name !in byName
    ensures Tabulates(byName[t.name := t], order + [t.name], merged + [t])
  {
    var after := byName[t.name := t];
    forall n | n in after
      ensures n in order + [t.name]
    {
      if n != t.name {
        assert n in byName;
        var i :| 0 <= i < |order| && order[i] == n;
        assert (order + [t.name])[i] == n;
      } else {
        assert (order + [t.name])[|order|] == n;
      }
    }
  }

  lemma {:induction false} AbsentHasNoIndex(byName: map<Name, Term>, order: seq<Name>, merged: seq<Term>, n: Name)
    requires Tabulates(byName, order, merged) && n !in byName
    ensures IndexOf(merged, n) == |merged|
  {
    assert forall i :: 0 <= i < |merged| && merged[i].name == n ==> order[i] == n;
  }

  /** Enters one more term; its intersection with the entry of its package may be empty. */
  method PutTerm(byName: map<Name, Term>, order: seq<Name>, t: Term, ghost merged: seq<Term>)
    returns (newByName: map<Name, Term>, newOrder: seq<Name>, ok: bool)
    requires Tabulates(byName, order, merged) && DistinctNames(merged)
    ensures ok <==> Insert(merged, t).Some?
    ensures ok ==> Tabulates(newByName, newOrder, Insert(merged, t).value)
  {
    newByName, newOrder, ok := byName, order, true;
    if t.name in byName {
      assert t.name in order;
      var value := byName[t.name].Intersect(t);
      if value.None? {
        ok := false;
      } else {
        TabulatesAfterUpdate(byName, order, merged, value.value);
        newByName := byName[t.name := value.value];
      }
    } else {
      AbsentHasNoIndex(byName, order, merged, t.name);
      TabulatesAfterAppend(byName, order, merged, t);
      newByName := byName[t.name := t];
      newOrder := order + [t.name];
    }
  }

  /** The loops over the dictionary of terms by package name. */
  method CoalesceByName(terms: seq<Term>) returns (r: Option<seq<Term>>)
    ensures r == Coalesce(terms)
  {
    var byName: map<Name, Term> := map[];
    var order: seq<Name> := [];
    ghost var merged: seq<Term> := [];
    for k := 0 to |terms|
      invariant Coalesce(terms[..k]) == Some(merged)
      invariant Tabulates(byName, order, merged)
    {
      var t := terms[k];
      assert terms[..k + 1][..k] == terms[..k];
      assert Coalesce(terms[..k + 1]) == Insert(merged, t);
      InsertedDistinct(terms[..k], merged);
      var ok;
      byName, order, ok := PutTerm(byName, order, t, merged);
      if !ok {
        CoalesceStaysNone(terms, k + 1);
        return None;
      }
      merged := Insert(merged, t).value;
    }
    assert terms[..|terms|] == terms;
    var newTerms := TermsInOrder(byName, order, merged);
    r := Some(newTerms);
  }

  method TermsInOrder(byName: map<Name, Term>, order: seq<Name>, ghost merged: seq<Term>)
    returns (newTerms: seq<Term>)
    requires Tabulates(byName, order, merged)
    ensures newTerms == merged
  {
    newTerms := [];
    for k := 0 to |order|
      invariant newTerms == merged[..k]
    {
      newTerms := newTerms + [byName[order[k]]];
    }
  }

  method DropPositiveRoot(terms: seq<Term>) returns (kept: seq<Term>)
    ensures kept == WithoutPositiveRoot(terms)
  {
    kept := [];
    for k := 0 to |terms|
      invariant kept == WithoutPositiveRoot(terms[..k])
    {
      assert terms[..k + 1][..k] == terms[..k];
      if !terms[k].positive || !terms[k].isRoot {
        kept := kept + [terms[k]];
      }
    }
    assert terms[..|terms|] == terms;
  }

  method NewIncompatibility(terms: seq<Term>, cause: Cause) returns (r: Option<Incompatibility>)
    ensures r == Build(terms, cause)
  {
    var kept := terms;
    if |terms| != 1 && cause.ConflictCause? {
      kept := DropPositiveRoot(terms);
    }
    if |kept| != 1 && (|kept| != 2 || kept[0].name == kept[1].name) {
      var merged := CoalesceByName(kept);
      if merged.None? {
        return None;
      }
      kept := merged.value;
    }
    r := Some(Incompatibility(kept, cause));
  }

  // ----- what the constructor promises

  lemma {:induction false} CoalesceStaysNone(terms: seq<Term>, k: nat)
    requires k <= |terms| && Coalesce(terms[..k]).None?
    ensures Coalesce(terms).None?
    decreases |terms| - k
  {
    if k == |terms| {
      assert terms[..k] == terms;
    } else {
      assert terms[..k + 1][..k] == terms[..k];
      CoalesceStaysNone(terms, k + 1);
    }
  }

  lemma {:induction false} InsertedDistinct(terms: seq<Term>, merged: seq<Term>)
    requires Coalesce(terms) == Some(merged)
    ensures DistinctNames(merged)
    decreases |terms|
  {
    if terms != [] {
      var init := terms[..|terms| - 1];
      InsertedDistinct(init, Coalesce(init).value);
    }
  }

  /** A selection makes all terms true exactly when it makes the coalesced ones true. */
  lemma {:induction false} CoalesceMeaning(terms: seq<Term>, s: Selection)
    requires forall t <- terms :: t.WellFormed()
    ensures match Coalesce(terms)
            case None => !Violates(s, terms)
            case Some(merged) =>
              && (forall t <- merged :: t.WellFormed())
              && (Violates(s, merged) <==> Violates(s, terms))
    decreases |terms|
  {
    if terms != [] {
      var init, last := terms[..|terms| - 1], terms[|terms| - 1];
      assert terms == init + [last];
      CoalesceMeaning(init, s);
      if Coalesce(init).Some? {
        InsertMeaning(Coalesce(init).value, last, s);
      }
    }
  }

  /** A selection that makes the terms true, one for each package. */
  ghost function Witness(terms: seq<Term>): Selection
    requires forall t <- terms :: t.WellFormed()
  {
    if terms == [] then map[]
    else
      var w, last := Witness(terms[..|terms| - 1]), terms[|terms| - 1];
      assert last in terms && last.WellFormed();
      if last.positive then
        var v :| v in last.constraint;
        w[last.name := v]
      else w
  }

  lemma {:induction false} WitnessNames(terms: seq<Term>, n: Name)
    requires forall t <- terms :: t.WellFormed()
    requires forall t <- terms :: t.name != n
    ensures n !in Witness(terms)
  {
    if terms != [] {
      assert terms[|terms| - 1] in terms;
      WitnessNames(terms[..|terms| - 1], n);
    }
  }

  lemma {:induction false} WitnessViolates(terms: seq<Term>)
    requires DistinctNames(terms) && forall t <- terms :: t.WellFormed()
    ensures Violates(Witness(terms), terms)
  {
    if terms != [] {
      var init, last := terms[..|terms| - 1], terms[|terms| - 1];
      WitnessViolates(init);
      WitnessNames(init, last.name);
      forall t <- terms ensures t.Span().Has(Outcome(Witness(terms), t.name)) {
        if t != last {
          assert t in init && Outcome(Witness(terms), t.name) == Outcome(Witness(init), t.name);
        }
      }
    }
  }

  /** The assertion fails exactly when there is no selection at all that makes all the terms true. */
  lemma {:induction false} CoalesceFailsExactly(terms: seq<Term>)
    requires forall t <- terms :: t.WellFormed()
    ensures Coalesce(terms).None? <==> forall s :: !Violates(s, terms)
  {
    forall s ensures Coalesce(terms).None? ==> !Violates(s, terms) {
      CoalesceMeaning(terms, s);
    }
    if Coalesce(terms).Some? {
      var merged := Coalesce(terms).value;
      CoalesceMeaning(terms, map[]);
      InsertedDistinct(terms, merged);
      CoalesceMeaning(terms, Witness(merged));
      WitnessViolates(merged);
    }
  }

  lemma {:induction false} InsertMeaning(terms: seq<Term>, t: Term, s: Selection)
    requires t.WellFormed() && forall u <- terms :: u.WellFormed()
    ensures match Insert(terms, t)
            case None => !Violates(s, terms + [t])
            case Some(merged) =>
              && (forall u <- merged :: u.WellFormed())
              && (Violates(s, merged) <==> Violates(s, terms + [t]))
  {
    var i := IndexOf(terms, t.name);
    if i < |terms| {
      assert terms[i] in terms + [t] && t in terms + [t];
      IntersectMeaning(terms[i], t);
      if Insert(terms, t).Some? {
        var merged := Insert(terms, t).value;
        assert merged[i] in merged;
        assert forall j :: 0 <= j < |terms| && j != i ==> merged[j] == terms[j];
        assert forall j :: 0 <= j < |terms| ==> terms[j] in terms + [t];
      }
    } else {
      assert forall u :: u in terms + [t] <==> u in terms || u == t;
    }
  }

  /** Terms that all hold somewhere never exclude each other, and coalesce to terms that hold. */
  lemma {:induction false} CoalesceHolds(allowed: Name -> Span, terms: seq<Term>)
    requires forall t <- terms :: t.WellFormed() && !allowed(t.name).IsEmpty()
    requires AllHold(allowed, terms)
    ensures Coalesce(terms).Some? && AllHold(allowed, Coalesce(terms).value)
    ensures forall t <- Coalesce(terms).value :: t.WellFormed() && !allowed(t.name).IsEmpty()
    decreases |terms|
  {
    if terms != [] {
      var init, last := terms[..|terms| - 1], terms[|terms| - 1];
      assert last in terms && forall t <- init :: t in terms;
      CoalesceHolds(allowed, init);
      var merged := Coalesce(init).value;
      var i := IndexOf(merged, last.name);
      if i < |merged| {
        var a := allowed(last.name);
        assert merged[i] in merged;
        MeetGreatest(a, merged[i].Span(), last.Span());
        IntersectIsMeet(merged[i], last);
        WithinTransitive(a, merged[i].Span().Meet(last.Span()), In({}));
      }
    }
  }

  /** A property of terms that intersection keeps is kept by the whole construction. */
  lemma {:induction false} CoalesceKeeps(terms: seq<Term>, good: Term -> bool)
    requires forall t <- terms :: good(t)
    requires forall t, u :: good(t) && good(u) && t.name == u.name && t.Intersect(u).Some? ==>
                              good(t.Intersect(u).value)
    ensures Coalesce(terms).Some? ==> forall t <- Coalesce(terms).value :: good(t)
    decreases |terms|
  {
    if terms != [] {
      var init, last := terms[..|terms| - 1], terms[|terms| - 1];
      assert last in terms && forall t <- init :: t in terms;
      CoalesceKeeps(init, good);
    }
  }

  lemma {:induction false} WithoutPositiveRootMembers(terms: seq<Term>, t: Term)
    ensures t in WithoutPositiveRoot(terms) <==> t in terms && !(t.positive && t.isRoot)
    decreases |terms|
  {
    if terms != [] {
      WithoutPositiveRootMembers(terms[..|terms| - 1], t);
      assert terms == terms[..|terms| - 1] + [terms[|terms| - 1]];
    }
  }

  /**
   The incompatibility that is built is violated by exactly the selections that make all the given
   terms true, among the selections in which every term about the selected root holds. The failing
   assertion is reached only with terms that no such selection makes true.
   */
  lemma {:induction false} BuildMeaning(terms: seq<Term>, cause: Cause, s: Selection)
    requires forall t <- terms :: t.WellFormed()
    requires forall t <- terms :: t.positive && t.isRoot ==> t.Span().Has(Outcome(s, t.name))
    ensures match Build(terms, cause)
            case None => !Violates(s, terms)
            case Some(i) => i.cause == cause && (Violates(s, i.terms) <==> Violates(s, terms))
  {
    var kept := RootRemoved(terms, cause);
    forall t ensures t in kept ==> t in terms
             ensures t in terms && t !in kept ==> t.positive && t.isRoot
    {
      WithoutPositiveRootMembers(terms, t);
    }
    assert Violates(s, kept) <==> Violates(s, terms);
    CoalesceMeaning(kept, s);
  }

  lemma {:induction false} BuildDistinct(terms: seq<Term>, cause: Cause)
    ensures Build(terms, cause).Some? ==> DistinctNames(Build(terms, cause).value.terms)
  {
    var kept := RootRemoved(terms, cause);
    if Coalesce(kept).Some? {
      InsertedDistinct(kept, Coalesce(kept).value);
    }
  }

  lemma {:induction false} CoalesceNames(terms: seq<Term>, n: Name)
    ensures Coalesce(terms).Some? ==>
      ((exists t <- Coalesce(terms).value :: t.name == n) <==> exists t <- terms :: t.name == n)
  {
    if terms != [] && Coalesce(terms).Some? {
      var init, last := terms[..|terms| - 1], terms[|terms| - 1];
      CoalesceNames(init, n);
      var before, after := Coalesce(init).value, Coalesce(terms).value;
      assert forall t :: t in terms <==> t in init || t == last;
      assert forall j :: 0 <= j < |before| ==> after[j].name == before[j].name && after[j] in after;
      assert IndexOf(before, last.name) == |before| ==> after[|before|] == last;
    }
  }

  /** The packages concerned are the given ones; only a derived incompatibility does without the selected root. */
  lemma {:induction false} BuildNames(terms: seq<Term>, cause: Cause, n: Name)
    requires Build(terms, cause).Some?
    ensures (exists t <- Build(terms, cause).value.terms :: t.name == n) <==>
      exists t <- terms :: t.name == n && !(cause.ConflictCause? && |terms| != 1 && t.positive && t.isRoot)
  {
    forall t ensures t in WithoutPositiveRoot(terms) <==> t in terms && !(t.positive && t.isRoot) {
      WithoutPositiveRootMembers(terms, t);
    }
    CoalesceNames(RootRemoved(terms, cause), n);
  }

  /** Building from terms that all hold succeeds, and yields terms that hold. */
  lemma {:induction false} BuildHolds(allowed: Name -> Span, terms: seq<Term>, cause: Cause)
    requires forall t <- terms :: t.WellFormed() && !allowed(t.name).IsEmpty()
    requires AllHold(allowed, terms)
    ensures Build(terms, cause).Some?
    ensures AllHold(allowed, Build(terms, cause).value.terms)
    ensures forall t <- Build(terms, cause).value.terms :: t.WellFormed()
  {
    var kept := RootRemoved(terms, cause);
    forall t ensures t in kept ==> t in terms {
      WithoutPositiveRootMembers(terms, t);
    }
    CoalesceHolds(allowed, kept);
  }

  lemma {:induction false} BuildKeeps(terms: seq<Term>, cause: Cause, good: Term -> bool)
    requires forall t <- terms :: good(t)
    requires forall t, u :: good(t) && good(u) && t.name == u.name && t.Intersect(u).Some? ==>
                              good(t.Intersect(u).value)
    ensures Build(terms, cause).Some? ==> forall t <- Build(terms, cause).value.terms :: good(t)
  {
    var kept := RootRemoved(terms, cause);
    forall t ensures t in kept ==> t in terms {
      WithoutPositiveRootMembers(terms, t);
    }
    CoalesceKeeps(kept, good);
  }
}
