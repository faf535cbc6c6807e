/**
 Splitting duplicate dependencies with overlapping markers into dependencies with mutually exclusive
 markers (`_resolve_overlapping_markers` in `src/poetry/puzzle/provider.py`).

 A marker is the set of environments in which it holds, out of a finite set of environments; a
 constraint is a set of versions, out of a finite set of versions.
 */
module MarkerSplitting {
  import opened Options

  type Version = nat

  datatype Environment = Environment(python: nat, extras: set<string>, rest: nat)

  /** `source` is what makes a dependency come from a specific place; None is any repository. */
  datatype Dependency = Dependency(constraint: set<Version>, source: Option<string>, marker: set<Environment>) {
    function Kind(): (Option<string>, set<Version>) {
      (source, constraint)
    }
  }

  type Kind = (Option<string>, set<Version>)

  /** The project: all environments and versions, the Python versions it supports, and the target. */
  datatype Project = Project(
    environments: set<Environment>, versions: set<Version>,
    pythons: set<nat>, target: Option<Environment>)
  {
    /** `_is_relevant_marker` */
    predicate IsRelevantMarker(marker: set<Environment>, extras: Option<set<string>>) {
      && marker != {}
      && (exists e <- marker :: e.python in pythons)
      && (extras.None? || exists e <- marker :: e.extras == extras.value)
      && (target.None? || target.value in marker)
    }
  }

  // ----- what a list of dependencies means

  /** In environment `e` a dependency of this kind applies. */
  ghost predicate InForce(deps: seq<Dependency>, e: Environment, kind: Kind) {
    exists d <- deps :: e in d.marker && d.Kind() == kind
  }

  ghost predicate SameMeaning(a: seq<Dependency>, b: seq<Dependency>) {
    forall e, kind :: InForce(a, e, kind) <==> InForce(b, e, kind)
  }

  /** The versions that all dependencies in force admit. */
  ghost function Admitted(p: Project, deps: seq<Dependency>, e: Environment): set<Version> {
    set v | v in p.versions && Admits(deps, e, v)
  }

  ghost predicate Admits(deps: seq<Dependency>, e: Environment, v: Version) {
    forall d <- deps :: e in d.marker ==> v in d.constraint
  }

  ghost predicate Applies(deps: seq<Dependency>, e: Environment) {
    exists d <- deps :: e in d.marker
  }

  /** What applies in `e` cannot be had: no version satisfies all of it, or its sources differ. */
  ghost predicate ConflictAt(p: Project, deps: seq<Dependency>, e: Environment) {
    || (Applies(deps, e) && Admitted(p, deps, e) == {})
    || SourcesDiffer(deps, e)
  }

  ghost predicate SourcesDiffer(deps: seq<Dependency>, e: Environment) {
    exists c <- deps, d <- deps ::
      e in c.marker && e in d.marker && c.source.Some? && d.source.Some? && c.source != d.source
  }

  /** The dependency comes from wherever the ones that apply have to come from. */
  ghost predicate HasSources(deps: seq<Dependency>, e: Environment, d: Dependency) {
    forall c <- deps :: e in c.marker && c.source.Some? ==> d.source == c.source
  }

  /** The environments in which the same kinds of dependencies apply as in `e`. */
  ghost function Cell(p: Project, deps: seq<Dependency>, e: Environment): set<Environment> {
    set f | f in p.environments && Alike(deps, e, f)
  }

  ghost predicate Alike(deps: seq<Dependency>, e: Environment, f: Environment) {
    forall kind :: InForce(deps, e, kind) <==> InForce(deps, f, kind)
  }

  /**
   It matters what applies in `e`: the same applies somewhere with a supported Python, somewhere with the extras
   asked for, and in the target.
   */
  ghost predicate Matters(p: Project, deps: seq<Dependency>, extras: Option<set<string>>, e: Environment) {
    && e in p.environments
    && (exists f <- Cell(p, deps, e) :: f.python in p.pythons)
    && (extras.None? || exists f <- Cell(p, deps, e) :: f.extras == extras.value)
    && (p.target.None? || p.target.value in Cell(p, deps, e))
  }

  /** The dependency says for environment `e` what the given dependencies say together. */
  ghost predicate SpeaksFor(p: Project, deps: seq<Dependency>, e: Environment, d: Dependency) {
    if Applies(deps, e) then
      d.constraint == Admitted(p, deps, e) != {} && HasSources(deps, e, d)
    else
      d.constraint == {}
  }

  /**
   The result of splitting: no environment is spoken for twice, the ones that matter and no others are spoken
   for, and wherever one of the new dependencies applies it says what the old ones say together.
   */
  ghost predicate Splits(p: Project, deps: seq<Dependency>, extras: Option<set<string>>, out: seq<Dependency>) {
    && DisjointMarkers(out)
    && (forall e :: Applies(out, e) <==> Matters(p, deps, extras, e))
    && (forall d <- out, e <- d.marker :: SpeaksFor(p, deps, e, d))
  }

  ghost predicate DistinctKinds(deps: seq<Dependency>) {
    forall i, j :: 0 <= i < j < |deps| ==> deps[i].Kind() != deps[j].Kind()
  }

  ghost predicate DisjointMarkers(deps: seq<Dependency>) {
    forall i, j :: 0 <= i < j < |deps| ==> deps[i].marker !! deps[j].marker
  }

  ghost predicate KindOccurs(deps: seq<Dependency>, kind: Kind) {
    exists d <- deps :: d.Kind() == kind
  }

  // ----- merging dependencies of the same kind

  /** One dependency per kind, in force where any of that kind was. */
  ghost predicate MergedFrom(deps: seq<Dependency>, merged: seq<Dependency>) {
    && DistinctKinds(merged) && SameMeaning(deps, merged)
    && (forall kind :: KindOccurs(deps, kind) <==> KindOccurs(merged, kind))
  }

  /** `_group_by_source`: each dependency joins the first group of its source. */
  method GroupBySource(deps: seq<Dependency>) returns (groups: seq<seq<Dependency>>)
    ensures Grouped(deps, groups) && GroupedInOrder(deps, groups)
  {
    groups := [];
    for k := 0 to |deps|
      invariant Grouped(deps[..k], groups) && GroupedInOrder(deps[..k], groups)
    {
      var dep := deps[k];
      assert deps[..k + 1] == deps[..k] + [dep];
      var i := 0;
      while i < |groups| && groups[i][0].source != dep.source
        invariant 0 <= i <= |groups|
        invariant forall j :: 0 <= j < i ==> groups[j][0].source != dep.source
        decreases |groups| - i
      {
        i := i + 1;
      }
      GroupedStep(deps[..k], groups, dep, i);
      OrderStep(deps[..k], groups, dep, i);
      if i < |groups| {
        groups := groups[i := groups[i] + [dep]];
      } else {
        groups := groups + [[dep]];
      }
    }
    assert deps[..|deps|] == deps;
  }

  /** Groups of one source each, with distinct sources, that together hold the dependencies. */
  ghost predicate Grouped(deps: seq<Dependency>, groups: seq<seq<Dependency>>) {
    && (forall i :: 0 <= i < |groups| ==> groups[i] != [] && forall d <- groups[i] :: d.source == groups[i][0].source)
    && (forall i, j :: 0 <= i < j < |groups| ==> groups[i][0].source != groups[j][0].source)
    && (forall d :: d in deps <==> exists i :: 0 <= i < |groups| && d in groups[i])
  }

  lemma {:induction false} GroupedStep(deps: seq<Dependency>, groups: seq<seq<Dependency>>, dep: Dependency, i: nat)
    requires Grouped(deps, groups) && i <= |groups|
    requires forall j :: 0 <= j < i ==> groups[j][0].source != dep.source
    requires i < |groups| ==> groups[i][0].source == dep.source
    ensures i < |groups| ==> Grouped(deps + [dep], groups[i := groups[i] + [dep]])
    ensures i == |groups| ==> Grouped(deps + [dep], groups + [[dep]])
  {
    var after := if i < |groups| then groups[i := groups[i] + [dep]] else groups + [[dep]];
    forall d
      ensures d in deps + [dep] <==> exists j :: 0 <= j < |after| && d in after[j]
    {
      if d in deps {
        var j :| 0 <= j < |groups| && d in groups[j];
        assert d in after[j];
      }
      assert dep in after[i];
    }
  }

  /** The sources in the order in which they first occur. */
  function Sources(deps: seq<Dependency>): seq<Option<string>> {
    if deps == [] then []
    else
      var earlier, last := Sources(deps[..|deps| - 1]), deps[|deps| - 1].source;
      if last in earlier then earlier else earlier + [last]
  }

  function OfSource(deps: seq<Dependency>, source: Option<string>): seq<Dependency> {
    if deps == [] then []
    else
      var last := deps[|deps| - 1];
      OfSource(deps[..|deps| - 1], source) + if last.source == source then [last] else []
  }

  /** A group for each source in turn, with all its dependencies in their order. */
  ghost predicate GroupedInOrder(deps: seq<Dependency>, groups: seq<seq<Dependency>>) {
    && |groups| == |Sources(deps)|
    && forall i :: 0 <= i < |groups| ==> groups[i] == OfSource(deps, Sources(deps)[i])
  }

  lemma {:induction false} SourcesOfGroups(deps: seq<Dependency>, source: Option<string>)
    ensures source in Sources(deps) <==> OfSource(deps, source) != []
    ensures forall d <- OfSource(deps, source) :: d.source == source
  {
    if deps != [] {
      SourcesOfGroups(deps[..|deps| - 1], source);
    }
  }

  lemma {:induction false} OrderStep(deps: seq<Dependency>, groups: seq<seq<Dependency>>, dep: Dependency, i: nat)
    requires Grouped(deps, groups) && GroupedInOrder(deps, groups) && i <= |groups|
    requires forall j :: 0 <= j < i ==> groups[j][0].source != dep.source
    requires i < |groups| ==> groups[i][0].source == dep.source
    ensures i < |groups| ==> GroupedInOrder(deps + [dep], groups[i := groups[i] + [dep]])
    ensures i == |groups| ==> GroupedInOrder(deps + [dep], groups + [[dep]])
  {
    assert (deps + [dep])[..|deps|] == deps;
    forall j | 0 <= j < |groups| ensures Sources(deps)[j] == groups[j][0].source {
      SourcesOfGroups(deps, Sources(deps)[j]);
    }
    SourcesOfGroups(deps, dep.source);
    if i < |groups| {
      assert Sources(deps)[i] in Sources(deps);
    }
  }

  /** Merges dependencies of one source by constraint: the dictionary of lists by constraint. */
  method MergeGroup(group: seq<Dependency>) returns (merged: seq<Dependency>)
    requires forall d <- group :: d.source == group[0].source
    ensures MergedFrom(group, merged)
    ensures forall d <- merged :: group != [] && d.source == group[0].source
  {
    merged := [];
    for k := 0 to |group|
      invariant MergedFrom(group[..k], merged)
      invariant forall d <- merged :: group != [] && d.source == group[0].source
    {
      var dep := group[k];
      assert dep in group && group[..k + 1] == group[..k] + [dep];
      var i := 0;
      while i < |merged| && merged[i].constraint != dep.constraint
        invariant 0 <= i <= |merged|
        invariant forall j :: 0 <= j < i ==> merged[j].constraint != dep.constraint
        decreases |merged| - i
      {
        i := i + 1;
      }
      MergedStep(group[..k], merged, dep, i);
      if i < |merged| {
        merged := merged[i := merged[i].(marker := merged[i].marker + dep.marker)];
      } else {
        merged := merged + [dep];
      }
    }
    assert group[..|group|] == group;
  }

  lemma {:induction false} MergedStep(deps: seq<Dependency>, merged: seq<Dependency>, dep: Dependency, i: nat)
    requires MergedFrom(deps, merged) && i <= |merged|
    requires forall j :: 0 <= j < i ==> merged[j].Kind() != dep.Kind()
    requires i < |merged| ==> merged[i].Kind() == dep.Kind()
    ensures i < |merged| ==>
              MergedFrom(deps + [dep], merged[i := merged[i].(marker := merged[i].marker + dep.marker)])
    ensures i == |merged| ==> MergedFrom(deps + [dep], merged + [dep])
  {
    var after := if i < |merged| then merged[i := merged[i].(marker := merged[i].marker + dep.marker)]
                 else merged + [dep];
    assert forall j :: 0 <= j < |after| && j != i ==> after[j] == merged[j];
    assert after[i].Kind() == dep.Kind();
    forall e, kind
      ensures InForce(deps + [dep], e, kind) <==> InForce(after, e, kind)
    {
      InForceOneMore(deps, dep, e, kind);
      InForceReplaced(merged, after, i, e, kind);
    }
    forall kind
      ensures KindOccurs(deps + [dep], kind) <==> KindOccurs(after, kind)
    {
      KindOneMore(deps, dep, kind);
      KindReplaced(merged, after, i, kind);
    }
  }

  lemma {:induction false} InForceOneMore(deps: seq<Dependency>, dep: Dependency, e: Environment, kind: Kind)
    ensures InForce(deps + [dep], e, kind) <==> InForce(deps, e, kind) || (e in dep.marker && dep.Kind() == kind)
  {
    assert forall d :: d in deps + [dep] <==> d in deps || d == dep;
  }

  lemma {:induction false} KindOneMore(deps: seq<Dependency>, dep: Dependency, kind: Kind)
    ensures KindOccurs(deps + [dep], kind) <==> KindOccurs(deps, kind) || dep.Kind() == kind
  {
    assert forall d :: d in deps + [dep] <==> d in deps || d == dep;
  }

  lemma {:induction false} InForceReplaced(a: seq<Dependency>, b: seq<Dependency>, i: nat, e: Environment, kind: Kind)
    requires i < |b| && |a| <= |b| <= |a| + 1 && (i < |a| || i == |b| - 1)
    requires forall j :: 0 <= j < |b| && j != i ==> j < |a| && b[j] == a[j]
    requires i < |a| ==> |a| == |b| && b[i].Kind() == a[i].Kind() && a[i].marker <= b[i].marker
    ensures InForce(b, e, kind) <==>
            InForce(a, e, kind) || (b[i].Kind() == kind && e in b[i].marker)
  {
    if InForce(a, e, kind) {
      var d :| d in a && e in d.marker && d.Kind() == kind;
      var j :| 0 <= j < |a| && a[j] == d;
      assert b[j] in b && e in b[j].marker && b[j].Kind() == kind;
    }
    assert b[i] in b;
    if InForce(b, e, kind) {
      var d :| d in b && e in d.marker && d.Kind() == kind;
      var j :| 0 <= j < |b| && b[j] == d;
      assert j != i ==> a[j] in a;
    }
  }

  lemma {:induction false} KindReplaced(a: seq<Dependency>, b: seq<Dependency>, i: nat, kind: Kind)
    requires i < |b| && |a| <= |b|
    requires forall j :: 0 <= j < |b| && j != i ==> j < |a| && b[j] == a[j]
    requires i < |a| ==> b[i].Kind() == a[i].Kind()
    ensures KindOccurs(b, kind) <==> KindOccurs(a, kind) || b[i].Kind() == kind
  {
    if KindOccurs(a, kind) {
      var d :| d in a && d.Kind() == kind;
      var j :| 0 <= j < |a| && a[j] == d;
      assert b[j] in b;
    }
    assert b[i] in b;
    if KindOccurs(b, kind) {
      var d :| d in b && d.Kind() == kind;
      var j :| 0 <= j < |b| && b[j] == d;
      assert j != i ==> a[j] in a;
    }
  }

  /** `_merge_dependencies_by_constraint` */
  method MergeByConstraint(deps: seq<Dependency>) returns (merged: seq<Dependency>)
    ensures MergedFrom(deps, merged)
  {
    var groups := GroupBySource(deps);
    merged := [];
    for k := 0 to |groups|
      invariant MergedGroups(groups, k, merged)
    {
      var part := MergeGroup(groups[k]);
      GroupMerged(groups, k, merged, part);
      merged := merged + part;
    }
    AllGroupsMerged(deps, groups, merged);
  }

  /** The dependencies merged from the first `k` groups. */
  ghost predicate MergedGroups(groups: seq<seq<Dependency>>, k: nat, merged: seq<Dependency>)
    requires k <= |groups|
  {
    && DistinctKinds(merged)
    && (forall d <- merged :: exists i :: 0 <= i < k && groups[i] != [] && groups[i][0].source == d.source)
    && (forall e, kind :: InForce(merged, e, kind) <==> exists i :: 0 <= i < k && InForce(groups[i], e, kind))
    && (forall kind :: KindOccurs(merged, kind) <==> exists i :: 0 <= i < k && KindOccurs(groups[i], kind))
  }

  lemma {:induction false} GroupMerged(groups: seq<seq<Dependency>>, k: nat, merged: seq<Dependency>,
      part: seq<Dependency>)
    requires k < |groups| && groups[k] != [] && MergedGroups(groups, k, merged)
    requires forall i, j :: 0 <= i < j < |groups| && groups[i] != [] && groups[j] != [] ==>
                              groups[i][0].source != groups[j][0].source
    requires MergedFrom(groups[k], part) && forall d <- part :: d.source == groups[k][0].source
    ensures MergedGroups(groups, k + 1, merged + part)
  {
    var all := merged + part;
    forall i, j | 0 <= i < j < |all|
      ensures all[i].Kind() != all[j].Kind()
    {
      if i < |merged| <= j {
        assert all[i] in merged && all[j] in part;
      }
    }
    forall e, kind
      ensures InForce(all, e, kind) <==> InForce(merged, e, kind) || InForce(part, e, kind)
    {
      assert forall d :: d in all <==> d in merged || d in part;
    }
    forall kind
      ensures KindOccurs(all, kind) <==> KindOccurs(merged, kind) || KindOccurs(part, kind)
    {
      assert forall d :: d in all <==> d in merged || d in part;
    }
    forall d | d in all
      ensures exists i :: 0 <= i < k + 1 && groups[i] != [] && groups[i][0].source == d.source
    {
      if d in part {
        assert groups[k][0].source == d.source;
      }
    }
  }

  lemma {:induction false} AllGroupsMerged(deps: seq<Dependency>, groups: seq<seq<Dependency>>, merged: seq<Dependency>)
    requires Grouped(deps, groups) && MergedGroups(groups, |groups|, merged)
    ensures MergedFrom(deps, merged)
  {
    forall e, kind
      ensures InForce(deps, e, kind) <==> InForce(merged, e, kind)
    {
      if InForce(deps, e, kind) {
        var d :| d in deps && e in d.marker && d.Kind() == kind;
        var i :| 0 <= i < |groups| && d in groups[i];
        assert InForce(groups[i], e, kind);
      }
      if InForce(merged, e, kind) {
        var i :| 0 <= i < |groups| && InForce(groups[i], e, kind);
        var d :| d in groups[i] && e in d.marker && d.Kind() == kind;
        assert d in deps;
      }
    }
    forall kind
      ensures KindOccurs(deps, kind) <==> KindOccurs(merged, kind)
    {
      if KindOccurs(deps, kind) {
        var d :| d in deps && d.Kind() == kind;
        var i :| 0 <= i < |groups| && d in groups[i];
        assert KindOccurs(groups[i], kind);
      }
      if KindOccurs(merged, kind) {
        var i :| 0 <= i < |groups| && KindOccurs(groups[i], kind);
        var d :| d in groups[i] && d.Kind() == kind;
        assert d in deps;
      }
    }
  }

  lemma {:induction false} DisjointOneKind(deps: seq<Dependency>, e: Environment, kind: Kind, other: Kind)
    requires DisjointMarkers(deps) && InForce(deps, e, kind) && InForce(deps, e, other)
    ensures kind == other
  {
    var c :| c in deps && e in c.marker && c.Kind() == kind;
    var d :| d in deps && e in d.marker && d.Kind() == other;
    var i :| 0 <= i < |deps| && deps[i] == c;
    var j :| 0 <= j < |deps| && deps[j] == d;
  }

  /** Merging keeps markers apart that are apart. */
  lemma {:induction false} MergingKeepsDisjoint(deps: seq<Dependency>, merged: seq<Dependency>)
    requires MergedFrom(deps, merged) && DisjointMarkers(deps)
    ensures DisjointMarkers(merged)
  {
    forall i, j | 0 <= i < j < |merged|
      ensures merged[i].marker !! merged[j].marker
    {
      forall e | e in merged[i].marker
        ensures e !in merged[j].marker
      {
        assert merged[i] in merged && merged[j] in merged;
        assert InForce(merged, e, merged[i].Kind());
        if e in merged[j].marker {
          assert InForce(merged, e, merged[j].Kind());
          DisjointOneKind(deps, e, merged[i].Kind(), merged[j].Kind());
        }
      }
    }
  }

  /** Whatever applies in `e` according to `a`, a dependency of the same kind does according to `b`. */
  ghost predicate Covered(a: seq<Dependency>, b: seq<Dependency>, e: Environment) {
    forall c <- a :: e in c.marker ==> exists d <- b :: e in d.marker && d.Kind() == c.Kind()
  }

  lemma {:induction false} CoveredMeaning(p: Project, a: seq<Dependency>, b: seq<Dependency>, e: Environment)
    requires Covered(a, b, e)
    ensures Applies(a, e) ==> Applies(b, e)
    ensures Admitted(p, b, e) <= Admitted(p, a, e)
    ensures SourcesDiffer(a, e) ==> SourcesDiffer(b, e)
    ensures forall d: Dependency :: HasSources(b, e, d) ==> HasSources(a, e, d)
  {
    if SourcesDiffer(a, e) {
      var c, d :| c in a && d in a && e in c.marker && e in d.marker
                  && c.source.Some? && d.source.Some? && c.source != d.source;
      var c' :| c' in b && e in c'.marker && c'.Kind() == c.Kind();
      var d' :| d' in b && e in d'.marker && d'.Kind() == d.Kind();
    }
  }

  lemma {:induction false} SameMeaningCovers(a: seq<Dependency>, b: seq<Dependency>, e: Environment)
    requires SameMeaning(a, b)
    ensures Covered(a, b, e)
  {
    forall c | c in a && e in c.marker
      ensures exists d <- b :: e in d.marker && d.Kind() == c.Kind()
    {
      assert InForce(a, e, c.Kind());
    }
  }

  lemma {:induction false} SameMeaningParts(p: Project, a: seq<Dependency>, b: seq<Dependency>, e: Environment)
    requires SameMeaning(a, b)
    ensures Applies(a, e) <==> Applies(b, e)
    ensures Admitted(p, a, e) == Admitted(p, b, e)
    ensures SourcesDiffer(a, e) <==> SourcesDiffer(b, e)
    ensures forall d: Dependency :: HasSources(a, e, d) <==> HasSources(b, e, d)
  {
    SameMeaningCovers(a, b, e);
    SameMeaningCovers(b, a, e);
    CoveredMeaning(p, a, b, e);
    CoveredMeaning(p, b, a, e);
  }

  /** Everything that is said of an environment depends only on the kinds in force. */
  lemma {:induction false} MeaningOnly(p: Project, a: seq<Dependency>, b: seq<Dependency>, e: Environment)
    requires SameMeaning(a, b)
    ensures ConflictAt(p, a, e) <==> ConflictAt(p, b, e)
    ensures forall d :: SpeaksFor(p, a, e, d) <==> SpeaksFor(p, b, e, d)
  {
    SameMeaningParts(p, a, b, e);
  }

  lemma {:induction false} CellOnly(p: Project, a: seq<Dependency>, b: seq<Dependency>, e: Environment)
    requires SameMeaning(a, b)
    ensures Cell(p, a, e) == Cell(p, b, e)
  {
    forall f
      ensures Alike(a, e, f) <==> Alike(b, e, f)
    {
    }
  }

  // ----- the product of uses

  function Prefixed(b: bool, list: seq<seq<bool>>): seq<seq<bool>> {
    seq(|list|, i requires 0 <= i < |list| => [b] + list[i])
  }

  /** All lists of `n` booleans, in the order in which they are tried. */
  function Product(n: nat): seq<seq<bool>> {
    if n == 0 then [[]] else Prefixed(true, Product(n - 1)) + Prefixed(false, Product(n - 1))
  }

  lemma {:induction false} ProductDistinct(n: nat)
    ensures forall i :: 0 <= i < |Product(n)| ==> |Product(n)[i]| == n
    ensures forall i, j :: 0 <= i < j < |Product(n)| ==> Product(n)[i] != Product(n)[j]
  {
    if n > 0 {
      ProductDistinct(n - 1);
      var rest := Product(n - 1);
      forall i, j | 0 <= i < j < |Product(n)|
        ensures Product(n)[i] != Product(n)[j]
      {
        var (a, b) := (Product(n)[i], Product(n)[j]);
        assert a[1..] == rest[if i < |rest| then i else i - |rest|];
        assert b[1..] == rest[if j < |rest| then j else j - |rest|];
      }
    }
  }

  lemma {:induction false} ProductComplete(uses: seq<bool>)
    ensures uses in Product(|uses|)
    decreases |uses|
  {
    if uses != [] {
      ProductComplete(uses[1..]);
      var rest := Product(|uses| - 1);
      var i :| 0 <= i < |rest| && rest[i] == uses[1..];
      assert uses == [uses[0]] + rest[i];
      assert Product(|uses|)[if uses[0] then i else |rest| + i] == uses;
    }
  }

  /** The dependencies that apply in `f` are the used ones. */
  ghost predicate Matches(deps: seq<Dependency>, uses: seq<bool>, f: Environment) {
    |uses| == |deps| && forall i :: 0 <= i < |deps| ==> (uses[i] <==> f in deps[i].marker)
  }

  ghost function Matching(p: Project, deps: seq<Dependency>, uses: seq<bool>): set<Environment> {
    set f | f in p.environments && Matches(deps, uses, f)
  }

  lemma {:induction false} UsesOf(deps: seq<Dependency>, e: Environment) returns (uses: seq<bool>)
    ensures Matches(deps, uses, e) && uses in Product(|deps|)
  {
    uses := seq(|deps|, i requires 0 <= i < |deps| => e in deps[i].marker);
    ProductComplete(uses);
  }

  /** Over distinct kinds the environments with the same uses are those where the same kinds apply. */
  lemma {:induction false} MatchingIsCell(p: Project, deps: seq<Dependency>, uses: seq<bool>, e: Environment)
    requires DistinctKinds(deps) && Matches(deps, uses, e)
    ensures Matching(p, deps, uses) == Cell(p, deps, e)
  {
    forall f
      ensures Matches(deps, uses, f) <==> Alike(deps, e, f)
    {
      forall i | 0 <= i < |deps|
        ensures InForce(deps, f, deps[i].Kind()) <==> f in deps[i].marker
        ensures InForce(deps, e, deps[i].Kind()) <==> e in deps[i].marker
      {
        OneOfAKind(deps, i, f);
        OneOfAKind(deps, i, e);
      }
    }
  }

  lemma {:induction false} OneOfAKind(deps: seq<Dependency>, i: nat, e: Environment)
    requires DistinctKinds(deps) && i < |deps|
    ensures InForce(deps, e, deps[i].Kind()) <==> e in deps[i].marker
  {
    assert deps[i] in deps;
    if InForce(deps, e, deps[i].Kind()) {
      var d :| d in deps && e in d.marker && d.Kind() == deps[i].Kind();
      var j :| 0 <= j < |deps| && deps[j] == d;
    }
  }

  // ----- one combination of used and unused dependencies

  /** The intersection of the markers of the used ones and then the inverted markers of the others. */
  method IntersectMarkers(p: Project, deps: seq<Dependency>, uses: seq<bool>) returns (marker: set<Environment>)
    requires |uses| == |deps|
    ensures marker == Matching(p, deps, uses)
  {
    marker := p.environments;
    for i := 0 to |deps|
      invariant marker == set f | f in p.environments && forall j :: 0 <= j < i && uses[j] ==> f in deps[j].marker
    {
      if uses[i] {
        marker := marker * deps[i].marker;
      }
    }
    for i := 0 to |deps|
      invariant marker == set f | && f in p.environments
                                  && (forall j :: 0 <= j < |deps| && uses[j] ==> f in deps[j].marker)
                                  && (forall j :: 0 <= j < i && !uses[j] ==> f !in deps[j].marker)
    {
      if !uses[i] {
        marker := marker * (p.environments - deps[i].marker);
      }
    }
  }

  /** The intersection of the constraints of the used ones, and the specific source among them. */
  method CombineUsed(p: Project, deps: seq<Dependency>, uses: seq<bool>)
    returns (ok: bool, constraint: set<Version>, specific: Option<Dependency>)
    requires |uses| == |deps|
    ensures !ok <==> UsedSourcesDiffer(deps, uses, |deps|)
    ensures ok ==> Combined(p, deps, uses, |deps|, constraint, specific)
  {
    ok, constraint, specific := true, p.versions, None;
    for i := 0 to |deps|
      invariant ok && !UsedSourcesDiffer(deps, uses, i)
      invariant Combined(p, deps, uses, i, constraint, specific)
    {
      if uses[i] {
        if deps[i].source.Some? {
          if specific.Some? && deps[i].source != specific.value.source {
            var j :| 0 <= j < i && uses[j] && deps[j] == specific.value;
            assert UsedSourcesDiffer(deps, uses, |deps|);
            ok := false;
            return;
          }
          specific := Some(deps[i]);
        }
        constraint := constraint * deps[i].constraint;
      }
    }
  }

  ghost predicate UsedSourcesDiffer(deps: seq<Dependency>, uses: seq<bool>, k: nat)
    requires k <= |deps| == |uses|
  {
    exists i, j :: 0 <= i < k && 0 <= j < k && uses[i] && uses[j]
                   && deps[i].source.Some? && deps[j].source.Some? && deps[i].source != deps[j].source
  }

  ghost predicate Combined(p: Project, deps: seq<Dependency>, uses: seq<bool>, k: nat,
                           constraint: set<Version>, specific: Option<Dependency>)
    requires k <= |deps| == |uses|
  {
    && constraint == (set v | v in p.versions && forall i :: 0 <= i < k && uses[i] ==> v in deps[i].constraint)
    && match specific
       case None => forall i :: 0 <= i < k && uses[i] ==> deps[i].source.None?
       case Some(d) =>
         && d.source.Some?
         && (exists i :: 0 <= i < k && uses[i] && deps[i] == d)
         && (forall i :: 0 <= i < k && uses[i] && deps[i].source.Some? ==> deps[i].source == d.source)
  }

  /** What the used dependencies say together is what applies in each environment that matches. */
  lemma {:induction false} CombinedMeaning(p: Project, deps: seq<Dependency>, uses: seq<bool>, e: Environment)
    requires Matches(deps, uses, e)
    ensures UsedSourcesDiffer(deps, uses, |deps|) <==> SourcesDiffer(deps, e)
    ensures Applies(deps, e) <==> true in uses
    ensures Admitted(p, deps, e) ==
            set v | v in p.versions && forall i :: 0 <= i < |deps| && uses[i] ==> v in deps[i].constraint
  {
    if SourcesDiffer(deps, e) {
      var c, d :| c in deps && d in deps && e in c.marker && e in d.marker
                  && c.source.Some? && d.source.Some? && c.source != d.source;
      var i :| 0 <= i < |deps| && deps[i] == c;
      var j :| 0 <= j < |deps| && deps[j] == d;
      assert uses[i] && uses[j];
    }
    if UsedSourcesDiffer(deps, uses, |deps|) {
      var i, j :| 0 <= i < |deps| && 0 <= j < |deps| && uses[i] && uses[j]
                  && deps[i].source.Some? && deps[j].source.Some? && deps[i].source != deps[j].source;
      assert deps[i] in deps && deps[j] in deps;
    }
    if Applies(deps, e) {
      var d :| d in deps && e in d.marker;
      var i :| 0 <= i < |deps| && deps[i] == d;
      assert uses[i];
    }
    if true in uses {
      var i :| 0 <= i < |uses| && uses[i];
      assert deps[i] in deps;
    }
    forall v
      ensures Admits(deps, e, v) <==>
              (forall i :: 0 <= i < |deps| && uses[i] ==> v in deps[i].constraint)
    {
      assert forall i :: 0 <= i < |deps| ==> deps[i] in deps;
    }
  }

  lemma {:induction false} CombinedSources(p: Project, deps: seq<Dependency>, uses: seq<bool>, e: Environment,
      constraint: set<Version>, specific: Option<Dependency>, d: Dependency)
    requires Matches(deps, uses, e) && Combined(p, deps, uses, |deps|, constraint, specific)
    requires specific.Some? ==> d.source == specific.value.source
    ensures HasSources(deps, e, d)
  {
    forall c | c in deps && e in c.marker && c.source.Some?
      ensures d.source == c.source
    {
      var i :| 0 <= i < |deps| && deps[i] == c;
    }
  }

  /** The new dependency for one combination, or None if what is used conflicts. */
  method Combine(p: Project, deps: seq<Dependency>, uses: seq<bool>, marker: set<Environment>)
    returns (r: Option<Dependency>)
    requires |uses| == |deps| > 0 && p.versions != {}
    requires marker == Matching(p, deps, uses)
    ensures r.None? ==> forall e <- marker :: ConflictAt(p, deps, e)
    ensures r.Some? ==> r.value.marker == marker
    ensures r.Some? ==> forall e <- marker :: !ConflictAt(p, deps, e) && SpeaksFor(p, deps, e, r.value)
  {
    var ok, constraint, specific := CombineUsed(p, deps, uses);
    forall e | e in marker
      ensures ok ==> Admitted(p, deps, e) == constraint
      ensures ok <==> !SourcesDiffer(deps, e)
      ensures Applies(deps, e) <==> true in uses
    {
      CombinedMeaning(p, deps, uses, e);
    }
    if !ok {
      return None;
    }
    if constraint == {} {
      assert true !in uses ==> constraint == p.versions;
      return None;
    }
    var base := deps[0];
    if true in uses {
      var i :| 0 <= i < |uses| && uses[i] && forall j :: 0 <= j < i ==> !uses[j] by {
        FirstUse(uses);
      }
      base := if specific.Some? then specific.value else deps[i];
    } else {
      constraint := {};
    }
    r := Some(base.(constraint := constraint, marker := marker));
    forall e | e in marker
      ensures SpeaksFor(p, deps, e, r.value)
    {
      if true in uses {
        CombinedSources(p, deps, uses, e, constraint, specific, r.value);
      }
    }
  }

  lemma {:induction false} FirstUse(uses: seq<bool>)
    requires true in uses
    ensures exists i :: 0 <= i < |uses| && uses[i] && forall j :: 0 <= j < i ==> !uses[j]
  {
    if !uses[0] {
      FirstUse(uses[1..]);
      var i :| 0 <= i < |uses[1..]| && uses[1..][i] && forall j :: 0 <= j < i ==> !uses[1..][j];
      assert uses[i + 1] && forall j :: 0 <= j < i + 1 ==> !uses[j];
    }
  }

  // ----- the whole transformation

  /** The combinations before position `k` have been turned into dependencies, unless irrelevant. */
  ghost predicate SplitSoFar(p: Project, deps: seq<Dependency>, extras: Option<set<string>>, cells: seq<seq<bool>>,
                             k: nat, news: seq<Dependency>, origin: seq<nat>)
    requires k <= |cells|
  {
    && |origin| == |news|
    && (forall i :: 0 <= i < |news| ==> origin[i] < k && news[i].marker == Matching(p, deps, cells[origin[i]]))
    && (forall i, j :: 0 <= i < j < |origin| ==> origin[i] < origin[j])
    && (forall q :: 0 <= q < k && p.IsRelevantMarker(Matching(p, deps, cells[q]), extras) ==>
                      q in origin && NoConflict(p, deps, Matching(p, deps, cells[q])))
    && (forall d <- news, e <- d.marker :: SpeaksFor(p, deps, e, d))
  }

  ghost predicate NoConflict(p: Project, deps: seq<Dependency>, marker: set<Environment>) {
    forall e <- marker :: !ConflictAt(p, deps, e)
  }

  lemma {:induction false} SplitOneMore(p: Project, deps: seq<Dependency>, extras: Option<set<string>>,
      cells: seq<seq<bool>>, k: nat, news: seq<Dependency>, origin: seq<nat>, d: Dependency)
    requires k < |cells| && SplitSoFar(p, deps, extras, cells, k, news, origin)
    requires d.marker == Matching(p, deps, cells[k]) && NoConflict(p, deps, d.marker)
    requires forall e <- d.marker :: SpeaksFor(p, deps, e, d)
    ensures SplitSoFar(p, deps, extras, cells, k + 1, news + [d], origin + [k])
  {
    assert k in origin + [k];
    assert forall q :: q in origin ==> q in origin + [k];
  }

  lemma {:induction false} SplitIsDisjoint(p: Project, deps: seq<Dependency>, extras: Option<set<string>>,
      news: seq<Dependency>, origin: seq<nat>)
    requires SplitSoFar(p, deps, extras, Product(|deps|), |Product(|deps|)|, news, origin)
    ensures DisjointMarkers(news)
  {
    var cells := Product(|deps|);
    ProductDistinct(|deps|);
    forall i, j | 0 <= i < j < |news|
      ensures news[i].marker !! news[j].marker
    {
      var (a, b) := (cells[origin[i]], cells[origin[j]]);
      assert a != b && |a| == |b|;
      var u := DifferingUse(a, b);
    }
  }

  lemma {:induction false} DifferingUse(a: seq<bool>, b: seq<bool>) returns (u: nat)
    requires |a| == |b| && a != b
    ensures u < |a| && a[u] != b[u]
  {
    u :| u < |a| && a[u] != b[u];
  }

  /** The marker of a combination is relevant exactly if it matters what applies where it holds. */
  lemma {:induction false} RelevantCell(p: Project, deps: seq<Dependency>, extras: Option<set<string>>, e: Environment)
    requires e in p.environments
    ensures p.IsRelevantMarker(Cell(p, deps, e), extras) <==> Matters(p, deps, extras, e)
  {
    assert e in Cell(p, deps, e);
  }

  /** Each environment that matters is spoken for, and free of conflict. */
  lemma {:induction false} SplitCovers(p: Project, deps: seq<Dependency>, extras: Option<set<string>>,
      news: seq<Dependency>, origin: seq<nat>, e: Environment)
    requires SplitSoFar(p, deps, extras, Product(|deps|), |Product(|deps|)|, news, origin)
    requires DistinctKinds(deps) && e in p.environments
    requires p.IsRelevantMarker(Cell(p, deps, e), extras)
    ensures Applies(news, e) && !ConflictAt(p, deps, e)
  {
    var uses := UsesOf(deps, e);
    MatchingIsCell(p, deps, uses, e);
    var cells := Product(|deps|);
    var q :| 0 <= q < |cells| && cells[q] == uses;
    assert e in Matching(p, deps, uses);
    assert q in origin;
    var i :| 0 <= i < |origin| && origin[i] == q;
    assert news[i] in news && e in news[i].marker;
  }

  ghost predicate AllRelevant(p: Project, extras: Option<set<string>>, news: seq<Dependency>) {
    forall d <- news :: p.IsRelevantMarker(d.marker, extras)
  }

  lemma {:induction false} RelevantOneMore(p: Project, extras: Option<set<string>>, news: seq<Dependency>,
      d: Dependency)
    requires AllRelevant(p, extras, news) && p.IsRelevantMarker(d.marker, extras)
    ensures AllRelevant(p, extras, news + [d])
  {
  }

  /** Only environments that matter are spoken for. */
  lemma {:induction false} SplitMatters(p: Project, deps: seq<Dependency>, extras: Option<set<string>>,
      news: seq<Dependency>, origin: seq<nat>, e: Environment)
    requires SplitSoFar(p, deps, extras, Product(|deps|), |Product(|deps|)|, news, origin)
    requires AllRelevant(p, extras, news) && DistinctKinds(deps) && Applies(news, e)
    ensures Matters(p, deps, extras, e)
  {
    var d :| d in news && e in d.marker;
    var i :| 0 <= i < |news| && news[i] == d;
    MatchingIsCell(p, deps, Product(|deps|)[origin[i]], e);
    RelevantCell(p, deps, extras, e);
  }

  /** Merging the new dependencies keeps what they say. */
  lemma {:induction false} MergedSplits(p: Project, deps: seq<Dependency>, extras: Option<set<string>>,
      news: seq<Dependency>, out: seq<Dependency>)
    requires Splits(p, deps, extras, news) && MergedFrom(news, out)
    ensures Splits(p, deps, extras, out)
  {
    MergingKeepsDisjoint(news, out);
    forall e
      ensures Applies(out, e) <==> Applies(news, e)
    {
      SameMeaningParts(p, news, out, e);
    }
    forall d, e | d in out && e in d.marker
      ensures SpeaksFor(p, deps, e, d)
    {
      assert InForce(out, e, d.Kind());
      assert InForce(news, e, d.Kind());
      var c :| c in news && e in c.marker && c.Kind() == d.Kind();
      SameSpeech(p, deps, e, c, d);
    }
  }

  lemma {:induction false} SameSpeech(p: Project, deps: seq<Dependency>, e: Environment, c: Dependency, d: Dependency)
    requires c.Kind() == d.Kind() && SpeaksFor(p, deps, e, c)
    ensures SpeaksFor(p, deps, e, d)
  {
  }

  /** Splitting what was merged from the dependencies splits the dependencies. */
  lemma {:induction false} SplitsOriginal(p: Project, deps: seq<Dependency>, merged: seq<Dependency>,
      extras: Option<set<string>>, out: seq<Dependency>)
    requires SameMeaning(deps, merged) && Splits(p, merged, extras, out)
    ensures Splits(p, deps, extras, out)
  {
    forall e
      ensures Matters(p, deps, extras, e) <==> Matters(p, merged, extras, e)
    {
      CellOnly(p, deps, merged, e);
    }
    forall d, e | d in out && e in d.marker
      ensures SpeaksFor(p, deps, e, d)
    {
      MeaningOnly(p, deps, merged, e);
    }
  }

  /** The conflicts that make the splitting give up: those where it matters. */
  ghost predicate RelevantConflict(p: Project, deps: seq<Dependency>, extras: Option<set<string>>) {
    exists e <- p.environments :: Matters(p, deps, extras, e) && ConflictAt(p, deps, e)
  }

  lemma {:induction false} ConflictsOriginal(p: Project, deps: seq<Dependency>, merged: seq<Dependency>,
      extras: Option<set<string>>)
    requires SameMeaning(deps, merged)
    ensures RelevantConflict(p, deps, extras) <==> RelevantConflict(p, merged, extras)
  {
    forall e
      ensures ConflictAt(p, deps, e) <==> ConflictAt(p, merged, e)
      ensures Cell(p, deps, e) == Cell(p, merged, e)
    {
      MeaningOnly(p, deps, merged, e);
      CellOnly(p, deps, merged, e);
    }
  }

  lemma {:induction false} ConflictFound(p: Project, deps: seq<Dependency>, extras: Option<set<string>>,
      uses: seq<bool>)
    requires DistinctKinds(deps) && p.IsRelevantMarker(Matching(p, deps, uses), extras)
    requires forall e <- Matching(p, deps, uses) :: ConflictAt(p, deps, e)
    ensures RelevantConflict(p, deps, extras)
  {
    var e :| e in Matching(p, deps, uses);
    MatchingIsCell(p, deps, uses, e);
    RelevantCell(p, deps, extras, e);
  }

  lemma {:induction false} AllSplit(p: Project, deps: seq<Dependency>, extras: Option<set<string>>,
      news: seq<Dependency>, origin: seq<nat>)
    requires SplitSoFar(p, deps, extras, Product(|deps|), |Product(|deps|)|, news, origin)
    requires AllRelevant(p, extras, news) && DistinctKinds(deps)
    ensures Splits(p, deps, extras, news) && !RelevantConflict(p, deps, extras)
  {
    SplitIsDisjoint(p, deps, extras, news, origin);
    forall e
      ensures Applies(news, e) <==> Matters(p, deps, extras, e)
      ensures Matters(p, deps, extras, e) ==> !ConflictAt(p, deps, e)
    {
      if Matters(p, deps, extras, e) {
        RelevantCell(p, deps, extras, e);
        SplitCovers(p, deps, extras, news, origin, e);
      } else if Applies(news, e) {
        SplitMatters(p, deps, extras, news, origin, e);
      }
    }
  }

  /** The loop over all combinations of used and unused dependencies. */
  method SplitMerged(p: Project, deps: seq<Dependency>, extras: Option<set<string>>)
    returns (r: Option<seq<Dependency>>)
    requires deps != [] && p.versions != {} && DistinctKinds(deps)
    ensures r.None? <==> RelevantConflict(p, deps, extras)
    ensures r.Some? ==> Splits(p, deps, extras, r.value)
  {
    var cells := Product(|deps|);
    ProductDistinct(|deps|);
    var news: seq<Dependency> := [];
    ghost var origin: seq<nat> := [];
    for k := 0 to |cells|
      invariant SplitSoFar(p, deps, extras, cells, k, news, origin) && AllRelevant(p, extras, news)
    {
      var marker := IntersectMarkers(p, deps, cells[k]);
      if p.IsRelevantMarker(marker, extras) {
        var combined := Combine(p, deps, cells[k], marker);
        if combined.None? {
          ConflictFound(p, deps, extras, cells[k]);
          return None;
        }
        SplitOneMore(p, deps, extras, cells, k, news, origin, combined.value);
        RelevantOneMore(p, extras, news, combined.value);
        news := news + [combined.value];
        origin := origin + [k];
      }
    }
    AllSplit(p, deps, extras, news, origin);
    r := Some(news);
  }

  /**
   Turns dependencies with overlapping markers into ones with mutually exclusive markers that say
   the same in every environment that matters, and apply in no other one. It gives up, by an error, exactly
   when what applies in an environment that matters is contradictory.
   */
  method ResolveOverlappingMarkers(p: Project, dependencies: seq<Dependency>, extras: Option<set<string>>)
    returns (r: Option<seq<Dependency>>)
    requires dependencies != [] && p.versions != {}
    ensures r.None? <==> RelevantConflict(p, dependencies, extras)
    ensures r.Some? ==> Splits(p, dependencies, extras, r.value) && DistinctKinds(r.value)
  {
    var deps := MergeByConstraint(dependencies);
    ConflictsOriginal(p, dependencies, deps, extras);
    assert KindOccurs(dependencies, dependencies[0].Kind());
    var split := SplitMerged(p, deps, extras);
    if split.None? {
      return None;
    }
    var merged := MergeByConstraint(split.value);
    MergedSplits(p, deps, extras, split.value, merged);
    SplitsOriginal(p, dependencies, deps, extras, merged);
    r := Some(merged);
  }

  /**
   What a caller gets: in each environment with a supported Python and the extras asked for, or in the target if
   there is one, exactly one dependency applies, the right one.
   */
  lemma {:induction false} SplitsMeaning(p: Project, deps: seq<Dependency>, extras: Option<set<string>>,
      out: seq<Dependency>, e: Environment)
    requires Splits(p, deps, extras, out)
    requires e in p.environments && e.python in p.pythons
    requires (extras.None? || e.extras == extras.value) && (p.target.None? || e == p.target.value)
    ensures exists i :: && 0 <= i < |out| && e in out[i].marker
                        && (forall j :: 0 <= j < |out| && e in out[j].marker ==> j == i)
                        && (Applies(deps, e) ==> out[i].constraint == Admitted(p, deps, e) != {})
                        && (!Applies(deps, e) ==> out[i].constraint == {})
  {
    assert e in Cell(p, deps, e);
    assert Matters(p, deps, extras, e);
    var d :| d in out && e in d.marker;
    var i :| 0 <= i < |out| && out[i] == d;
    assert forall j :: 0 <= j < |out| && e in out[j].marker ==> j == i;
  }
}
