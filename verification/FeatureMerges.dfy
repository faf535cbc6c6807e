/**
 What becomes of packages with features once a solution has been found: their requirements are added to those of
 their base packages, which keep the depths they have (`_aggregate_solved_packages` in `src/poetry/puzzle/solver.py`).
 A requirement stands for the edges to the packages that meet it.
 */
module FeatureMerges {
  import opened Graphs
  import opened SolvedPackages

  /** The package with features is one of this base package. */
  ghost predicate IsFeatureOf(f: Package, b: Package) {
    f.features != {} && b.features == {} && f.baseName == b.baseName && f.version == b.version
  }

  /** What a base package gets from a package with features: all but the requirement of the base itself. */
  ghost predicate Inherits(g: Graph, packages: seq<Package>, b: Package, e: Edge) {
    exists f <- packages :: IsFeatureOf(f, b) && e in g.Edges(f) && e.target.baseName != b.baseName
  }

  ghost predicate MergedEdges(g: Graph, packages: seq<Package>, merged: Graph) {
    && merged.root == g.root
    && (forall p, e :: e in merged.Edges(p) <==> e in g.Edges(p) || (p in packages && Inherits(g, packages, p, e)))
    && (forall p :: Extends(g.Edges(p), merged.Edges(p)))
  }

  /** What has been added to the list was not in it. */
  ghost predicate Extends(own: seq<Edge>, all: seq<Edge>) {
    own <= all && forall i, j :: |own| <= i < |all| && 0 <= j < i ==> all[i] != all[j]
  }

  /** Each edge is added once, and none that is there already. */
  ghost predicate Added(own: seq<Edge>, more: seq<Edge>, baseName: string, all: seq<Edge>) {
    && Extends(own, all)
    && (forall e :: e in all <==> e in own || (e in more && e.target.baseName != baseName))
  }

  method AddRequirements(own: seq<Edge>, more: seq<Edge>, baseName: string) returns (all: seq<Edge>)
    ensures Added(own, more, baseName, all)
  {
    all := own;
    for k := 0 to |more|
      invariant Added(own, more[..k], baseName, all)
    {
      assert more[..k + 1] == more[..k] + [more[k]];
      if more[k].target.baseName == baseName {
      } else if more[k] in all {
      } else {
        all := all + [more[k]];
      }
    }
    assert more[..|more|] == more;
  }

  /** What the base packages have after the first `k` packages, and the first `m` base packages for the next one. */
  ghost predicate MergedSoFar(g: Graph, packages: seq<Package>, k: nat, m: nat, edges: map<Package, seq<Edge>>)
    requires k <= |packages| && m <= |packages|
  {
    forall p :: MergedAt(g, packages, k, m, EdgesIn(edges, p), p)
  }

  ghost predicate MergedAt(g: Graph, packages: seq<Package>, k: nat, m: nat, all: seq<Edge>, p: Package)
    requires k <= |packages| && m <= |packages|
  {
    && Extends(g.Edges(p), all)
    && forall e :: e in all <==>
         e in g.Edges(p) || (p in packages && Inherits(g, packages[..k], p, e))
         || (k < |packages| && p in packages[..m] && Inherits(g, [packages[k]], p, e))
  }

  function EdgesIn(edges: map<Package, seq<Edge>>, p: Package): seq<Edge> {
    if p in edges then edges[p] else []
  }

  lemma {:induction false} InheritsMore(g: Graph, packages: seq<Package>, k: nat, p: Package, e: Edge)
    requires k < |packages|
    ensures Inherits(g, packages[..k + 1], p, e) <==>
      Inherits(g, packages[..k], p, e) || Inherits(g, [packages[k]], p, e)
  {
    assert packages[..k + 1] == packages[..k] + [packages[k]];
  }

  /** A package with features has never got anything, so that what it passes on is what it had. */
  lemma {:induction false} FeatureUnchanged(g: Graph, packages: seq<Package>, k: nat, m: nat,
      edges: map<Package, seq<Edge>>, f: Package, e: Edge)
    requires k <= |packages| && m <= |packages| && MergedSoFar(g, packages, k, m, edges) && f.features != {}
    ensures e in EdgesIn(edges, f) <==> e in g.Edges(f)
  {
    assert MergedAt(g, packages, k, m, EdgesIn(edges, f), f);
  }

  lemma {:induction false} BaseMerged(g: Graph, packages: seq<Package>, k: nat, m: nat,
      edges: map<Package, seq<Edge>>, all: seq<Edge>)
    requires k < |packages| && m < |packages| && MergedSoFar(g, packages, k, m, edges)
    requires IsFeatureOf(packages[k], packages[m])
    requires Added(EdgesIn(edges, packages[m]), EdgesIn(edges, packages[k]), packages[m].baseName, all)
    ensures MergedSoFar(g, packages, k, m + 1, edges[packages[m] := all])
  {
    var f, b, after := packages[k], packages[m], edges[packages[m] := all];
    assert packages[..m + 1] == packages[..m] + [b];
    forall p ensures MergedAt(g, packages, k, m + 1, EdgesIn(after, p), p) {
      assert MergedAt(g, packages, k, m, EdgesIn(edges, p), p);
      if p == b {
        forall e ensures e in EdgesIn(edges, f) <==> e in g.Edges(f) {
          FeatureUnchanged(g, packages, k, m, edges, f, e);
        }
        assert forall e :: Inherits(g, [f], b, e) <==> e in g.Edges(f) && e.target.baseName != b.baseName;
      }
    }
  }

  lemma {:induction false} OthersMerged(g: Graph, packages: seq<Package>, k: nat, m: nat,
      edges: map<Package, seq<Edge>>)
    requires k < |packages| && m < |packages| && MergedSoFar(g, packages, k, m, edges)
    requires !IsFeatureOf(packages[k], packages[m])
    ensures MergedSoFar(g, packages, k, m + 1, edges)
  {
    assert packages[..m + 1] == packages[..m] + [packages[m]];
    forall p ensures MergedAt(g, packages, k, m + 1, EdgesIn(edges, p), p) {
      assert MergedAt(g, packages, k, m, EdgesIn(edges, p), p);
    }
  }

  lemma {:induction false} AllMerged(g: Graph, packages: seq<Package>, k: nat, edges: map<Package, seq<Edge>>)
    requires k < |packages| && MergedSoFar(g, packages, k, |packages|, edges)
    ensures MergedSoFar(g, packages, k + 1, 0, edges)
  {
    assert packages[..|packages|] == packages;
    forall p ensures MergedAt(g, packages, k + 1, 0, EdgesIn(edges, p), p) {
      assert MergedAt(g, packages, k, |packages|, EdgesIn(edges, p), p);
      forall e {
        InheritsMore(g, packages, k, p, e);
      }
    }
  }

  /** The requirements of one package with features go to its base packages. */
  method MergeOne(g: Graph, packages: seq<Package>, k: nat, edges: map<Package, seq<Edge>>)
    returns (r: map<Package, seq<Edge>>)
    requires k < |packages| && packages[k].features != {} && MergedSoFar(g, packages, k, 0, edges)
    ensures MergedSoFar(g, packages, k + 1, 0, r)
  {
    r := edges;
    for m := 0 to |packages|
      invariant MergedSoFar(g, packages, k, m, r)
    {
      var b := packages[m];
      if b.features == {} && b.baseName == packages[k].baseName && b.version == packages[k].version {
        var all := AddRequirements(EdgesIn(r, b), EdgesIn(r, packages[k]), b.baseName);
        BaseMerged(g, packages, k, m, r, all);
        r := r[b := all];
      } else {
        OthersMerged(g, packages, k, m, r);
      }
    }
    AllMerged(g, packages, k, r);
  }

  /** The last loops: base packages keep what was found out about them, whatever they are given. */
  method MergeFeatures(g: Graph, packages: seq<Package>, results: Infos) returns (merged: Graph, solved: Infos)
    requires forall p <- packages :: p.features == {} ==> p in results
    ensures MergedEdges(g, packages, merged)
    ensures forall p :: p in solved <==> p in packages && p.features == {}
    ensures forall p <- solved :: p in results && solved[p] == results[p]
  {
    var edges := g.edges;
    solved := map[];
    for k := 0 to |packages|
      invariant MergedSoFar(g, packages, k, 0, edges)
      invariant forall p :: p in solved <==> p in packages[..k] && p.features == {}
      invariant forall p <- solved :: p in results && solved[p] == results[p]
    {
      var package := packages[k];
      if package.features != {} {
        edges := MergeOne(g, packages, k, edges);
      } else {
        NothingToMerge(g, packages, k, edges);
        solved := solved[package := results[package]];
      }
    }
    assert packages[..|packages|] == packages;
    merged := Graph(g.root, edges);
    assert forall p :: merged.Edges(p) == EdgesIn(edges, p);
  }

  lemma {:induction false} NothingToMerge(g: Graph, packages: seq<Package>, k: nat, edges: map<Package, seq<Edge>>)
    requires k < |packages| && packages[k].features == {} && MergedSoFar(g, packages, k, 0, edges)
    ensures MergedSoFar(g, packages, k + 1, 0, edges)
  {
    forall p ensures MergedAt(g, packages, k + 1, 0, EdgesIn(edges, p), p) {
      assert MergedAt(g, packages, k, 0, EdgesIn(edges, p), p);
      forall e {
        InheritsMore(g, packages, k, p, e);
      }
    }
  }

  // ----- what installed packages require

  /** The package that is installed for a node. */
  ghost predicate InstalledFor(c: Package, t: Package) {
    c.features == {} && (c == t || IsFeatureOf(t, c))
  }

  /** What an installed package requires, its features included. */
  ghost predicate Requires(merged: Graph, b: Package, c: Package) {
    exists e <- merged.Edges(b) :: e.target.baseName != b.baseName && InstalledFor(c, e.target)
  }

  /** These are the requirements of its own node and of the nodes of its features. */
  lemma {:induction false} RequiresMerged(g: Graph, packages: seq<Package>, merged: Graph, b: Package, c: Package)
    requires MergedEdges(g, packages, merged) && b in packages && b.features == {}
    ensures Requires(merged, b, c) <==>
      exists f, t :: (f == b || (f in packages && IsFeatureOf(f, b)))
                     && g.HasEdge(f, t) && t.baseName != b.baseName && InstalledFor(c, t)
  {
    if Requires(merged, b, c) {
      var e :| e in merged.Edges(b) && e.target.baseName != b.baseName && InstalledFor(c, e.target);
      if e in g.Edges(b) {
        assert g.HasEdge(b, e.target);
      } else {
        var f :| f in packages && IsFeatureOf(f, b) && e in g.Edges(f);
        assert g.HasEdge(f, e.target);
      }
    }
    if f, t :| (f == b || (f in packages && IsFeatureOf(f, b)))
               && g.HasEdge(f, t) && t.baseName != b.baseName && InstalledFor(c, t) {
      var e :| e in g.Edges(f) && e.target == t;
      assert f != b ==> Inherits(g, packages, b, e);
      assert e in merged.Edges(b);
    }
  }

  /** A package with features requires its base package, as `complete_package` sees to. */
  ghost predicate FeaturesHaveBases(g: Graph) {
    forall f, b :: f in g.edges && b in g.edges && IsFeatureOf(f, b) ==> g.HasEdge(f, b)
  }

  /** On an acyclic graph, what a package requires is deeper if none of its features is less deep than it is itself. */
  lemma {:induction false} RequiredIsDeeper(g: Graph, packages: seq<Package>, merged: Graph, infos: Infos,
      b: Package, c: Package)
    requires g.Valid() && Ranked(g, infos) && FeaturesHaveBases(g) && MergedEdges(g, packages, merged)
    requires b in packages && b.features == {} && b in infos && Requires(merged, b, c) && c in g.edges
    requires forall f <- packages :: IsFeatureOf(f, b) ==> f in infos && infos[f].depth >= infos[b].depth
    ensures c in infos && infos[c].depth > infos[b].depth
  {
    RequiresMerged(g, packages, merged, b, c);
    var f, t :| (f == b || (f in packages && IsFeatureOf(f, b)))
                && g.HasEdge(f, t) && t.baseName != b.baseName && InstalledFor(c, t);
    assert t in infos && infos[t].depth > infos[f].depth;
    if c != t {
      assert t in g.edges && g.HasEdge(t, c);
    }
  }
}
