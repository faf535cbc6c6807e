/**
 From the solver's answer to the packages that are handed on (`Solver._aggregate_solved_packages` in
 `src/poetry/puzzle/solver.py`): since the solver selects nothing superfluous, the search over the graph of the
 solution finds every selected package.
 */
module SolutionGraphs {
  import opened Incompatibilities
  import opened Terms
  import opened Providers
  import opened NeededPackages
  import opened Graphs
  import opened SolvedPackages
  import opened PathMarkers
  import opened MarkerPasses
  import opened FeatureMerges

  /** The package, base name and features, that a name of the solver stands for in a version. */
  type Naming = (Name, Version) -> Package

  /** The graph has an edge wherever a selected version requires a selected package. */
  ghost predicate GraphOf(p: Provider, s: Selection, naming: Naming, g: Graph) {
    && g.root == naming(p.root, p.rootVersion)
    && forall n, m :: Asks(p, s, n, m) ==> g.HasEdge(naming(n, s[n]), naming(m, s[m]))
  }

  /** Below the root, the chain of requirements is a path of the graph. */
  lemma {:induction false} ChainLeads(p: Provider, s: Selection, naming: Naming, g: Graph, path: seq<Name>)
    requires GraphOf(p, s, naming, g) && p.Rooted(s) && Chain(p, s, path) && |path| > 1
    ensures path[1] in s && path[|path| - 1] in s
    ensures g.HasEdge(g.root, naming(path[1], s[path[1]]))
    ensures g.Leads(naming(path[1], s[path[1]]), naming(path[|path| - 1], s[path[|path| - 1]]))
  {
    assert Asks(p, s, path[0], path[0 + 1]);
    var last := |path| - 1;
    if last == 1 {
      g.LeadsToItself(naming(path[1], s[path[1]]));
    } else {
      var shorter := path[..last];
      forall i | 0 <= i < |shorter| - 1 ensures Asks(p, s, shorter[i], shorter[i + 1]) {
        assert Asks(p, s, path[i], path[i + 1]);
      }
      ChainLeads(p, s, naming, g, shorter);
      assert Asks(p, s, path[last - 1], path[last - 1 + 1]);
      g.LeadsOn(naming(path[1], s[path[1]]), naming(path[last - 1], s[path[last - 1]]),
                naming(path[last], s[path[last]]));
    }
  }

  lemma {:induction false} SelectedIsFound(p: Provider, s: Selection, naming: Naming, g: Graph, results: Infos, n: Name)
    requires GraphOf(p, s, naming, g) && p.Rooted(s) && OnlyNeeded(p, s) && Exact(g, results) && n in s
    ensures naming(n, s[n]) in results
  {
    var path :| Chain(p, s, path) && path[|path| - 1] == n;
    if |path| > 1 {
      ChainLeads(p, s, naming, g, path);
      var q := naming(path[1], s[path[1]]);
      var e :| e in g.Edges(g.root) && e.target == q;
      assert SolvedPackages.Needed(g, naming(n, s[n]));
    }
  }

  /**
   The whole of `_aggregate_solved_packages`, with the loop over the markers broken off after `limit` passes: the
   look-up of a selected package never fails.
   */
  method AggregateSolvedPackages(ghost p: Provider, ghost s: Selection, ghost naming: Naming, g: Graph,
      packages: seq<Package>, limit: nat) returns (merged: Graph, solved: Infos, ghost results: Infos, ended: bool)
    requires p.Rooted(s) && OnlyNeeded(p, s) && GraphOf(p, s, naming, g) && g.Valid() && GroupsGiven(g)
    requires forall q <- packages :: exists n <- s :: q == naming(n, s[n])
    ensures MarkersFound(g, results, ended) && Ending(g, results, limit, ended)
    ensures MergedEdges(g, packages, merged)
    ensures forall q :: q in solved <==> q in packages && q.features == {}
    ensures forall q <- solved :: q in results && solved[q] == results[q]
  {
    var infos;
    infos, ended := TransitiveInfos(g, limit);
    results := infos;
    forall q <- packages ensures q in infos {
      var n :| n in s && q == naming(n, s[n]);
      SelectedIsFound(p, s, naming, g, infos, n);
    }
    merged, solved := MergeFeatures(g, packages, infos);
  }
}
