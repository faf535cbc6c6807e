/**
 What the passes of `calculate_markers` in `src/poetry/puzzle/solver.py` find on graphs with cycles: a pass
 follows edges to greater depths only, and takes up along the others what the pass before it has found.
 */
module MarkerDescents {
  import opened Graphs
  import opened DepthFirst
  import opened SolvedPackages
  import opened PathMarkers
  import opened FeatureMarkers

  // ----- paths that do not always lead to greater depths

  predicate Rises(packages: Infos, p: Package, q: Package) {
    p in packages && q in packages && packages[p].depth < packages[q].depth
  }

  /** How many edges of the path do not lead to a greater depth. */
  function Descents(packages: Infos, path: seq<Package>): nat {
    if |path| <= 1 then 0
    else
      var last := |path| - 1;
      Descents(packages, path[..last]) + if Rises(packages, path[last - 1], path[last]) then 0 else 1
  }

  /** The group needs the package by a path with at most `k` such edges. */
  ghost predicate NeededWithin(g: Graph, packages: Infos, group: string, q: Package, env: Environment, k: nat) {
    exists path :: PathIn(g, group, env, path) && path[|path| - 1] == q && Descents(packages, path) <= k
  }

  lemma {:induction false} WithinDirectly(g: Graph, packages: Infos, group: string, q: Package, env: Environment,
      k: nat)
    requires FirstEdge(g, group, q, env)
    ensures NeededWithin(g, packages, group, q, env, k)
  {
    assert PathIn(g, group, env, [q]) && Descents(packages, [q]) == 0;
  }

  lemma {:induction false} WithinOn(g: Graph, packages: Infos, group: string, p: Package, q: Package,
      env: Environment, k: nat)
    requires NeededWithin(g, packages, group, p, env, k) && EdgeIn(g, p, q, env)
    ensures NeededWithin(g, packages, group, q, env, if Rises(packages, p, q) then k else k + 1)
  {
    var path :| PathIn(g, group, env, path) && path[|path| - 1] == p && Descents(packages, path) <= k;
    var longer := path + [q];
    forall i | 0 <= i < |longer| - 1 ensures EdgeIn(g, longer[i], longer[i + 1], env) {
      assert i < |path| - 1 ==> EdgeIn(g, path[i], path[i + 1], env);
    }
    assert longer[..|longer| - 1] == path && PathIn(g, group, env, longer);
  }

  lemma {:induction false} WithinBecause(g: Graph, packages: Infos, group: string, q: Package, env: Environment,
      k: nat) returns (p: Package)
    requires NeededWithin(g, packages, group, q, env, k)
    ensures FirstEdge(g, group, q, env)
         || (EdgeIn(g, p, q, env)
             && if Rises(packages, p, q) then NeededWithin(g, packages, group, p, env, k)
                else k > 0 && NeededWithin(g, packages, group, p, env, k - 1))
  {
    var path :| PathIn(g, group, env, path) && path[|path| - 1] == q && Descents(packages, path) <= k;
    p := q;
    if |path| > 1 {
      var last := |path| - 1;
      var shorter := path[..last];
      forall i | 0 <= i < |shorter| - 1 ensures EdgeIn(g, shorter[i], shorter[i + 1], env) {
        assert EdgeIn(g, path[i], path[i + 1], env);
      }
      p := path[last - 1];
      assert EdgeIn(g, path[last - 1], path[last - 1 + 1], env);
      assert PathIn(g, group, env, shorter) && shorter[|shorter| - 1] == p;
    }
  }

  lemma {:induction false} WithinIsNeeded(g: Graph, packages: Infos, group: string, q: Package, env: Environment,
      k: nat)
    requires NeededWithin(g, packages, group, q, env, k)
    ensures NeededIn(g, group, q, env) && NeededWithin(g, packages, group, q, env, k + 1)
  {
  }

  lemma {:induction false} SameDescents(before: Infos, now: Infos, path: seq<Package>)
    requires SameButMarkers(before, now)
    ensures Descents(before, path) == Descents(now, path)
  {
    if |path| > 1 {
      var last := |path| - 1;
      SameDescents(before, now, path[..last]);
      forall p <- before ensures before[p].depth == now[p].depth {
        assert before[p].(markers := map[]) == now[p].(markers := map[]);
      }
    }
  }

  lemma {:induction false} SameWithin(g: Graph, before: Infos, now: Infos, group: string, q: Package,
      env: Environment, k: nat)
    requires SameButMarkers(before, now)
    ensures NeededWithin(g, before, group, q, env, k) <==> NeededWithin(g, now, group, q, env, k)
  {
    forall path: seq<Package> ensures Descents(before, path) == Descents(now, path) {
      SameDescents(before, now, path);
    }
  }

  // ----- one package

  /** No edge joins packages of one depth. */
  ghost predicate LevelFree(g: Graph, packages: Infos) {
    forall p, q :: p in packages && q in packages && p != g.root && g.HasEdge(p, q) ==>
      packages[p].depth != packages[q].depth
  }

  /** The markers hold exactly where a path with at most `k` edges to smaller depths does. */
  ghost predicate WithinExact(g: Graph, packages: Infos, q: Package, info: Info, k: nat) {
    && Ready(info)
    && (forall group <- info.groups, env :: env in info.markers[group] <==>
          NeededWithin(g, packages, group, q, env, k))
  }

  /** Parents of smaller depth have been computed with the package, the others a pass before or not at all. */
  ghost predicate ParentDue(g: Graph, first: Infos, now: Infos, p: Package, q: Package, k: nat)
    requires p in now
  {
    if Rises(first, p, q) then WithinExact(g, first, p, now[p], k)
    else if k == 0 then now[p].markers == map[]
    else WithinExact(g, first, p, now[p], k - 1)
  }

  ghost predicate ParentsDue(g: Graph, first: Infos, now: Infos, q: Package, k: nat) {
    && SameButMarkers(first, now) && !Waits(g, now, q)
    && forall p <- now :: p != g.root && g.HasEdge(p, q) ==> ParentDue(g, first, now, p, q, k)
  }

  lemma {:induction false} TransitiveWithinSound(g: Graph, first: Infos, now: Infos, markers: Markers, q: Package,
      tm: Transitive, k: nat, group: string, env: Environment)
    requires Input(g, now, markers) && q in now && IsTransitive(now, markers, q, tm)
    requires ParentsDue(g, first, now, q, k) && group in tm && env in tm[group]
    ensures NeededWithin(g, first, group, q, env, k)
  {
    var p :| p in Entries(markers, q) && p in now && Brings(now, markers, p, q, group, env);
    NoGroupsAtRoot(g, now, markers, p);
    if p == g.root {
      RootBrings(g, now, markers, q, group, env);
      WithinDirectly(g, first, group, q, env, k);
    } else {
      ParentBrings(g, now, markers, p, q, group, env);
      EdgeInIsEdge(g, p, q, env);
      assert ParentDue(g, first, now, p, q, k);
      WithinOn(g, first, group, p, q, env, if Rises(first, p, q) then k else k - 1);
    }
  }

  lemma {:induction false} TransitiveWithinFull(g: Graph, first: Infos, now: Infos, markers: Markers, q: Package,
      tm: Transitive, k: nat, group: string, env: Environment)
    requires Input(g, now, markers) && q in now && IsTransitive(now, markers, q, tm)
    requires ParentsDue(g, first, now, q, k) && group in tm && NeededWithin(g, first, group, q, env, k)
    ensures env in tm[group]
  {
    var p := WithinBecause(g, first, group, q, env, k);
    if FirstEdge(g, group, q, env) {
      RootBrings(g, now, markers, q, group, env);
    } else {
      WithinIsNeeded(g, first, group, p, env, if Rises(first, p, q) then k else k - 1);
      NeededIsPackage(g, now, group, p, env);
      EdgeInIsEdge(g, p, q, env);
      assert ParentDue(g, first, now, p, q, k);
      ParentBrings(g, now, markers, p, q, group, env);
      assert p in Entries(markers, q);
    }
  }

  lemma {:induction false} TransitiveWithin(g: Graph, first: Infos, now: Infos, markers: Markers, q: Package,
      tm: Transitive, k: nat)
    requires Input(g, now, markers) && q in now && IsTransitive(now, markers, q, tm)
    requires ParentsDue(g, first, now, q, k)
    ensures WithinExact(g, first, q, now[q].(markers := tm), k)
  {
    forall group <- tm, env ensures env in tm[group] <==> NeededWithin(g, first, group, q, env, k) {
      if env in tm[group] {
        TransitiveWithinSound(g, first, now, markers, q, tm, k, group, env);
      }
      if NeededWithin(g, first, group, q, env, k) {
        TransitiveWithinFull(g, first, now, markers, q, tm, k, group, env);
      }
    }
  }

  // ----- all packages

  ghost predicate AllWithin(g: Graph, first: Infos, now: Infos, some: set<Package>, k: nat) {
    forall p <- some :: p in now && (p == g.root || WithinExact(g, first, p, now[p], k))
  }

  /** Every edge to one of these leads to a greater depth. */
  ghost predicate NoDescent(g: Graph, packages: Infos, some: set<Package>) {
    forall q <- some, p <- packages :: p != g.root && g.HasEdge(p, q) ==> Rises(packages, p, q)
  }

  lemma {:induction false} FlatPath(g: Graph, packages: Infos, some: set<Package>, group: string, env: Environment,
      path: seq<Package>)
    requires g.Valid() && Exact(g, packages) && !Blocked(g, packages)
    requires NoDescent(g, packages, some) && forall q :: Reached(g, packages, q) ==> q in some
    requires PathIn(g, group, env, path) && Reached(g, packages, path[|path| - 1])
    ensures Descents(packages, path) == 0
  {
    if |path| > 1 {
      var last := |path| - 1;
      var shorter, p, q := path[..last], path[last - 1], path[last];
      forall i | 0 <= i < |shorter| - 1 ensures EdgeIn(g, shorter[i], shorter[i + 1], env) {
        assert EdgeIn(g, path[i], path[i + 1], env);
      }
      assert EdgeIn(g, path[last - 1], path[last - 1 + 1], env);
      assert PathIn(g, group, env, shorter) && NeededIn(g, group, p, env);
      assert NeededIn(g, group, q, env);
      NeededIsPackage(g, packages, group, p, env);
      NeededIsPackage(g, packages, group, q, env);
      assert !Waits(g, packages, q) && Rises(packages, p, q);
      FlatPath(g, packages, some, group, env, shorter);
    }
  }
}
