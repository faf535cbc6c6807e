/** Graphs on which the markers of `calculate_markers` in `src/poetry/puzzle/solver.py` are not what they should be. */
module MarkerCases {
  import opened Graphs
  import opened DepthFirst
  import opened SolvedPackages
  import opened PathMarkers
  import opened FeatureMarkers
  import opened MarkerDescents
  import opened MarkerPasses

  // ----- a project that depends on its own name

  const ROOT := Package("foo", 0, {})
  const EXTRA := Package("foo", 1, {"x"})
  const BAR := Package("bar", 0, {})

  /** The project foo requires foo[x], which requires bar. */
  function OwnExtra(): Graph {
    Graph(ROOT, map[
      ROOT := [Edge(EXTRA, {0}, Origin({"main"}, false))],
      EXTRA := [Edge(BAR, {0}, Origin({}, false))],
      BAR := []])
  }

  lemma {:induction false} OwnExtraEdges(p: Package, q: Package)
    ensures OwnExtra().HasEdge(p, q) <==> (p == ROOT && q == EXTRA) || (p == EXTRA && q == BAR)
  {
    var g := OwnExtra();
    assert p in g.edges <==> p == ROOT || p == EXTRA || p == BAR;
    if p == ROOT || p == EXTRA {
      assert g.Edges(p)[0] in g.Edges(p);
    }
  }

  lemma {:induction false} OwnExtraIsInput()
    ensures OwnExtra().Valid() && GroupsGiven(OwnExtra()) && OwnExtra().Acyclic()
  {
    var g := OwnExtra();
    forall p, q | g.HasEdge(p, q) ensures !g.Leads(q, p) {
      OwnExtraEdges(p, q);
      if g.Leads(q, p) {
        var path :| g.IsPath(path) && path[0] == q && path[|path| - 1] == p;
        var last := |path| - 2;
        assert g.HasEdge(path[last], path[last + 1]) && g.HasEdge(path[0], path[1]);
        OwnExtraEdges(path[last], p);
      }
    }
  }

  /** The graph is a tree, and still the loop does not end on it. */
  lemma {:induction false} OwnExtraIsBlocked(packages: Infos)
    requires Exact(OwnExtra(), packages) && Grounded(OwnExtra(), packages) && Ranked(OwnExtra(), packages)
    ensures Blocked(OwnExtra(), packages)
  {
    var g := OwnExtra();
    OwnExtraEdges(ROOT, EXTRA);
    OwnExtraEdges(EXTRA, BAR);
    assert EXTRA in packages && BAR in packages;
    assert Due(g, packages, EXTRA);
    var p :| p in packages && g.HasEdge(p, EXTRA) && packages[EXTRA].depth == packages[p].depth + Weight(p, EXTRA);
    OwnExtraEdges(p, EXTRA);
    assert !Reached(g, packages, EXTRA) && Waits(g, packages, BAR);
  }

  // ----- packages in a line that depend on each other in both directions

  /** The root needs the first package in environment 1 and the last one in environment 2. */
  function Line(root: Package, line: seq<Package>): Graph
    requires line != []
  {
    var origin := Origin({"main"}, false);
    Graph(root, (map p | p in line :: Neighbours(line, p))
                [root := [Edge(line[0], {1}, origin), Edge(line[|line| - 1], {2}, origin)]])
  }

  function Place(line: seq<Package>, p: Package): (i: nat)
    requires p in line
    ensures i < |line| && line[i] == p
  {
    if line[0] == p then 0 else 1 + Place(line[1..], p)
  }

  function Neighbours(line: seq<Package>, p: Package): seq<Edge>
    requires p in line
  {
    var i, origin := Place(line, p), Origin({}, false);
    (if i > 0 then [Edge(line[i - 1], {1, 2}, origin)] else [])
    + (if i + 1 < |line| then [Edge(line[i + 1], {1, 2}, origin)] else [])
  }

  predicate IsNeighbour(line: seq<Package>, i: nat, q: Package)
    requires i < |line|
  {
    (i > 0 && q == line[i - 1]) || (i + 1 < |line| && q == line[i + 1])
  }

  ghost predicate IsLine(root: Package, line: seq<Package>) {
    && |line| >= 2
    && (forall i, j :: 0 <= i < j < |line| ==> line[i].baseName != line[j].baseName)
    && (forall p <- line :: p.baseName != root.baseName)
  }

  lemma {:induction false} LineEdge(root: Package, line: seq<Package>, i: nat, j: nat, env: Environment)
    requires IsLine(root, line) && i < |line| && j < |line|
    requires (env == 1 || env == 2) && (i + 1 == j || j + 1 == i)
    ensures EdgeIn(Line(root, line), line[i], line[j], env)
  {
    LinePlace(root, line, i);
    var es := Neighbours(line, line[i]);
    assert Line(root, line).Edges(line[i]) == es;
    if j + 1 == i {
      assert es[0] in es && es[0] == Edge(line[j], {1, 2}, Origin({}, false));
    } else {
      assert es[|es| - 1] in es && es[|es| - 1] == Edge(line[j], {1, 2}, Origin({}, false));
    }
  }

  lemma {:induction false} NeighboursOnly(line: seq<Package>, p: Package, e: Edge)
    requires p in line && e in Neighbours(line, p)
    ensures IsNeighbour(line, Place(line, p), e.target)
  {
  }

  lemma {:induction false} LineNeighbours(root: Package, line: seq<Package>, i: nat, e: Edge)
    requires IsLine(root, line) && i < |line| && e in Line(root, line).Edges(line[i])
    ensures IsNeighbour(line, i, e.target)
  {
    LinePlace(root, line, i);
    assert Line(root, line).Edges(line[i]) == Neighbours(line, line[i]);
    NeighboursOnly(line, line[i], e);
  }

  lemma {:induction false} LinePlace(root: Package, line: seq<Package>, i: nat)
    requires IsLine(root, line) && i < |line|
    ensures line[i] in line && line[i] != root && Place(line, line[i]) == i
  {
  }

  lemma {:induction false} LineEdges(root: Package, line: seq<Package>, p: Package, e: Edge)
    requires IsLine(root, line) && e in Line(root, line).Edges(p)
    ensures e.target in line
    ensures p == root ==> (e == Edge(line[0], {1}, Origin({"main"}, false))
                           || e == Edge(line[|line| - 1], {2}, Origin({"main"}, false)))
    ensures p != root ==> p in line
  {
  }

  lemma {:induction false} LineIsInput(root: Package, line: seq<Package>)
    requires IsLine(root, line)
    ensures Line(root, line).Valid() && GroupsGiven(Line(root, line))
    ensures NoOwnBase(Line(root, line)) && OneOrigin(Line(root, line))
  {
    var g := Line(root, line);
    forall p <- g.edges, e <- g.edges[p] ensures e.target in g.edges && e.target != root {
      LineEdges(root, line, p, e);
    }
    forall e <- g.Edges(root) ensures e.origin == Origin({"main"}, false) && e.target.baseName != root.baseName {
      LineEdges(root, line, root, e);
    }
  }

  // ----- how often a path along the line must lead to a smaller depth

  /** In the environment the packages are entered at the first of the route, and lead to their neighbours on it. */
  ghost predicate IsRoute(g: Graph, env: Environment, route: seq<Package>) {
    && route != [] && (forall i, j :: 0 <= i < j < |route| ==> route[i] != route[j])
    && (forall p :: FirstEdge(g, "main", p, env) <==> p == route[0])
    && (forall i: nat {:trigger LeadsOnly(g, env, route, i)} :: i < |route| ==> LeadsOnly(g, env, route, i))
    && (forall i: nat {:trigger LeadsOn(g, env, route, i)} :: i + 1 < |route| ==> LeadsOn(g, env, route, i))
  }

  ghost predicate LeadsOnly(g: Graph, env: Environment, route: seq<Package>, i: nat)
    requires i < |route|
  {
    forall q :: EdgeIn(g, route[i], q, env) ==> IsNeighbour(route, i, q)
  }

  ghost predicate LeadsOn(g: Graph, env: Environment, route: seq<Package>, i: nat)
    requires i + 1 < |route|
  {
    EdgeIn(g, route[i], route[i + 1], env)
  }

  lemma {:induction false} RouteIsPath(g: Graph, env: Environment, route: seq<Package>)
    requires IsRoute(g, env, route)
    ensures NeededIn(g, "main", route[|route| - 1], env)
  {
    forall i | 0 <= i < |route| - 1 ensures EdgeIn(g, route[i], route[i + 1], env) {
      assert LeadsOn(g, env, route, i);
    }
    assert PathIn(g, "main", env, route);
  }

  lemma {:induction false} DescentsNext(packages: Infos, route: seq<Package>, i: nat)
    requires i + 1 < |route|
    ensures Descents(packages, route[..i + 2])
         == Descents(packages, route[..i + 1]) + if Rises(packages, route[i], route[i + 1]) then 0 else 1
  {
    assert route[..i + 2][..i + 1] == route[..i + 1];
  }

  /** One more edge along the route, or one back. */
  lemma {:induction false} RouteStep(g: Graph, packages: Infos, env: Environment, route: seq<Package>, j: nat,
      q: Package) returns (i: nat)
    requires IsRoute(g, env, route) && j < |route| && EdgeIn(g, route[j], q, env)
    ensures i < |route| && route[i] == q
    ensures Descents(packages, route[..i + 1])
         <= Descents(packages, route[..j + 1]) + if Rises(packages, route[j], q) then 0 else 1
  {
    assert LeadsOnly(g, env, route, j);
    if j > 0 && q == route[j - 1] {
      i := j - 1;
      DescentsNext(packages, route, i);
    } else {
      i := j + 1;
      DescentsNext(packages, route, j);
    }
  }

  /** No path to a package of the route has fewer edges that do not lead to a greater depth than the route has. */
  lemma {:induction false} RouteIsLeast(g: Graph, packages: Infos, env: Environment, route: seq<Package>,
      path: seq<Package>) returns (i: nat)
    requires IsRoute(g, env, route) && PathIn(g, "main", env, path)
    ensures i < |route| && path[|path| - 1] == route[i]
    ensures Descents(packages, path) >= Descents(packages, route[..i + 1])
  {
    if |path| == 1 {
      i := 0;
    } else {
      var last := |path| - 1;
      var shorter := path[..last];
      PathShortened(g, env, path);
      var j := RouteIsLeast(g, packages, env, route, shorter);
      i := RouteStep(g, packages, env, route, j, path[last]);
    }
  }

  lemma {:induction false} PathShortened(g: Graph, env: Environment, path: seq<Package>)
    requires PathIn(g, "main", env, path) && |path| > 1
    ensures PathIn(g, "main", env, path[..|path| - 1]) && EdgeIn(g, path[|path| - 2], path[|path| - 1], env)
  {
    var shorter := path[..|path| - 1];
    forall k | 0 <= k < |shorter| - 1 ensures EdgeIn(g, shorter[k], shorter[k + 1], env) {
      assert EdgeIn(g, path[k], path[k + 1], env);
    }
    assert EdgeIn(g, path[|path| - 2], path[|path| - 2 + 1], env);
  }

  function Reverse(line: seq<Package>): (r: seq<Package>)
    ensures |r| == |line| && forall i :: 0 <= i < |line| ==> r[i] == line[|line| - 1 - i]
  {
    if line == [] then [] else [line[|line| - 1]] + Reverse(line[..|line| - 1])
  }

  lemma {:induction false} LineEntries(root: Package, line: seq<Package>, p: Package, env: Environment)
    requires IsLine(root, line)
    ensures FirstEdge(Line(root, line), "main", p, env) <==>
      (p == line[0] && env == 1) || (p == line[|line| - 1] && env == 2)
  {
    var g := Line(root, line);
    assert g.Edges(root)[0] in g.Edges(root) && g.Edges(root)[1] in g.Edges(root);
  }

  lemma {:induction false} LineNext(root: Package, line: seq<Package>, i: nat, q: Package, env: Environment)
    requires IsLine(root, line) && i < |line| && EdgeIn(Line(root, line), line[i], q, env)
    ensures IsNeighbour(line, i, q)
  {
    var e :| e in Line(root, line).Edges(line[i]) && e.target == q && env in e.marker;
    LineNeighbours(root, line, i, e);
  }

  lemma {:induction false} LineIsRoute(root: Package, line: seq<Package>)
    requires IsLine(root, line)
    ensures IsRoute(Line(root, line), 1, line)
  {
    var g := Line(root, line);
    forall p ensures FirstEdge(g, "main", p, 1) <==> p == line[0] {
      LineEntries(root, line, p, 1);
    }
    forall i: nat | i < |line| ensures LeadsOnly(g, 1, line, i) {
      forall q | EdgeIn(g, line[i], q, 1) ensures IsNeighbour(line, i, q) {
        LineNext(root, line, i, q, 1);
      }
    }
    forall i: nat | i + 1 < |line| ensures LeadsOn(g, 1, line, i) {
      LineEdge(root, line, i, i + 1, 1);
    }
  }

  lemma {:induction false} ReverseIsRoute(root: Package, line: seq<Package>)
    requires IsLine(root, line)
    ensures IsRoute(Line(root, line), 2, Reverse(line))
  {
    var g, back := Line(root, line), Reverse(line);
    forall p ensures FirstEdge(g, "main", p, 2) <==> p == back[0] {
      LineEntries(root, line, p, 2);
    }
    forall i: nat | i < |back| ensures LeadsOnly(g, 2, back, i) {
      ReverseLeadsOnly(root, line, i);
    }
    forall i: nat | i + 1 < |back| ensures LeadsOn(g, 2, back, i) {
      ReverseLeadsOn(root, line, i);
    }
    ReverseDistinct(root, line);
  }

  lemma {:induction false} ReverseLeadsOn(root: Package, line: seq<Package>, i: nat)
    requires IsLine(root, line) && i + 1 < |line|
    ensures LeadsOn(Line(root, line), 2, Reverse(line), i)
  {
    var back, k := Reverse(line), |line| - 1 - i;
    assert back[i] == line[k] && back[i + 1] == line[k - 1];
    LineEdge(root, line, k, k - 1, 2);
  }

  lemma {:induction false} ReverseLeadsOnly(root: Package, line: seq<Package>, i: nat)
    requires IsLine(root, line) && i < |line|
    ensures LeadsOnly(Line(root, line), 2, Reverse(line), i)
  {
    var g, back, k := Line(root, line), Reverse(line), |line| - 1 - i;
    forall q | EdgeIn(g, back[i], q, 2) ensures IsNeighbour(back, i, q) {
      LineNext(root, line, k, q, 2);
      assert i > 0 ==> back[i - 1] == line[k + 1];
      assert k > 0 ==> back[i + 1] == line[k - 1];
    }
  }

  lemma {:induction false} ReverseDistinct(root: Package, line: seq<Package>)
    requires IsLine(root, line)
    ensures forall i, j :: 0 <= i < j < |line| ==> Reverse(line)[i] != Reverse(line)[j]
  {
    forall i, j | 0 <= i < j < |line| ensures Reverse(line)[i] != Reverse(line)[j] {
      assert line[|line| - 1 - j].baseName != line[|line| - 1 - i].baseName;
    }
  }

  lemma {:induction false} DescentsFront(packages: Infos, p: Package, rest: seq<Package>)
    requires rest != []
    ensures Descents(packages, [p] + rest)
         == (if Rises(packages, p, rest[0]) then 0 else 1) + Descents(packages, rest)
  {
    var path := [p] + rest;
    var last := |path| - 1;
    if |rest| > 1 {
      DescentsFront(packages, p, rest[..|rest| - 1]);
      assert path[..last] == [p] + rest[..|rest| - 1];
    } else {
      assert path[..last] == [p];
    }
  }

  /** What rises in one direction does not in the other. */
  lemma {:induction false} BothDirections(packages: Infos, line: seq<Package>)
    requires line != [] && forall p <- line :: p in packages
    requires forall i: nat {:trigger DepthsDiffer(packages, line, i)} ::
      i + 1 < |line| ==> DepthsDiffer(packages, line, i)
    ensures Descents(packages, line) + Descents(packages, Reverse(line)) == |line| - 1
  {
    if |line| > 1 {
      var last := |line| - 1;
      var shorter := line[..last];
      forall i: nat | i + 1 < |shorter| ensures DepthsDiffer(packages, shorter, i) {
        assert DepthsDiffer(packages, line, i);
      }
      BothDirections(packages, shorter);
      DescentsFront(packages, line[last], Reverse(shorter));
      assert DepthsDiffer(packages, line, last - 1);
    }
  }

  predicate DepthsDiffer(packages: Infos, line: seq<Package>, i: nat)
    requires i + 1 < |line|
  {
    && line[i] in packages && line[i + 1] in packages
    && packages[line[i]].depth != packages[line[i + 1]].depth
  }

  // ----- markers that are too small

  lemma {:induction false} LineReached(root: Package, line: seq<Package>, results: Infos)
    requires IsLine(root, line) && Exact(Line(root, line), results) && Grounded(Line(root, line), results)
    ensures forall p <- line :: p in results && results[p].depth >= 0
  {
    LineIsInput(root, line);
    forall p <- line ensures p in results && results[p].depth >= 0 {
      var i :| 0 <= i < |line| && line[i] == p;
      LineIsNeeded(root, line, i);
      NeededIsPackage(Line(root, line), results, "main", p, 1);
    }
  }

  lemma {:induction false} LineApart(root: Package, line: seq<Package>, results: Infos, i: nat, j: nat)
    requires IsLine(root, line) && MutualApart(Line(root, line), results)
    requires i < |line| && j < |line| && (i + 1 == j || j + 1 == i)
    requires line[i] in results && line[j] in results
    ensures results[line[i]].depth != results[line[j]].depth
  {
    var g := Line(root, line);
    LineEdge(root, line, i, j, 1);
    LineEdge(root, line, j, i, 1);
    EdgeInIsEdge(g, line[i], line[j], 1);
    EdgeInIsEdge(g, line[j], line[i], 1);
    assert Mutual(g, line[i], line[j]);
  }

  lemma {:induction false} LineIsLevelFree(root: Package, line: seq<Package>, results: Infos)
    requires IsLine(root, line) && MutualApart(Line(root, line), results)
    ensures LevelFree(Line(root, line), results)
  {
    var g := Line(root, line);
    forall p, q | p in results && q in results && p != root && g.HasEdge(p, q)
      ensures results[p].depth != results[q].depth
    {
      var e :| e in g.Edges(p) && e.target == q;
      LineEdges(root, line, p, e);
      var i :| 0 <= i < |line| && line[i] == p;
      assert 1 in e.marker && EdgeIn(g, line[i], q, 1);
      LineNext(root, line, i, q, 1);
      LineApart(root, line, results, i, if i > 0 && q == line[i - 1] then i - 1 else i + 1);
    }
  }

  lemma {:induction false} LineFalls(root: Package, line: seq<Package>, results: Infos)
    requires IsLine(root, line) && MutualApart(Line(root, line), results)
    requires forall p <- line :: p in results
    ensures Descents(results, line) + Descents(results, Reverse(line)) == |line| - 1
  {
    forall i: nat | i + 1 < |line| ensures DepthsDiffer(results, line, i) {
      assert line[i] in line && line[i + 1] in line;
      LineApart(root, line, results, i, i + 1);
    }
    BothDirections(results, line);
  }

  lemma {:induction false} LineIsNeeded(root: Package, line: seq<Package>, i: nat)
    requires IsLine(root, line) && i < |line|
    ensures NeededIn(Line(root, line), "main", line[i], 1)
  {
    LineIsRoute(root, line);
    var path := line[..i + 1];
    forall k | 0 <= k < |path| - 1 ensures EdgeIn(Line(root, line), path[k], path[k + 1], 1) {
      LineEdge(root, line, k, k + 1, 1);
    }
    assert PathIn(Line(root, line), "main", 1, path);
  }

  lemma {:induction false} RouteTooLong(g: Graph, results: Infos, env: Environment, route: seq<Package>)
    requires IsRoute(g, env, route) && MarkersWithin(g, results, 1) && Descents(results, route) > 1
    requires var end := route[|route| - 1]; end in results && results[end].depth >= 0
    ensures !MarkersComplete(g, results)
  {
    var end := route[|route| - 1];
    assert route[..|route|] == route;
    RouteIsPath(g, env, route);
    forall path | PathIn(g, "main", env, path) && path[|path| - 1] == end ensures Descents(results, path) > 1 {
      var i := RouteIsLeast(g, results, env, route, path);
      assert i == |route| - 1;
    }
    CompleteExactly(g, results);
  }

  /** The loop ends with markers that are too small if the depths fall twice in one of the directions. */
  lemma {:induction false} LineIsIncomplete(root: Package, line: seq<Package>, results: Infos)
    requires IsLine(root, line) && MarkersFound(Line(root, line), results, true)
    requires Descents(results, line) > 1 || Descents(results, Reverse(line)) > 1
    ensures !MarkersComplete(Line(root, line), results)
  {
    LineIsInput(root, line);
    LineReached(root, line, results);
    LineIsLevelFree(root, line, results);
    if Descents(results, line) > 1 {
      LineIsRoute(root, line);
      RouteTooLong(Line(root, line), results, 1, line);
    } else {
      ReverseIsRoute(root, line);
      RouteTooLong(Line(root, line), results, 2, Reverse(line));
    }
  }

  lemma {:induction false} ThreeRise(packages: Infos, line: seq<Package>)
    requires |line| == 3 && Rises(packages, line[0], line[1]) && Rises(packages, line[1], line[2])
    ensures Descents(packages, line) == 0
  {
    DescentsNext(packages, line, 0);
    DescentsNext(packages, line, 1);
    assert line[..3] == line;
  }

  /** So do three packages whose depths rise along the line, as they do when the search meets the first one first. */
  lemma {:induction false} ThreeAreIncomplete(root: Package, line: seq<Package>, results: Infos)
    requires IsLine(root, line) && |line| == 3 && MarkersFound(Line(root, line), results, true)
    requires Rises(results, line[0], line[1]) && Rises(results, line[1], line[2])
    ensures !MarkersComplete(Line(root, line), results)
  {
    ThreeRise(results, line);
    LineIsInput(root, line);
    LineReached(root, line, results);
    LineFalls(root, line, results);
    LineIsIncomplete(root, line, results);
  }

  /** And so do four packages or more, whatever the depths are that the search finds. */
  lemma {:induction false} FourAreIncomplete(root: Package, line: seq<Package>, results: Infos)
    requires IsLine(root, line) && |line| >= 4 && MarkersFound(Line(root, line), results, true)
    ensures !MarkersComplete(Line(root, line), results)
  {
    LineIsInput(root, line);
    LineReached(root, line, results);
    LineFalls(root, line, results);
    LineIsIncomplete(root, line, results);
  }
}
