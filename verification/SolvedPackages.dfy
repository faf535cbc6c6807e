/**
 What the search over the graph of a solution finds out about its packages: which ones are needed, by
 which groups, at which depth, and under which markers each edge counts
 (`_aggregate_solved_packages` in `src/poetry/puzzle/solver.py`).
 */
module SolvedPackages {
  import opened Graphs
  import opened DepthFirst

  type Infos = map<Package, Info>

  // ----- what the results should be, from the graph alone

  /** Some dependency of the root leads to the package. */
  ghost predicate Needed(g: Graph, p: Package) {
    exists e <- g.Edges(g.root) :: g.Leads(e.target, p)
  }

  ghost predicate NeededByGroup(g: Graph, group: string, p: Package) {
    exists e <- g.Edges(g.root) :: group in e.origin.groups && g.Leads(e.target, p)
  }

  ghost predicate OnlyOptionally(g: Graph, p: Package) {
    forall e <- g.Edges(g.root) :: g.Leads(e.target, p) ==> e.origin.optional
  }

  ghost predicate Exact(g: Graph, results: Infos) {
    && (forall p :: p in results <==> p == g.root || Needed(g, p))
    && (forall p <- results ::
          && (forall group :: group in results[p].groups <==> NeededByGroup(g, group, p))
          && (results[p].optional <==> OnlyOptionally(g, p)))
  }

  ghost predicate NoOwnBase(g: Graph) {
    forall e <- g.Edges(g.root) :: e.target.baseName != g.root.baseName
  }

  /** Beside the root, only packages of its base name are at depth -1, and only if it depends on one of them. */
  ghost predicate Grounded(g: Graph, results: Infos) {
    && g.root in results && results[g.root].depth == -1
    && forall p <- results ::
         && results[p].depth >= -1
         && (p != g.root && results[p].depth < 0 ==> OwnBase(g, p))
  }

  ghost predicate OwnBase(g: Graph, p: Package) {
    p.baseName == g.root.baseName && !NoOwnBase(g)
  }

  ghost function Weight(p: Package, q: Package): nat {
    if p.baseName == q.baseName then 0 else 1
  }

  /** The depth is what one of the parents makes it. */
  ghost predicate Due(g: Graph, results: Infos, q: Package)
    requires q in results
  {
    exists p <- results :: g.HasEdge(p, q) && results[q].depth == results[p].depth + Weight(p, q)
  }

  /** Depths increase along edges, and every package but the root has a parent that its depth is due to. */
  ghost predicate Ranked(g: Graph, results: Infos) {
    && (forall p, q :: p in results && g.HasEdge(p, q) ==>
          q in results && results[q].depth >= results[p].depth + Weight(p, q))
    && (forall q {:trigger Due(g, results, q)} :: q in results && q != g.root ==> Due(g, results, q))
  }

  ghost predicate OneOrigin(g: Graph) {
    forall e <- g.Edges(g.root), f <- g.Edges(g.root) :: e.origin == f.origin
  }

  ghost predicate Mutual(g: Graph, p: Package, q: Package) {
    g.HasEdge(p, q) && g.HasEdge(q, p) && p.baseName != q.baseName
  }

  /** Packages that depend on each other are at different depths, if all dependencies of the root are of one kind. */
  ghost predicate MutualApart(g: Graph, results: Infos) {
    forall p, q :: p in results && q in results && Mutual(g, p, q) ==> results[p].depth != results[q].depth
  }

  /** An edge from `p` to `q` that counts in the environment, of a node with these groups. */
  ghost predicate EdgeFor(g: Graph, p: Package, q: Package, groups: Groups, env: Environment) {
    exists n: Node, k: nat :: g.Legitimate(n) && n.package == p && k < |g.Edges(p)|
      && g.Child(n, k).package == q && g.Child(n, k).origin.groups == groups && env in g.Edges(p)[k].marker
  }

  /** A node with these groups has an edge from `p` to `q`, in whatever environments. */
  ghost predicate EdgeOf(g: Graph, p: Package, q: Package, groups: Groups) {
    exists n: Node, k: nat :: g.Legitimate(n) && n.package == p && k < |g.Edges(p)|
      && g.Child(n, k).package == q && g.Child(n, k).origin.groups == groups
  }

  ghost predicate MarkersExact(g: Graph, markers: Markers) {
    && NoEmptyEntries(markers)
    && (forall p, q, groups :: HasKey(markers, q, p, groups) <==> EdgeOf(g, p, q, groups))
    && (forall p, q, groups, env :: env in MarkerAt(markers, q, p, groups) <==> EdgeFor(g, p, q, groups, env))
  }

  // ----- the nodes found are the legitimate ones

  lemma {:induction false} PathFound(g: Graph, nodes: seq<Node>, path: seq<Package>, o: Origin)
    requires g.Valid() && Placed(g, Members(nodes), nodes)
    requires g.IsPath(path) && path[0] != g.root && Node(path[0], o) in nodes
    ensures path[|path| - 1] != g.root && Node(path[|path| - 1], o) in nodes
  {
    if |path| > 1 {
      var last := |path| - 2;
      var shorter := path[..last + 1];
      forall i | 0 <= i < |shorter| - 1 ensures g.HasEdge(shorter[i], shorter[i + 1]) {
        assert g.HasEdge(path[i], path[i + 1]);
      }
      PathFound(g, nodes, shorter, o);
      assert g.HasEdge(path[last], path[last + 1]);
      var k :| 0 <= k < |g.Edges(path[last])| && g.Edges(path[last])[k].target == path[last + 1];
      assert g.Edges(path[last])[k] in g.Edges(path[last]);
      var i :| 0 <= i < |nodes| && nodes[i] == Node(path[last], o);
      assert ChildPlaced(g, Members(nodes), nodes, i, k);
    }
  }

  lemma {:induction false} LegitimateFound(g: Graph, nodes: seq<Node>, n: Node)
    requires g.Valid() && Placed(g, Members(nodes), nodes) && g.RootNode() in nodes && g.Legitimate(n)
    ensures n in nodes && (n.package == g.root ==> n == g.RootNode())
  {
    if n != g.RootNode() {
      var k :| 0 <= k < |g.Edges(g.root)| && g.Edges(g.root)[k].origin == n.origin
        && g.Leads(g.Edges(g.root)[k].target, n.package);
      var e := g.Edges(g.root)[k];
      assert e in g.Edges(g.root);
      var i :| 0 <= i < |nodes| && nodes[i] == g.RootNode();
      assert ChildPlaced(g, Members(nodes), nodes, i, k);
      assert g.Child(g.RootNode(), k) == Node(e.target, e.origin);
      var path :| g.IsPath(path) && path[0] == e.target && path[|path| - 1] == n.package;
      PathFound(g, nodes, path, n.origin);
    }
  }

  /** The state that the search is in when it is through. */
  ghost predicate Searched(g: Graph, nodes: seq<Node>, walk: Walk, backEdges: map<Node, seq<Node>>) {
    && g.Valid() && Placed(g, Members(nodes), nodes) && g.RootNode() in nodes
    && (forall n :: n in nodes <==> g.Legitimate(n))
    && (forall n: Node, k: nat :: (n, k) in walk <==> n in nodes && k < |g.Edges(n.package)|)
    && BackEdgesRecorded(g, walk, backEdges)
  }

  /** The nodes of a package are one for each origin that leads to it. */
  lemma {:induction false} NodesOf(g: Graph, nodes: seq<Node>, p: Package)
    requires g.Valid() && Placed(g, Members(nodes), nodes) && g.RootNode() in nodes
    requires forall n :: n in nodes <==> g.Legitimate(n)
    ensures p != g.root ==> forall o :: Node(p, o) in nodes <==>
                              exists e <- g.Edges(g.root) :: e.origin == o && g.Leads(e.target, p)
    ensures p == g.root ==> (forall n <- nodes :: n.package == p ==> n == g.RootNode())
                            && (forall e <- g.Edges(g.root) :: !g.Leads(e.target, p))
  {
    if p == g.root {
      forall n <- nodes | n.package == p ensures n == g.RootNode() {
        LegitimateFound(g, nodes, n);
      }
      forall e <- g.Edges(g.root) ensures !g.Leads(e.target, p) {
        if g.Leads(e.target, p) {
          var path :| g.IsPath(path) && path[0] == e.target && path[|path| - 1] == p;
          g.LeadsToItself(e.target);
          assert g.Legitimate(Node(e.target, e.origin));
          PathFound(g, nodes, path, e.origin);
        }
      }
    }
  }

  lemma {:induction false} InfoExact(g: Graph, nodes: seq<Node>, depths: map<Node, int>, p: Package, info: Info)
    requires g.Valid() && Placed(g, Members(nodes), nodes) && g.RootNode() in nodes
    requires forall n :: n in nodes <==> g.Legitimate(n)
    requires Aggregated(Of(nodes, p), depths, info)
    ensures forall group :: group in info.groups <==> NeededByGroup(g, group, p)
    ensures info.optional <==> OnlyOptionally(g, p)
  {
    OfMembers(nodes, p);
    NodesOf(g, nodes, p);
    if p != g.root {
      forall group ensures group in info.groups <==> NeededByGroup(g, group, p) {
        if NeededByGroup(g, group, p) {
          var e :| e in g.Edges(g.root) && group in e.origin.groups && g.Leads(e.target, p);
          assert Node(p, e.origin) in Of(nodes, p);
        }
      }
      if info.optional {
        forall e <- g.Edges(g.root) | g.Leads(e.target, p) ensures e.origin.optional {
          assert Node(p, e.origin) in Of(nodes, p);
        }
      }
    }
  }

  lemma {:induction false} InfosExact(g: Graph, nodes: seq<Node>, depths: map<Node, int>, results: Infos)
    requires g.Valid() && Placed(g, Members(nodes), nodes) && g.RootNode() in nodes
    requires forall n :: n in nodes <==> g.Legitimate(n)
    requires forall p :: p in results <==> exists n <- nodes :: n.package == p
    requires forall p <- results :: Aggregated(Of(nodes, p), depths, results[p])
    ensures Exact(g, results)
  {
    forall p ensures p in results <==> p == g.root || Needed(g, p) {
      if p != g.root && Needed(g, p) {
        var e :| e in g.Edges(g.root) && g.Leads(e.target, p);
        assert g.Legitimate(Node(p, e.origin));
      }
    }
    forall p <- results
      ensures forall group :: group in results[p].groups <==> NeededByGroup(g, group, p)
      ensures results[p].optional <==> OnlyOptionally(g, p)
    {
      InfoExact(g, nodes, depths, p, results[p]);
    }
  }

  // ----- depths

  /** The parents of the j-th node are known, and one of them comes before it. */
  lemma {:induction false} ParentBefore(g: Graph, nodes: seq<Node>, walk: Walk, backEdges: map<Node, seq<Node>>, j: nat)
    returns (parent: Node)
    requires Searched(g, nodes, walk, backEdges) && j < |nodes| && nodes[j] != g.RootNode()
    ensures parent in nodes[..j] && parent in Parents(backEdges, nodes[j])
    ensures g.HasEdge(parent.package, nodes[j].package)
  {
    assert Found(g, Members(nodes), nodes, j);
    assert StillOpen(Members(nodes), nodes) == {};
    var m: Node, k: nat :| m in nodes[..j] && k < |g.Edges(m.package)| && g.Child(m, k) == nodes[j];
    assert (m, k) in walk && g.Edges(m.package)[k] in g.Edges(m.package);
    parent := m;
  }

  lemma {:induction false} NonNegative(g: Graph, nodes: seq<Node>, walk: Walk, backEdges: map<Node, seq<Node>>,
      depths: map<Node, int>, j: nat)
    requires Searched(g, nodes, walk, backEdges) && DepthsRecorded(nodes, |nodes|, backEdges, depths)
    requires j < |nodes|
    ensures depths[nodes[j]] >= -1 && (nodes[j] == g.RootNode() ==> depths[nodes[j]] == -1)
    ensures nodes[j] != g.RootNode() && depths[nodes[j]] < 0 ==> OwnBase(g, nodes[j].package)
  {
    assert DepthRecorded(nodes, backEdges, depths, j);
    if nodes[j] != g.RootNode() {
      var parent := ParentBefore(g, nodes, walk, backEdges, j);
      var i :| 0 <= i < j && nodes[i] == parent;
      NonNegative(g, nodes, walk, backEdges, depths, i);
      LegitimateFound(g, nodes, parent);
      assert depths[nodes[j]] >= 1 + ParentDepth(Before(depths, nodes[..j]), nodes[j], parent);
    } else {
      RootHasNoParents(g, nodes, walk, backEdges);
    }
  }

  lemma {:induction false} RootHasNoParents(g: Graph, nodes: seq<Node>, walk: Walk, backEdges: map<Node, seq<Node>>)
    requires Searched(g, nodes, walk, backEdges)
    ensures forall p :: p !in Parents(backEdges, g.RootNode())
  {
    forall n: Node, k: nat | k < |g.Edges(n.package)| ensures g.Child(n, k) != g.RootNode() {
      assert g.Edges(n.package)[k] in g.Edges(n.package);
    }
    forall p ensures p !in Parents(backEdges, g.RootNode()) {
      assert p in Parents(backEdges, g.RootNode()) <==> WalkedTo(g, walk, g.RootNode(), p);
    }
  }

  /** Along an edge of an acyclic graph the depth grows, except from a package with features to its base. */
  lemma {:induction false} DepthGrows(g: Graph, nodes: seq<Node>, walk: Walk, backEdges: map<Node, seq<Node>>,
      depths: map<Node, int>, n: Node, k: nat)
    requires Searched(g, nodes, walk, backEdges) && DepthsRecorded(nodes, |nodes|, backEdges, depths)
    requires g.Acyclic() && n in nodes && k < |g.Edges(n.package)|
    ensures g.Child(n, k) in nodes
    ensures Depth(depths, g.Child(n, k)) >= Depth(depths, n) + Weight(n.package, g.Child(n, k).package)
  {
    var c := g.Child(n, k);
    var i :| 0 <= i < |nodes| && nodes[i] == n;
    assert ChildPlaced(g, Members(nodes), nodes, i, k);
    assert g.Edges(n.package)[k] in g.Edges(n.package) && g.HasEdge(n.package, c.package);
    var j :| i < j < |nodes| && nodes[j] == c;
    assert DepthRecorded(nodes, backEdges, depths, j);
    assert (n, k) in walk && n in Parents(backEdges, c);
    assert nodes[i] in nodes[..j];
    assert ParentDepth(Before(depths, nodes[..j]), c, n) == ParentDepth(depths, c, n);
  }

  /** Of two nodes that are each other's parents, the one that is visited later is deeper. */
  lemma {:induction false} LaterIsDeeper(g: Graph, nodes: seq<Node>, walk: Walk, backEdges: map<Node, seq<Node>>,
      depths: map<Node, int>, i: nat, j: nat)
    requires Searched(g, nodes, walk, backEdges) && DepthsRecorded(nodes, |nodes|, backEdges, depths)
    requires i < j < |nodes| && nodes[i].package != g.root && nodes[i].origin == nodes[j].origin
    requires g.HasEdge(nodes[i].package, nodes[j].package) && nodes[i].package.baseName != nodes[j].package.baseName
    ensures Depth(depths, nodes[j]) > Depth(depths, nodes[i])
  {
    var n, c := nodes[i], nodes[j];
    var k: nat :| k < |g.Edges(n.package)| && g.Edges(n.package)[k].target == c.package;
    assert g.Child(n, k) == c && (n, k) in walk && n in Parents(backEdges, c);
    assert DepthRecorded(nodes, backEdges, depths, j);
    assert nodes[i] in nodes[..j];
    assert ParentDepth(Before(depths, nodes[..j]), c, n) == ParentDepth(depths, c, n);
  }

  lemma {:induction false} InfosApart(g: Graph, nodes: seq<Node>, walk: Walk, backEdges: map<Node, seq<Node>>,
      depths: map<Node, int>, results: Infos)
    requires Searched(g, nodes, walk, backEdges) && DepthsRecorded(nodes, |nodes|, backEdges, depths)
    requires forall p :: p in results <==> exists n <- nodes :: n.package == p
    requires forall p <- results :: Aggregated(Of(nodes, p), depths, results[p])
    requires OneOrigin(g)
    ensures MutualApart(g, results)
  {
    forall p, q | p in results && q in results && Mutual(g, p, q) ensures results[p].depth != results[q].depth {
      OfMembers(nodes, p);
      OfMembers(nodes, q);
      var n :| n in Of(nodes, p) && Depth(depths, n) == results[p].depth;
      var m :| m in Of(nodes, q) && Depth(depths, m) == results[q].depth;
      NotRoot(g, q, p);
      NotRoot(g, p, q);
      SameOrigin(g, nodes, n, m);
      var i :| 0 <= i < |nodes| && nodes[i] == n;
      var j :| 0 <= j < |nodes| && nodes[j] == m;
      if i < j {
        LaterIsDeeper(g, nodes, walk, backEdges, depths, i, j);
      } else {
        LaterIsDeeper(g, nodes, walk, backEdges, depths, j, i);
      }
    }
  }

  lemma {:induction false} NotRoot(g: Graph, p: Package, q: Package)
    requires g.Valid() && g.HasEdge(p, q)
    ensures q != g.root
  {
  }

  lemma {:induction false} SameOrigin(g: Graph, nodes: seq<Node>, n: Node, m: Node)
    requires OneOrigin(g) && forall n :: n in nodes <==> g.Legitimate(n)
    requires n in nodes && m in nodes && n.package != g.root && m.package != g.root
    ensures n.origin == m.origin
  {
    assert g.Legitimate(n) && g.Legitimate(m);
  }

  lemma {:induction false} ParentJoined(g: Graph, nodes: seq<Node>, walk: Walk, backEdges: map<Node, seq<Node>>,
      parent: Node, n: Node)
    requires Searched(g, nodes, walk, backEdges) && parent in Parents(backEdges, n)
    ensures parent in nodes && g.HasEdge(parent.package, n.package)
  {
    var k: nat :| (parent, k) in walk && k < |g.Edges(parent.package)| && g.Child(parent, k) == n;
    assert g.Edges(parent.package)[k] in g.Edges(parent.package);
  }

  /** A depth is no more than one of the parents accounts for. */
  lemma {:induction false} DepthDue(g: Graph, nodes: seq<Node>, walk: Walk, backEdges: map<Node, seq<Node>>,
      depths: map<Node, int>, n: Node) returns (parent: Node)
    requires Searched(g, nodes, walk, backEdges) && DepthsRecorded(nodes, |nodes|, backEdges, depths)
    requires n in nodes && n != g.RootNode()
    ensures parent in nodes && g.HasEdge(parent.package, n.package)
    ensures Depth(depths, n) <= Depth(depths, parent) + Weight(parent.package, n.package)
  {
    var j :| 0 <= j < |nodes| && nodes[j] == n;
    assert DepthRecorded(nodes, backEdges, depths, j);
    var before := Before(depths, nodes[..j]);
    if depths[n] == -1 {
      parent := ParentBefore(g, nodes, walk, backEdges, j);
      var i :| 0 <= i < j && nodes[i] == parent;
      assert DepthRecorded(nodes, backEdges, depths, i);
    } else {
      parent :| parent in Parents(backEdges, n) && depths[n] == 1 + ParentDepth(before, n, parent);
      ParentJoined(g, nodes, walk, backEdges, parent, n);
      var i :| 0 <= i < |nodes| && nodes[i] == parent;
      assert DepthRecorded(nodes, backEdges, depths, i);
    }
  }

  lemma {:induction false} InfosGrow(g: Graph, nodes: seq<Node>, walk: Walk, backEdges: map<Node, seq<Node>>,
      depths: map<Node, int>, results: Infos)
    requires Searched(g, nodes, walk, backEdges) && DepthsRecorded(nodes, |nodes|, backEdges, depths)
    requires forall p :: p in results <==> exists n <- nodes :: n.package == p
    requires forall p <- results :: Aggregated(Of(nodes, p), depths, results[p])
    requires g.Acyclic()
    ensures forall p, q :: p in results && g.HasEdge(p, q) ==>
      q in results && results[q].depth >= results[p].depth + Weight(p, q)
  {
    forall p, q | p in results && g.HasEdge(p, q)
      ensures q in results && results[q].depth >= results[p].depth + Weight(p, q)
    {
      OfMembers(nodes, p);
      OfMembers(nodes, q);
      var n :| n in Of(nodes, p) && Depth(depths, n) == results[p].depth;
      var k :| 0 <= k < |g.Edges(p)| && g.Edges(p)[k].target == q;
      DepthGrows(g, nodes, walk, backEdges, depths, n, k);
      assert g.Child(n, k) in Of(nodes, q);
    }
  }

  lemma {:induction false} InfosRanked(g: Graph, nodes: seq<Node>, walk: Walk, backEdges: map<Node, seq<Node>>,
      depths: map<Node, int>, results: Infos)
    requires Searched(g, nodes, walk, backEdges) && DepthsRecorded(nodes, |nodes|, backEdges, depths)
    requires forall p :: p in results <==> exists n <- nodes :: n.package == p
    requires forall p <- results :: Aggregated(Of(nodes, p), depths, results[p])
    requires g.Acyclic()
    ensures Ranked(g, results)
  {
    InfosGrow(g, nodes, walk, backEdges, depths, results);
    forall q | q in results && q != g.root ensures Due(g, results, q) {
      OfMembers(nodes, q);
      var n :| n in Of(nodes, q) && Depth(depths, n) == results[q].depth;
      var parent := DepthDue(g, nodes, walk, backEdges, depths, n);
      OfMembers(nodes, parent.package);
      assert parent in Of(nodes, parent.package) && parent.package in results;
    }
  }

  lemma {:induction false} InfosGrounded(g: Graph, nodes: seq<Node>, walk: Walk, backEdges: map<Node, seq<Node>>,
      depths: map<Node, int>, results: Infos)
    requires Searched(g, nodes, walk, backEdges) && DepthsRecorded(nodes, |nodes|, backEdges, depths)
    requires forall p :: p in results <==> exists n <- nodes :: n.package == p
    requires forall p <- results :: Aggregated(Of(nodes, p), depths, results[p])
    ensures Grounded(g, results)
  {
    forall p <- results
      ensures results[p].depth >= -1 && (p == g.root ==> results[p].depth == -1)
      ensures p != g.root && results[p].depth < 0 ==> OwnBase(g, p)
    {
      OfMembers(nodes, p);
      var n :| n in Of(nodes, p) && Depth(depths, n) == results[p].depth;
      var j :| 0 <= j < |nodes| && nodes[j] == n;
      LegitimateFound(g, nodes, n);
      if p == g.root {
        RootHasNoParents(g, nodes, walk, backEdges);
        assert DepthRecorded(nodes, backEdges, depths, j);
      } else {
        NonNegative(g, nodes, walk, backEdges, depths, j);
      }
    }
    assert g.RootNode() in nodes;
  }

  lemma {:induction false} EdgesRecorded(g: Graph, nodes: seq<Node>, walk: Walk, backEdges: map<Node, seq<Node>>,
      markers: Markers)
    requires Searched(g, nodes, walk, backEdges) && MarkersRecorded(g, walk, markers)
    ensures MarkersExact(g, markers)
  {
    forall p, q, groups ensures Joins(g, walk, q, p, groups) <==> EdgeOf(g, p, q, groups) {
      if EdgeOf(g, p, q, groups) {
        var n: Node, k: nat :| g.Legitimate(n) && n.package == p && k < |g.Edges(p)|
          && g.Child(n, k).package == q && g.Child(n, k).origin.groups == groups;
        assert (n, k) in walk;
      }
    }
    forall p, q, groups, env
      ensures Contributes(g, walk, q, p, groups, env) <==> EdgeFor(g, p, q, groups, env)
    {
      if EdgeFor(g, p, q, groups, env) {
        var n: Node, k: nat :| g.Legitimate(n) && n.package == p && k < |g.Edges(p)|
          && g.Child(n, k).package == q && g.Child(n, k).origin.groups == groups && env in g.Edges(p)[k].marker;
        assert (n, k) in walk;
      }
    }
  }

  lemma {:induction false} EverythingFound(g: Graph, visited: set<Node>, nodes: seq<Node>)
    requires g.Valid() && Placed(g, visited, nodes) && StillOpen(visited, nodes) == {} && g.RootNode() in visited
    requires forall n <- visited :: g.Legitimate(n)
    ensures visited == Members(nodes) && forall n :: n in nodes <==> g.Legitimate(n)
  {
    forall n ensures n in visited <==> n in Members(nodes) {
      assert n in StillOpen(visited, nodes) <==> n in visited && n !in Members(nodes);
    }
    assert visited == Members(nodes);
    forall n ensures n in nodes <==> g.Legitimate(n) {
      if g.Legitimate(n) {
        LegitimateFound(g, nodes, n);
      }
    }
  }

  lemma {:induction false} ResultsRight(g: Graph, nodes: seq<Node>, walk: Walk, backEdges: map<Node, seq<Node>>,
      markers: Markers, depths: map<Node, int>, results: Infos)
    requires Searched(g, nodes, walk, backEdges) && MarkersRecorded(g, walk, markers)
    requires DepthsRecorded(nodes, |nodes|, backEdges, depths)
    requires forall p :: p in results <==> exists n <- nodes :: n.package == p
    requires forall p <- results :: Aggregated(Of(nodes, p), depths, results[p])
    ensures Exact(g, results) && Grounded(g, results) && MarkersExact(g, markers)
    ensures g.Acyclic() ==> Ranked(g, results)
    ensures OneOrigin(g) ==> MutualApart(g, results)
  {
    InfosExact(g, nodes, depths, results);
    InfosGrounded(g, nodes, walk, backEdges, depths, results);
    EdgesRecorded(g, nodes, walk, backEdges, markers);
    if g.Acyclic() {
      InfosRanked(g, nodes, walk, backEdges, depths, results);
    }
    if OneOrigin(g) {
      InfosApart(g, nodes, walk, backEdges, depths, results);
    }
  }

  /** `_aggregate_solved_packages` up to the call of `calculate_markers`. */
  method Aggregate(g: Graph) returns (results: Infos, markers: Markers)
    requires g.Valid()
    ensures Exact(g, results) && Grounded(g, results) && MarkersExact(g, markers)
    ensures g.Acyclic() ==> Ranked(g, results)
    ensures OneOrigin(g) ==> MutualApart(g, results)
    ensures forall p <- results :: results[p].markers == map[]
  {
    var search := new Search(g);
    search.Visit(g.RootNode());
    EverythingFound(g, search.visited, search.sortedNodes);
    search.VisitDepths();
    results := search.AggregateAll();
    markers := search.markers;
    ResultsRight(g, search.sortedNodes, search.walk, search.backEdges, markers, search.depths, results);
  }
}
