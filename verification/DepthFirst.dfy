/**
 The depth-first search over the graph of a solution and the depths computed from it
 (`depth_first_search`, `dfs_visit` and `aggregate_package_nodes` in `src/poetry/puzzle/solver.py`).
 */
module DepthFirst {
  import opened Conditions
  import opened Graphs

  /** Edge markers by child, parent and groups. */
  type Markers = map<Package, map<Package, map<Groups, Marker>>>

  function MarkerAt(markers: Markers, child: Package, parent: Package, groups: Groups): Marker {
    if HasKey(markers, child, parent, groups) then markers[child][parent][groups] else {}
  }

  function Unite(markers: Markers, child: Package, parent: Package, groups: Groups, marker: Marker): (m: Markers)
    ensures forall c, p, g :: MarkerAt(m, c, p, g) ==
                              MarkerAt(markers, c, p, g) + if (c, p, g) == (child, parent, groups) then marker else {}
    ensures forall c, p, g :: HasKey(m, c, p, g) <==>
                              HasKey(markers, c, p, g) || (c, p, g) == (child, parent, groups)
    ensures NoEmptyEntries(markers) ==> NoEmptyEntries(m)
  {
    var parents := if child in markers then markers[child] else map[];
    var byGroups := if parent in parents then parents[parent] else map[];
    var previous := if groups in byGroups then byGroups[groups] else {};
    markers[child := parents[parent := byGroups[groups := previous + marker]]]
  }

  function Parents(backEdges: map<Node, seq<Node>>, n: Node): seq<Node> {
    if n in backEdges then backEdges[n] else []
  }

  /** The edges walked so far, each as a node and a position among its edges. */
  type Walk = set<(Node, nat)>

  ghost predicate WalkedTo(g: Graph, walk: Walk, c: Node, p: Node) {
    exists k: nat :: (p, k) in walk && k < |g.Edges(p.package)| && g.Child(p, k) == c
  }

  ghost predicate BackEdgesRecorded(g: Graph, walk: Walk, backEdges: map<Node, seq<Node>>) {
    forall c, p :: p in Parents(backEdges, c) <==> WalkedTo(g, walk, c, p)
  }

  ghost predicate Contributes(g: Graph, walk: Walk, c: Package, p: Package, gs: Groups, env: Environment) {
    exists n: Node, k: nat :: (n, k) in walk && k < |g.Edges(n.package)| && n.package == p
      && g.Child(n, k).package == c && g.Child(n, k).origin.groups == gs && env in g.Edges(p)[k].marker
  }

  predicate HasKey(markers: Markers, child: Package, parent: Package, groups: Groups) {
    child in markers && parent in markers[child] && groups in markers[child][parent]
  }

  ghost predicate NoEmptyEntries(markers: Markers) {
    forall c <- markers, p <- markers[c] :: markers[c][p] != map[]
  }

  ghost predicate Joins(g: Graph, walk: Walk, c: Package, p: Package, gs: Groups) {
    exists n: Node, k: nat :: (n, k) in walk && k < |g.Edges(n.package)| && n.package == p
      && g.Child(n, k).package == c && g.Child(n, k).origin.groups == gs
  }

  ghost predicate MarkersRecorded(g: Graph, walk: Walk, markers: Markers) {
    && NoEmptyEntries(markers)
    && (forall c, p, gs :: HasKey(markers, c, p, gs) <==> Joins(g, walk, c, p, gs))
    && (forall c, p, gs, env :: env in MarkerAt(markers, c, p, gs) <==> Contributes(g, walk, c, p, gs, env))
  }

  ghost predicate Distinct(nodes: seq<Node>) {
    forall i, j :: 0 <= i < j < |nodes| ==> nodes[i] != nodes[j]
  }

  /** The child comes later in the list, unless it is on a cycle with its parent. */
  ghost predicate ChildPlaced(g: Graph, visited: set<Node>, nodes: seq<Node>, i: nat, k: nat)
    requires i < |nodes| && k < |g.Edges(nodes[i].package)|
  {
    var c := g.Child(nodes[i], k);
    c in visited && (c in nodes[i + 1..] || g.Leads(c.package, nodes[i].package))
  }

  ghost predicate IsChildOf(g: Graph, nodes: set<Node>, n: Node) {
    exists m: Node, k: nat :: m in nodes && k < |g.Edges(m.package)| && g.Child(m, k) == n
  }

  /** The node's parent in the tree of the search comes earlier in the list, or is still being visited. */
  ghost predicate Found(g: Graph, visited: set<Node>, nodes: seq<Node>, i: nat)
    requires i < |nodes|
  {
    nodes[i] == g.RootNode() || IsChildOf(g, StillOpen(visited, nodes) + Members(nodes[..i]), nodes[i])
  }

  ghost function Members(nodes: seq<Node>): set<Node> {
    set n | n in nodes
  }

  /** Nodes that are being visited. */
  ghost function StillOpen(visited: set<Node>, nodes: seq<Node>): set<Node> {
    visited - Members(nodes)
  }

  ghost predicate Placed(g: Graph, visited: set<Node>, nodes: seq<Node>) {
    && Distinct(nodes)
    && (forall n <- nodes :: n in visited)
    && (forall i, k :: 0 <= i < |nodes| && 0 <= k < |g.Edges(nodes[i].package)| ==>
          ChildPlaced(g, visited, nodes, i, k))
    && (forall i :: 0 <= i < |nodes| ==> Found(g, visited, nodes, i))
  }

  /** All nodes there can be. */
  ghost function AllNodes(g: Graph): set<Node> {
    set p <- g.edges.Keys, o <- Origins(g) :: Node(p, o)
  }

  ghost function Origins(g: Graph): set<Origin> {
    {g.RootNode().origin} + set e <- g.Edges(g.root) :: e.origin
  }

  lemma {:induction false} WalkBackEdge(g: Graph, walk: Walk, backEdges: map<Node, seq<Node>>, node: Node, k: nat)
    requires BackEdgesRecorded(g, walk, backEdges) && k < |g.Edges(node.package)|
    ensures var c := g.Child(node, k);
            BackEdgesRecorded(g, walk + {(node, k)}, backEdges[c := Parents(backEdges, c) + [node]])
  {
    var child := g.Child(node, k);
    var after := backEdges[child := Parents(backEdges, child) + [node]];
    forall c, p ensures p in Parents(after, c) <==> WalkedTo(g, walk + {(node, k)}, c, p) {
      assert p in Parents(after, c) <==> p in Parents(backEdges, c) || (p == node && c == child);
      if WalkedTo(g, walk, c, p) {
        var j: nat :| (p, j) in walk && j < |g.Edges(p.package)| && g.Child(p, j) == c;
        assert (p, j) in walk + {(node, k)};
      }
      if p == node && c == child {
        assert (node, k) in walk + {(node, k)};
      }
    }
  }

  lemma {:induction false} WalkMarker(g: Graph, walk: Walk, markers: Markers, node: Node, k: nat)
    requires MarkersRecorded(g, walk, markers) && k < |g.Edges(node.package)|
    ensures var c := g.Child(node, k);
            MarkersRecorded(g, walk + {(node, k)},
              Unite(markers, c.package, node.package, c.origin.groups, g.Edges(node.package)[k].marker))
  {
    var child, edge := g.Child(node, k), g.Edges(node.package)[k];
    var after := Unite(markers, child.package, node.package, child.origin.groups, edge.marker);
    forall c, p, gs ensures HasKey(after, c, p, gs) <==> Joins(g, walk + {(node, k)}, c, p, gs) {
      if Joins(g, walk, c, p, gs) {
        var n: Node, j: nat :| (n, j) in walk && j < |g.Edges(n.package)| && n.package == p
          && g.Child(n, j).package == c && g.Child(n, j).origin.groups == gs;
        assert (n, j) in walk + {(node, k)};
      }
      if c == child.package && p == node.package && gs == child.origin.groups {
        assert (node, k) in walk + {(node, k)};
      }
    }
    forall c, p, gs, env
      ensures env in MarkerAt(after, c, p, gs) <==> Contributes(g, walk + {(node, k)}, c, p, gs, env)
    {
      if Contributes(g, walk, c, p, gs, env) {
        var n: Node, j: nat :| (n, j) in walk && j < |g.Edges(n.package)| && n.package == p
          && g.Child(n, j).package == c && g.Child(n, j).origin.groups == gs && env in g.Edges(p)[j].marker;
        assert (n, j) in walk + {(node, k)};
      }
      if c == child.package && p == node.package && gs == child.origin.groups && env in edge.marker {
        assert (node, k) in walk + {(node, k)};
      }
    }
  }

  ghost predicate ChildrenIn(g: Graph, visited: set<Node>, n: Node, k: nat)
    requires k <= |g.Edges(n.package)|
  {
    forall j: nat :: j < k ==> g.Child(n, j) in visited
  }

  lemma {:induction false} OneMoreChild(g: Graph, v: set<Node>, v': set<Node>, n: Node, k: nat)
    requires k < |g.Edges(n.package)| && ChildrenIn(g, v, n, k) && v <= v' && g.Child(n, k) in v'
    ensures ChildrenIn(g, v', n, k + 1)
  {
  }

  lemma {:induction false} Widen(g: Graph, visited: set<Node>, nodes: seq<Node>, node: Node)
    requires Placed(g, visited, nodes)
    ensures Placed(g, visited + {node}, nodes)
  {
    forall i: nat, k: nat | i < |nodes| && k < |g.Edges(nodes[i].package)|
      ensures ChildPlaced(g, visited + {node}, nodes, i, k)
    {
      assert ChildPlaced(g, visited, nodes, i, k);
    }
    forall i: nat | i < |nodes| ensures Found(g, visited + {node}, nodes, i) {
      assert Found(g, visited, nodes, i);
      if nodes[i] != g.RootNode() {
        MoreParents(g, StillOpen(visited, nodes) + Members(nodes[..i]),
                    StillOpen(visited + {node}, nodes) + Members(nodes[..i]), nodes[i]);
      }
    }
  }

  lemma {:induction false} MoreParents(g: Graph, some: set<Node>, more: set<Node>, n: Node)
    requires some <= more && IsChildOf(g, some, n)
    ensures IsChildOf(g, more, n)
  {
    var m: Node, k: nat :| m in some && k < |g.Edges(m.package)| && g.Child(m, k) == n;
    assert m in more;
  }

  lemma {:induction false} PushFinds(g: Graph, visited: set<Node>, nodes: seq<Node>, node: Node)
    requires Placed(g, visited, nodes) && node in StillOpen(visited, nodes)
    requires node == g.RootNode() || IsChildOf(g, StillOpen(visited, nodes) - {node}, node)
    ensures forall i :: 0 <= i < |nodes| + 1 ==> Found(g, visited, [node] + nodes, i)
  {
    var longer := [node] + nodes;
    assert Members(longer) == {node} + Members(nodes);
    var open, open' := StillOpen(visited, nodes), StillOpen(visited, longer);
    assert open' == open - {node};
    forall i | 0 <= i < |longer| ensures Found(g, visited, longer, i) {
      if i > 0 {
        assert Found(g, visited, nodes, i - 1);
        assert longer[..i] == [node] + nodes[..i - 1];
        assert open + Members(nodes[..i - 1]) <= open' + Members(longer[..i]);
        if longer[i] != g.RootNode() {
          MoreParents(g, open + Members(nodes[..i - 1]), open' + Members(longer[..i]), longer[i]);
        }
      } else {
        assert longer[..0] == [] && Members(longer[..0]) == {};
        assert open' + Members(longer[..0]) == open - {node};
      }
    }
  }

  lemma {:induction false} Push(g: Graph, visited: set<Node>, nodes: seq<Node>, node: Node)
    requires Placed(g, visited, nodes) && node in StillOpen(visited, nodes)
    requires ChildrenIn(g, visited, node, |g.Edges(node.package)|)
    requires forall n <- StillOpen(visited, nodes) - {node} :: g.Leads(n.package, node.package)
    requires node == g.RootNode() || IsChildOf(g, StillOpen(visited, nodes) - {node}, node)
    ensures Placed(g, visited, [node] + nodes)
  {
    PushFinds(g, visited, nodes, node);
    g.LeadsToItself(node.package);
    var longer := [node] + nodes;
    forall i: nat, k: nat | i < |longer| && k < |g.Edges(longer[i].package)|
      ensures ChildPlaced(g, visited, longer, i, k)
    {
      if i > 0 {
        assert ChildPlaced(g, visited, nodes, i - 1, k);
        assert longer[i + 1..] == nodes[i..];
      } else {
        assert longer[1..] == nodes;
      }
    }
  }

  lemma {:induction false} ChildIsNode(g: Graph, n: Node, k: nat)
    requires g.Valid() && n in AllNodes(g) && k < |g.Edges(n.package)|
    ensures g.Child(n, k) in AllNodes(g)
  {
    var e := g.Edges(n.package)[k];
    assert e in g.Edges(n.package);
    assert e.target in g.edges;
  }

  lemma {:induction false} PathsToChild(g: Graph, open: set<Node>, n: Node, k: nat)
    requires k < |g.Edges(n.package)| && n in open
    requires forall m <- open - {n} :: g.Leads(m.package, n.package)
    ensures forall m <- open :: g.Leads(m.package, g.Child(n, k).package)
  {
    var c := g.Child(n, k).package;
    assert g.HasEdge(n.package, c) by {
      assert g.Edges(n.package)[k] in g.Edges(n.package);
    }
    g.LeadsToItself(n.package);
    forall m <- open ensures g.Leads(m.package, c) {
      g.LeadsOn(m.package, n.package, c);
    }
  }

  ghost function EdgesUpTo(n: Node, k: nat): Walk {
    set j: nat | j < k :: (n, j)
  }

  /** The search went on from the first state to the second and left open what was open. */
  ghost predicate Grown(g: Graph, v: set<Node>, s: seq<Node>, w: Walk, v': set<Node>, s': seq<Node>, w': Walk) {
    && v <= v' && StillOpen(v', s') == StillOpen(v, s)
    && |s| <= |s'| && s'[|s'| - |s|..] == s
    && forall n: Node, k: nat :: (n, k) in w' <==> (n, k) in w || (n in v' - v && k < |g.Edges(n.package)|)
  }

  lemma {:induction false} GrownOn(g: Graph, v: set<Node>, s: seq<Node>, w: Walk, v1: set<Node>, s1: seq<Node>,
      w1: Walk, v2: set<Node>, s2: seq<Node>, w2: Walk, n: Node, k: nat)
    requires Grown(g, v, s, w + EdgesUpTo(n, k), v1, s1, w1)
    requires Grown(g, v1, s1, w1 + {(n, k)}, v2, s2, w2)
    ensures Grown(g, v, s, w + EdgesUpTo(n, k + 1), v2, s2, w2)
  {
    assert s2[|s2| - |s|..] == s2[|s2| - |s1|..][|s1| - |s|..];
  }

  lemma {:induction false} GrownAbove(g: Graph, v: set<Node>, s: seq<Node>, w: Walk, v1: set<Node>, s1: seq<Node>,
      w1: Walk, n: Node)
    requires n !in v && n !in s
    requires Grown(g, v + {n}, s, w + EdgesUpTo(n, |g.Edges(n.package)|), v1, s1, w1)
    ensures Grown(g, v, s, w, v1, [n] + s1, w1)
  {
    assert ([n] + s1)[|[n] + s1| - |s|..] == s1[|s1| - |s|..];
    forall m ensures m in [n] + s1 <==> m == n || m in s1 {}
    assert StillOpen(v1, [n] + s1) == StillOpen(v1, s1) - {n} == StillOpen(v, s);
  }

  // ----- depths

  function Depth(depths: map<Node, int>, n: Node): int {
    if n in depths then depths[n] else -1
  }

  function ParentDepth(depths: map<Node, int>, n: Node, parent: Node): int {
    Depth(depths, parent) - if parent.package.baseName == n.package.baseName then 1 else 0
  }

  ghost predicate IsDepth(depths: map<Node, int>, parents: seq<Node>, n: Node, d: int) {
    && d >= -1
    && (forall p <- parents :: d >= 1 + ParentDepth(depths, n, p))
    && (d == -1 || exists p <- parents :: d == 1 + ParentDepth(depths, n, p))
  }

  ghost function Before(depths: map<Node, int>, nodes: seq<Node>): map<Node, int> {
    map n | n in depths && n in nodes :: depths[n]
  }

  /** The depth of the i-th node was computed from those of the nodes before it in the list. */
  ghost predicate DepthRecorded(nodes: seq<Node>, backEdges: map<Node, seq<Node>>, depths: map<Node, int>, i: nat)
    requires i < |nodes|
  {
    nodes[i] in depths && IsDepth(Before(depths, nodes[..i]), Parents(backEdges, nodes[i]), nodes[i], depths[nodes[i]])
  }

  ghost predicate DepthsRecorded(nodes: seq<Node>, k: nat, backEdges: map<Node, seq<Node>>, depths: map<Node, int>)
    requires k <= |nodes|
  {
    && (forall n :: n in depths <==> n in nodes[..k])
    && (forall i :: 0 <= i < k ==> DepthRecorded(nodes, backEdges, depths, i))
  }

  lemma {:induction false} LaterDepth(nodes: seq<Node>, backEdges: map<Node, seq<Node>>, depths: map<Node, int>,
      k: nat, d: int, i: nat)
    requires i < k < |nodes| && Distinct(nodes) && DepthRecorded(nodes, backEdges, depths, i)
    ensures DepthRecorded(nodes, backEdges, depths[nodes[k] := d], i)
  {
    assert nodes[k] !in nodes[..i];
    assert Before(depths[nodes[k] := d], nodes[..i]) == Before(depths, nodes[..i]);
  }

  lemma {:induction false} MoreDepths(nodes: seq<Node>, backEdges: map<Node, seq<Node>>, depths: map<Node, int>,
      k: nat, d: int)
    requires k < |nodes| && Distinct(nodes) && DepthsRecorded(nodes, k, backEdges, depths)
    requires IsDepth(depths, Parents(backEdges, nodes[k]), nodes[k], d)
    ensures DepthsRecorded(nodes, k + 1, backEdges, depths[nodes[k] := d])
  {
    var after := depths[nodes[k] := d];
    assert nodes[..k + 1] == nodes[..k] + [nodes[k]];
    assert nodes[k] !in nodes[..k];
    assert Before(after, nodes[..k]) == depths;
    forall i | 0 <= i < k ensures DepthRecorded(nodes, backEdges, after, i) {
      LaterDepth(nodes, backEdges, depths, k, d, i);
    }
  }

  // ----- aggregation

  function Of(nodes: seq<Node>, p: Package): seq<Node> {
    if nodes == [] then []
    else Of(nodes[..|nodes| - 1], p) + if nodes[|nodes| - 1].package == p then [nodes[|nodes| - 1]] else []
  }

  lemma {:induction false} OfMembers(nodes: seq<Node>, p: Package)
    ensures forall n :: n in Of(nodes, p) <==> n in nodes && n.package == p
  {
    if nodes != [] {
      var last := |nodes| - 1;
      assert nodes == nodes[..last] + [nodes[last]];
      OfMembers(nodes[..last], p);
    }
  }

  ghost predicate Lists(nodes: seq<Node>, lists: seq<seq<Node>>, order: seq<Package>) {
    |lists| == |order| && forall i :: 0 <= i < |lists| ==> lists[i] == Of(nodes, order[i]) != []
  }

  lemma {:induction false} ListsOfOwn(nodes: seq<Node>, lists: seq<seq<Node>>, order: seq<Package>)
    requires Lists(nodes, lists, order)
    ensures forall l: seq<Node> :: l in lists ==> l != [] && l == Of(nodes, l[0].package)
  {
    forall l: seq<Node> | l in lists ensures l != [] && l == Of(nodes, l[0].package) {
      var i :| 0 <= i < |lists| && lists[i] == l;
      OfMembers(nodes, order[i]);
      assert l[0] in l;
    }
  }

  ghost predicate NoneMissed(nodes: seq<Node>, keys: set<Package>, order: seq<Package>, k: nat) {
    forall j :: 0 <= j < |nodes| ==> nodes[j].package in order || (j >= k && nodes[j].package in keys)
  }

  lemma {:induction false} NextListed(nodes: seq<Node>, keys: set<Package>, order: seq<Package>, k: nat)
    requires k < |nodes| && NoneMissed(nodes, keys, order, k)
    ensures var p := nodes[k].package;
            if p in keys then NoneMissed(nodes, keys - {p}, order + [p], k + 1)
            else NoneMissed(nodes, keys, order, k + 1)
  {
    var p := nodes[k].package;
    assert forall q :: q in order + [p] <==> q in order || q == p;
  }

  lemma {:induction false} CollectedAll(nodes: seq<Node>, combined: map<Package, seq<Node>>)
    requires forall p :: ListIn(combined, p) == Of(nodes, p)
    ensures forall n <- nodes :: n.package in combined
  {
    forall n <- nodes ensures n.package in combined {
      OfMembers(nodes, n.package);
      assert ListIn(combined, n.package) != [];
    }
  }

  function ListIn(combined: map<Package, seq<Node>>, p: Package): seq<Node> {
    if p in combined then combined[p] else []
  }

  lemma {:induction false} OfAppend(nodes: seq<Node>, n: Node, p: Package)
    ensures Of(nodes + [n], p) == Of(nodes, p) + if n.package == p then [n] else []
  {
    assert (nodes + [n])[..|nodes|] == nodes;
  }

  /** What is known of a package of the solution; its markers are computed last. */
  datatype Info = Info(depth: int, groups: Groups, optional: bool, markers: map<string, Marker>)

  ghost predicate Aggregated(nodes: seq<Node>, depths: map<Node, int>, info: Info) {
    && (forall n <- nodes :: Depth(depths, n) <= info.depth)
    && (exists n <- nodes :: Depth(depths, n) == info.depth)
    && (forall g :: g in info.groups <==> exists n <- nodes :: g in n.origin.groups)
    && (info.optional <==> forall n <- nodes :: n.origin.optional)
    && info.markers == map[]
  }

  class Search {
    const graph: Graph
    var visited: set<Node>
    var backEdges: map<Node, seq<Node>>
    var sortedNodes: seq<Node>
    var markers: Markers
    var depths: map<Node, int>
    ghost var walk: Walk

    constructor (graph: Graph)
      ensures this.graph == graph && visited == {} && backEdges == map[] && sortedNodes == [] && markers == map[]
      ensures depths == map[] && walk == {}
    {
      this.graph := graph;
      visited, backEdges, sortedNodes, markers, depths, walk := {}, map[], [], map[], map[], {};
    }

    ghost predicate Valid()
      reads this
    {
      Condition() == Sound
    }

    ghost function Condition(): Condition
      reads this
    {
      if && graph.Valid()
         && BackEdgesRecorded(graph, walk, backEdges) && MarkersRecorded(graph, walk, markers)
         && Placed(graph, visited, sortedNodes)
         && (forall n <- visited :: graph.Legitimate(n))
         && visited <= AllNodes(graph)
      then Sound else Unsound
    }

    ghost function Open(): set<Node>
      reads this
    {
      StillOpen(visited, sortedNodes)
    }

    /** Record the edge in the back edges and among the markers. */
    method Walked(node: Node, k: nat)
      requires Valid() && k < |graph.Edges(node.package)|
      modifies this`backEdges, this`markers, this`walk
      ensures Valid() && walk == old(walk) + {(node, k)}
    {
      var edge, child := graph.Edges(node.package)[k], graph.Child(node, k);
      WalkBackEdge(graph, walk, backEdges, node, k);
      WalkMarker(graph, walk, markers, node, k);
      backEdges := backEdges[child := Parents(backEdges, child) + [node]];
      markers := Unite(markers, child.package, node.package, child.origin.groups, edge.marker);
      walk := walk + {(node, k)};
    }

    method Enter(node: Node)
      requires Valid() && graph.Legitimate(node) && node in AllNodes(graph)
      modifies this`visited
      ensures Valid() && visited == old(visited) + {node}
    {
      Widen(graph, visited, sortedNodes, node);
      visited := visited + {node};
    }

    method Leave(node: Node)
      requires Valid() && node in Open() && ChildrenIn(graph, visited, node, |graph.Edges(node.package)|)
      requires forall n <- Open() - {node} :: graph.Leads(n.package, node.package)
      requires node == graph.RootNode() || IsChildOf(graph, Open() - {node}, node)
      modifies this`sortedNodes
      ensures Valid() && sortedNodes == [node] + old(sortedNodes)
    {
      Push(graph, visited, sortedNodes, node);
      sortedNodes := [node] + sortedNodes;
    }

    /** `dfs_visit` */
    method Visit(node: Node)
      requires Valid() && graph.Legitimate(node) && node in AllNodes(graph)
      requires forall n <- Open() :: graph.Leads(n.package, node.package)
      requires node == graph.RootNode() || IsChildOf(graph, Open(), node)
      modifies this`visited, this`backEdges, this`sortedNodes, this`markers, this`walk
      ensures Valid() && node in visited
      ensures Grown(graph, old(visited), old(sortedNodes), old(walk), visited, sortedNodes, walk)
      decreases AllNodes(graph) - visited
    {
      if node in visited {
        return;
      }
      Enter(node);
      var k := 0;
      while k < |graph.Edges(node.package)|
        invariant 0 <= k <= |graph.Edges(node.package)|
        invariant Valid()
        invariant Grown(graph, old(visited) + {node}, old(sortedNodes), old(walk) + EdgesUpTo(node, k),
                        visited, sortedNodes, walk)
        invariant ChildrenIn(graph, visited, node, k)
      {
        ghost var v, s, w := visited, sortedNodes, walk;
        Walked(node, k);
        graph.ChildIsLegitimate(node, k);
        ChildIsNode(graph, node, k);
        PathsToChild(graph, Open(), node, k);
        assert node in Open();
        Visit(graph.Child(node, k));
        GrownOn(graph, old(visited) + {node}, old(sortedNodes), old(walk),
                v, s, w, visited, sortedNodes, walk, node, k);
        OneMoreChild(graph, v, visited, node, k);
        k := k + 1;
      }
      assert StillOpen(old(visited) + {node}, old(sortedNodes)) == old(Open()) + {node};
      GrownAbove(graph, old(visited), old(sortedNodes), old(walk), visited, sortedNodes, walk, node);
      Leave(node);
    }

    /** `PackageNode.visit`: one more than the highest parent, where the parent of the same base counts less. */
    method VisitDepth(n: Node, parents: seq<Node>) returns (d: int)
      ensures IsDepth(depths, parents, n, d)
    {
      d := -2;
      for i := 0 to |parents|
        invariant d >= -2
        invariant forall p <- parents[..i] :: ParentDepth(depths, n, p) <= d
        invariant d == -2 || exists p <- parents :: ParentDepth(depths, n, p) == d
      {
        if ParentDepth(depths, n, parents[i]) > d {
          d := ParentDepth(depths, n, parents[i]);
        }
        assert parents[..i + 1] == parents[..i] + [parents[i]];
      }
      assert parents[..|parents|] == parents;
      d := d + 1;
    }

    method VisitDepths()
      requires Valid() && depths == map[]
      modifies this`depths
      ensures Valid() && DepthsRecorded(sortedNodes, |sortedNodes|, backEdges, depths)
    {
      for i := 0 to |sortedNodes|
        invariant Valid() && DepthsRecorded(sortedNodes, i, backEdges, depths)
      {
        var d := VisitDepth(sortedNodes[i], Parents(backEdges, sortedNodes[i]));
        MoreDepths(sortedNodes, backEdges, depths, i, d);
        depths := depths[sortedNodes[i] := d];
      }
    }

    /** The nodes by package, each in the order of the search. */
    method Collect() returns (combined: map<Package, seq<Node>>)
      ensures forall p :: ListIn(combined, p) == Of(sortedNodes, p)
      ensures forall p <- combined :: combined[p] != []
    {
      combined := map[];
      for i := 0 to |sortedNodes|
        invariant forall p :: ListIn(combined, p) == Of(sortedNodes[..i], p)
        invariant forall p <- combined :: combined[p] != []
      {
        var n := sortedNodes[i];
        assert sortedNodes[..i + 1] == sortedNodes[..i] + [n];
        forall p { OfAppend(sortedNodes[..i], n, p); }
        combined := combined[n.package := ListIn(combined, n.package) + [n]];
      }
      assert sortedNodes[..|sortedNodes|] == sortedNodes;
    }

    /** The nodes of one package become one list, in the order of the packages' first nodes. */
    method Combine() returns (lists: seq<seq<Node>>, ghost order: seq<Package>)
      ensures forall l: seq<Node> :: l in lists ==> l != [] && l == Of(sortedNodes, l[0].package)
      ensures Lists(sortedNodes, lists, order)
      ensures forall n <- sortedNodes :: n.package in order
    {
      var combined := Collect();
      CollectedAll(sortedNodes, combined);
      lists, order := TakeLists(combined);
      ListsOfOwn(sortedNodes, lists, order);
    }

    /** Takes each list out of the dictionary when its first node comes up. */
    method TakeLists(all: map<Package, seq<Node>>) returns (lists: seq<seq<Node>>, ghost order: seq<Package>)
      requires forall p <- all :: all[p] == Of(sortedNodes, p) != []
      requires forall n <- sortedNodes :: n.package in all
      ensures Lists(sortedNodes, lists, order)
      ensures forall n <- sortedNodes :: n.package in order
    {
      var combined := all;
      lists, order := [], [];
      for i := 0 to |sortedNodes|
        invariant forall p <- combined :: combined[p] == Of(sortedNodes, p) != []
        invariant NoneMissed(sortedNodes, combined.Keys, order, i)
        invariant Lists(sortedNodes, lists, order)
      {
        var p := sortedNodes[i].package;
        NextListed(sortedNodes, combined.Keys, order, i);
        if p in combined {
          lists, order := lists + [combined[p]], order + [p];
          combined := combined - {p};
        }
      }
    }

    /** `aggregate_package_nodes`: the greatest depth, all groups, optional if all nodes are. */
    method Aggregate(nodes: seq<Node>) returns (info: Info)
      requires nodes != []
      ensures Aggregated(nodes, depths, info)
    {
      info := Info(Depth(depths, nodes[0]), nodes[0].origin.groups, nodes[0].origin.optional, map[]);
      for i := 1 to |nodes|
        invariant Aggregated(nodes[..i], depths, info)
      {
        var n := nodes[i];
        assert nodes[..i + 1] == nodes[..i] + [n];
        var depth := if Depth(depths, n) > info.depth then Depth(depths, n) else info.depth;
        info := Info(depth, info.groups + n.origin.groups, info.optional && n.origin.optional, map[]);
      }
      assert nodes[..|nodes|] == nodes;
    }

    method AggregateAll() returns (results: map<Package, Info>)
      ensures forall p :: p in results <==> exists n <- sortedNodes :: n.package == p
      ensures forall p <- results :: Aggregated(Of(sortedNodes, p), depths, results[p])
    {
      var lists, order := Combine();
      results := map[];
      for i := 0 to |lists|
        invariant forall p <- results :: p in order && Aggregated(Of(sortedNodes, p), depths, results[p])
        invariant forall p <- order[..i] :: p in results
      {
        var info := Aggregate(lists[i]);
        OfMembers(sortedNodes, order[i]);
        assert lists[i][0] in lists[i];
        results := results[lists[i][0].package := info];
        assert order[..i + 1] == order[..i] + [order[i]];
      }
      assert order[..|order|] == order;
      forall p <- order ensures exists n <- sortedNodes :: n.package == p {
        OfMembers(sortedNodes, p);
        assert Of(sortedNodes, p)[0] in Of(sortedNodes, p);
      }
    }
  }
}
