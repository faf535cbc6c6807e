/** The dependency graph of a solution, as `PackageNode.reachable` in `src/poetry/puzzle/solver.py` spans it. */
module Graphs {
  type Environment = nat
  type Marker = set<Environment>
  type Groups = set<string>

  /** A version of a package, alone or with some of its features, which then stands for their requirements. */
  datatype Package = Package(baseName: string, version: nat, features: set<string>)

  /** Which dependency of the root led to a node: its groups and whether it is optional. */
  datatype Origin = Origin(groups: Groups, optional: bool)

  /** A requirement, and the package of the solution that meets it; the origin matters at the root only. */
  datatype Edge = Edge(target: Package, marker: Marker, origin: Origin)

  datatype Node = Node(package: Package, origin: Origin)

  datatype Graph = Graph(root: Package, edges: map<Package, seq<Edge>>) {
    /** Edges end in packages of the solution, which the root is not one of. */
    ghost predicate Valid() {
      && root in edges
      && forall p <- edges, e <- edges[p] :: e.target in edges && e.target != root
    }

    function Edges(p: Package): seq<Edge> {
      if p in edges then edges[p] else []
    }

    function RootNode(): Node {
      Node(root, Origin({}, true))
    }

    /** The node behind the k-th edge of `n`: below the root, the origin is inherited. */
    function Child(n: Node, k: nat): Node
      requires k < |Edges(n.package)|
    {
      var e := Edges(n.package)[k];
      Node(e.target, if n.package == root then e.origin else n.origin)
    }

    ghost predicate HasEdge(p: Package, q: Package) {
      exists e <- Edges(p) :: e.target == q
    }

    ghost predicate IsPath(path: seq<Package>) {
      path != [] && forall i :: 0 <= i < |path| - 1 ==> HasEdge(path[i], path[i + 1])
    }

    /** There is a path, possibly an empty one, from `p` to `q`. */
    ghost predicate Leads(p: Package, q: Package) {
      exists path :: IsPath(path) && path[0] == p && path[|path| - 1] == q
    }

    ghost predicate Acyclic() {
      forall p, q :: HasEdge(p, q) ==> !Leads(q, p)
    }

    /** Some dependency of the root with this origin leads to the node. */
    ghost predicate Legitimate(n: Node) {
      n == RootNode() || exists e <- Edges(root) :: e.origin == n.origin && Leads(e.target, n.package)
    }

    lemma {:induction false} LeadsToItself(p: Package)
      ensures Leads(p, p)
    {
      assert IsPath([p]);
    }

    lemma {:induction false} LeadsOn(p: Package, q: Package, r: Package)
      requires Leads(p, q) && HasEdge(q, r)
      ensures Leads(p, r)
    {
      var path :| IsPath(path) && path[0] == p && path[|path| - 1] == q;
      var longer := path + [r];
      forall i | 0 <= i < |longer| - 1 ensures HasEdge(longer[i], longer[i + 1]) {
        assert i < |path| - 1 ==> HasEdge(path[i], path[i + 1]);
      }
      assert IsPath(longer) && longer[|longer| - 1] == r;
    }

    lemma {:induction false} ChildIsLegitimate(n: Node, k: nat)
      requires Legitimate(n) && k < |Edges(n.package)|
      requires Valid()
      ensures Legitimate(Child(n, k))
    {
      var e := Edges(n.package)[k];
      assert e in Edges(n.package) && HasEdge(n.package, e.target);
      if n.package == root {
        LeadsToItself(e.target);
      } else {
        var first :| first in Edges(root) && first.origin == n.origin && Leads(first.target, n.package);
        LeadsOn(first.target, n.package, e.target);
      }
    }
  }
}
