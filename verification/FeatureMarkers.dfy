/**
 Where the passes of `calculate_markers` in `src/poetry/puzzle/solver.py` come, and what a package lacks whose base
 requirements reach it through a package with features.
 */
module FeatureMarkers {
  import opened Graphs
  import opened DepthFirst
  import opened SolvedPackages
  import opened PathMarkers

  // ----- the shape of the graph

  /** The passes start at depth 0: any other package at depth -1 than the root is left out. */
  ghost predicate Reached(g: Graph, packages: Infos, p: Package) {
    p in packages && (p == g.root || packages[p].depth >= 0)
  }

  /** A package that no pass comes to has an edge to this one. */
  ghost predicate Waits(g: Graph, packages: Infos, q: Package) {
    exists p <- packages :: !Reached(g, packages, p) && g.HasEdge(p, q)
  }

  ghost predicate Blocked(g: Graph, packages: Infos) {
    exists q <- packages :: packages[q].depth >= 0 && Waits(g, packages, q)
  }

  ghost predicate Untouched(g: Graph, packages: Infos) {
    forall p <- packages :: Reached(g, packages, p) || packages[p].markers == map[]
  }

  ghost predicate Fresh(packages: Infos) {
    forall p <- packages :: packages[p].markers == map[]
  }

  /** A parent always has a smaller depth; so it is in an acyclic graph without edges within a base name. */
  ghost predicate Layered(g: Graph, packages: Infos) {
    forall p, q :: p in packages && g.HasEdge(p, q) ==> q in packages && packages[q].depth > packages[p].depth
  }

  ghost predicate Growing(g: Graph, packages: Infos) {
    forall p, q :: p in packages && g.HasEdge(p, q) ==>
      q in packages && packages[q].depth >= packages[p].depth + Weight(p, q)
  }

  ghost predicate BaseEdge(g: Graph, p: Package, q: Package) {
    p != g.root && p.baseName == q.baseName && g.HasEdge(p, q)
  }

  /**
   An edge within a base name leads from a package with features to its base, which has no such edge itself
   and whose requirements the package with features has, too.
   */
  ghost predicate Featured(g: Graph) {
    && (forall p, q, r :: BaseEdge(g, p, q) ==> !BaseEdge(g, q, r))
    && (forall p, q, r, env :: BaseEdge(g, p, q) && EdgeIn(g, q, r, env) ==> EdgeIn(g, p, r, env))
  }

  ghost predicate Shaped(g: Graph, packages: Infos) {
    Featured(g) && Growing(g, packages) && !Blocked(g, packages)
  }

  /** No package with features has this one as its base. */
  ghost predicate Plain(g: Graph, q: Package) {
    forall p :: !BaseEdge(g, p, q)
  }

  // ----- one package, when the packages of smaller depth have been computed

  ghost predicate NeededThroughBase(g: Graph, group: string, q: Package, env: Environment) {
    exists p :: BaseEdge(g, p, q) && NeededIn(g, group, p, env) && EdgeIn(g, p, q, env)
  }

  /** What is missing is brought by a package with features whose base this is. */
  ghost predicate NearlyExact(g: Graph, q: Package, info: Info) {
    && Ready(info) && SoundInfo(g, q, info)
    && (forall group <- info.groups, env :: NeededIn(g, group, q, env) ==>
          env in info.markers[group] || NeededThroughBase(g, group, q, env))
  }

  ghost predicate NearlyBelow(g: Graph, packages: Infos, q: Package)
    requires q in packages
  {
    && Featured(g) && Growing(g, packages) && !Waits(g, packages, q)
    && forall p <- packages :: p != g.root && 0 <= packages[p].depth < packages[q].depth ==>
         NearlyExact(g, p, packages[p])
  }

  ghost predicate BaseExact(g: Graph, packages: Infos, q: Package) {
    forall p <- packages :: BaseEdge(g, p, q) ==> ExactInfo(g, p, packages[p])
  }

  ghost predicate AllNearly(g: Graph, packages: Infos, some: set<Package>) {
    forall p <- some :: p in packages && (p == g.root || NearlyExact(g, p, packages[p]))
  }

  ghost predicate PlainExact(g: Graph, packages: Infos) {
    forall p <- packages :: p != g.root && packages[p].depth >= 0 && Plain(g, p) ==> ExactInfo(g, p, packages[p])
  }

  lemma {:induction false} ExactWhenPlain(g: Graph, q: Package, info: Info)
    requires NearlyExact(g, q, info) && Plain(g, q)
    ensures ExactInfo(g, q, info)
  {
  }

  lemma {:induction false} NeededIsPackage(g: Graph, packages: Infos, group: string, p: Package, env: Environment)
    requires g.Valid() && Exact(g, packages) && NeededIn(g, group, p, env)
    ensures p in packages && p != g.root && group in packages[p].groups
  {
    var path :| PathIn(g, group, env, path) && path[|path| - 1] == p;
    NeededInSomeEnvironment(g, group, env, path);
    assert Needed(g, p);
  }

  lemma {:induction false} EdgeInIsEdge(g: Graph, p: Package, q: Package, env: Environment)
    requires EdgeIn(g, p, q, env)
    ensures g.HasEdge(p, q)
  {
  }

  /** A parent with another base name brings what it should, itself or through a package with its features. */
  lemma {:induction false} ParentNearly(g: Graph, packages: Infos, markers: Markers, q: Package, p: Package,
      group: string, env: Environment) returns (bringer: Package)
    requires Input(g, packages, markers) && q in packages && NearlyBelow(g, packages, q)
    requires NeededIn(g, group, p, env) && EdgeIn(g, p, q, env) && p.baseName != q.baseName
    ensures bringer in packages && Brings(packages, markers, bringer, q, group, env)
  {
    NeededIsPackage(g, packages, group, p, env);
    EdgeInIsEdge(g, p, q, env);
    assert Reached(g, packages, p) && NearlyExact(g, p, packages[p]);
    bringer := p;
    if env !in packages[p].markers[group] {
      bringer :| BaseEdge(g, bringer, p) && NeededIn(g, group, bringer, env) && EdgeIn(g, bringer, p, env);
      assert EdgeIn(g, bringer, q, env);
      NeededIsPackage(g, packages, group, bringer, env);
      EdgeInIsEdge(g, bringer, q, env);
      assert Reached(g, packages, bringer) && NearlyExact(g, bringer, packages[bringer]);
      assert Plain(g, bringer);
    }
    ParentBrings(g, packages, markers, bringer, q, group, env);
  }

  lemma {:induction false} TransitiveNearly(g: Graph, packages: Infos, markers: Markers, q: Package, tm: Transitive)
    requires Input(g, packages, markers) && SoundInfos(g, packages)
    requires q in packages && IsTransitive(packages, markers, q, tm)
    requires NearlyBelow(g, packages, q)
    ensures NearlyExact(g, q, packages[q].(markers := tm))
  {
    TransitiveSound(g, packages, markers, q, tm);
    forall group <- tm, env | NeededIn(g, group, q, env)
      ensures env in tm[group] || NeededThroughBase(g, group, q, env)
    {
      NeededBecause(g, group, q, env);
      if FirstEdge(g, group, q, env) {
        RootBrings(g, packages, markers, q, group, env);
      } else {
        var p :| NeededIn(g, group, p, env) && EdgeIn(g, p, q, env);
        NeededIsPackage(g, packages, group, p, env);
        EdgeInIsEdge(g, p, q, env);
        if p.baseName == q.baseName {
          assert BaseEdge(g, p, q);
        } else {
          var bringer := ParentNearly(g, packages, markers, q, p, group, env);
          assert bringer in Entries(markers, q);
        }
      }
    }
  }

  lemma {:induction false} TransitiveFull(g: Graph, packages: Infos, markers: Markers, q: Package, tm: Transitive)
    requires Input(g, packages, markers) && SoundInfos(g, packages)
    requires q in packages && IsTransitive(packages, markers, q, tm)
    requires NearlyBelow(g, packages, q) && BaseExact(g, packages, q)
    ensures ExactInfo(g, q, packages[q].(markers := tm))
  {
    TransitiveNearly(g, packages, markers, q, tm);
    forall group <- tm, env | NeededIn(g, group, q, env) ensures env in tm[group] {
      if NeededThroughBase(g, group, q, env) {
        var p :| BaseEdge(g, p, q) && NeededIn(g, group, p, env) && EdgeIn(g, p, q, env);
        NeededIsPackage(g, packages, group, p, env);
        ParentBrings(g, packages, markers, p, q, group, env);
        assert p in Entries(markers, q);
      }
    }
  }
}
