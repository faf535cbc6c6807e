/**
 The markers under which a package is needed by each dependency group, computed from the markers along
 the edges (`calculate_markers` in `src/poetry/puzzle/solver.py`).
 */
module PathMarkers {
  import opened Graphs
  import opened DepthFirst
  import opened SolvedPackages

  // ----- the environments in which a group needs a package

  ghost predicate FirstEdge(g: Graph, group: string, q: Package, env: Environment) {
    exists e <- g.Edges(g.root) :: e.target == q && group in e.origin.groups && env in e.marker
  }

  ghost predicate EdgeIn(g: Graph, p: Package, q: Package, env: Environment) {
    exists e <- g.Edges(p) :: e.target == q && env in e.marker
  }

  /** The packages of a path below the root whose edges, from the root's on, all count in the environment. */
  ghost predicate PathIn(g: Graph, group: string, env: Environment, path: seq<Package>) {
    && path != [] && FirstEdge(g, group, path[0], env)
    && forall i :: 0 <= i < |path| - 1 ==> EdgeIn(g, path[i], path[i + 1], env)
  }

  ghost predicate NeededIn(g: Graph, group: string, q: Package, env: Environment) {
    exists path :: PathIn(g, group, env, path) && path[|path| - 1] == q
  }

  lemma {:induction false} NeededDirectly(g: Graph, group: string, q: Package, env: Environment)
    requires FirstEdge(g, group, q, env)
    ensures NeededIn(g, group, q, env)
  {
    assert PathIn(g, group, env, [q]);
  }

  lemma {:induction false} NeededOn(g: Graph, group: string, p: Package, q: Package, env: Environment)
    requires NeededIn(g, group, p, env) && EdgeIn(g, p, q, env)
    ensures NeededIn(g, group, q, env)
  {
    var path :| PathIn(g, group, env, path) && path[|path| - 1] == p;
    var longer := path + [q];
    forall i | 0 <= i < |longer| - 1 ensures EdgeIn(g, longer[i], longer[i + 1], env) {
      assert i < |path| - 1 ==> EdgeIn(g, path[i], path[i + 1], env);
    }
    assert PathIn(g, group, env, longer);
  }

  /** A package that is needed is a dependency of the root or of another one that is needed. */
  lemma {:induction false} NeededBecause(g: Graph, group: string, q: Package, env: Environment)
    requires NeededIn(g, group, q, env)
    ensures FirstEdge(g, group, q, env) || exists p :: NeededIn(g, group, p, env) && EdgeIn(g, p, q, env)
  {
    var path :| PathIn(g, group, env, path) && path[|path| - 1] == q;
    if |path| > 1 {
      var last := |path| - 2;
      var shorter := path[..last + 1];
      forall i | 0 <= i < |shorter| - 1 ensures EdgeIn(g, shorter[i], shorter[i + 1], env) {
        assert EdgeIn(g, path[i], path[i + 1], env);
      }
      assert PathIn(g, group, env, shorter);
      assert NeededIn(g, group, path[last], env) && EdgeIn(g, path[last], path[last + 1], env);
    }
  }

  lemma {:induction false} NeededInSomeEnvironment(g: Graph, group: string, env: Environment, path: seq<Package>)
    requires g.Valid() && PathIn(g, group, env, path)
    ensures NeededByGroup(g, group, path[|path| - 1]) && path[|path| - 1] != g.root
  {
    if |path| == 1 {
      g.LeadsToItself(path[0]);
    } else {
      var last := |path| - 2;
      var shorter := path[..last + 1];
      forall i | 0 <= i < |shorter| - 1 ensures EdgeIn(g, shorter[i], shorter[i + 1], env) {
        assert EdgeIn(g, path[i], path[i + 1], env);
      }
      NeededInSomeEnvironment(g, group, env, shorter);
      assert EdgeIn(g, path[last], path[last + 1], env);
      GroupsGrow(g, group, path[last], path[last + 1]);
    }
  }

  lemma {:induction false} GroupsGrow(g: Graph, group: string, p: Package, q: Package)
    requires g.Valid() && NeededByGroup(g, group, p) && g.HasEdge(p, q)
    ensures NeededByGroup(g, group, q) && q != g.root
  {
    var e :| e in g.Edges(g.root) && group in e.origin.groups && g.Leads(e.target, p);
    g.LeadsOn(e.target, p, q);
  }

  // ----- the input of the calculation

  ghost predicate GroupsGiven(g: Graph) {
    forall e <- g.Edges(g.root) :: e.origin.groups != {}
  }

  ghost predicate Input(g: Graph, packages: Infos, markers: Markers) {
    && g.Valid() && GroupsGiven(g)
    && Exact(g, packages) && Grounded(g, packages) && MarkersExact(g, markers)
  }

  /** Only the root belongs to no group. */
  lemma {:induction false} NoGroupsAtRoot(g: Graph, packages: Infos, markers: Markers, p: Package)
    requires Input(g, packages, markers) && p in packages
    ensures packages[p].groups == {} <==> p == g.root
  {
    if p == g.root {
      forall group ensures group !in packages[p].groups {
        if NeededByGroup(g, group, p) {
          var e :| e in g.Edges(g.root) && group in e.origin.groups && g.Leads(e.target, p);
          NeverBackToRoot(g, e.target, p);
        }
      }
    } else {
      var e :| e in g.Edges(g.root) && g.Leads(e.target, p);
      var group :| group in e.origin.groups;
      assert NeededByGroup(g, group, p);
    }
  }

  lemma {:induction false} NeverBackToRoot(g: Graph, p: Package, q: Package)
    requires g.Valid() && p != g.root && g.Leads(p, q)
    ensures q != g.root
  {
    var path :| g.IsPath(path) && path[0] == p && path[|path| - 1] == q;
    if |path| > 1 {
      assert g.HasEdge(path[|path| - 2], path[|path| - 2 + 1]);
    }
  }

  /** The marker entries of a package: its parents are packages, too, and their groups are its groups. */
  lemma {:induction false} EntriesInOrder(g: Graph, packages: Infos, markers: Markers, p: Package, q: Package)
    requires Input(g, packages, markers) && q in markers && p in markers[q]
    ensures p in packages && q in packages && q != g.root && packages[p].groups <= packages[q].groups
  {
    var groups :| groups in markers[q][p];
    assert HasKey(markers, q, p, groups);
    assert g.HasEdge(p, q);
    NoGroupsAtRoot(g, packages, markers, p);
    if p == g.root {
      var e :| e in g.Edges(g.root) && e.target == q;
      g.LeadsToItself(q);
    } else {
      var group :| group in packages[p].groups;
      GroupsGrow(g, group, p, q);
      forall group <- packages[p].groups ensures group in packages[q].groups {
        GroupsGrow(g, group, p, q);
      }
    }
  }

  // ----- one package

  ghost predicate InSome(byGroups: map<Groups, Marker>, env: Environment) {
    exists groups <- byGroups :: env in byGroups[groups]
  }

  ghost predicate InSomeOf(byGroups: map<Groups, Marker>, group: string, env: Environment) {
    exists groups <- byGroups :: group in groups && env in byGroups[groups]
  }

  predicate Ready(info: Info) {
    info.groups == info.markers.Keys
  }

  function Entries(markers: Markers, q: Package): map<Package, map<Groups, Marker>> {
    if q in markers then markers[q] else map[]
  }

  /** What the parent contributes to the marker of the group, once its own markers are known. */
  ghost predicate Brings(packages: Infos, markers: Markers, p: Package, q: Package, group: string, env: Environment)
    requires p in packages
  {
    && p in Entries(markers, q)
    && if packages[p].groups == {} then InSomeOf(Entries(markers, q)[p], group, env)
       else Ready(packages[p]) && group in packages[p].groups
            && env in packages[p].markers[group] && InSome(Entries(markers, q)[p], env)
  }

  type Transitive = map<string, Marker>

  /** The marker, widened by its intersection with each edge marker. */
  method UniteEdges(marker: Marker, own: Marker, byGroups: map<Groups, Marker>) returns (m: Marker)
    ensures forall env :: env in m <==> env in marker || (env in own && InSome(byGroups, env))
  {
    m := marker;
    var todo := byGroups.Keys;
    while todo != {}
      invariant todo <= byGroups.Keys
      invariant forall env :: env in m <==>
        env in marker || (env in own && exists gs <- byGroups :: gs !in todo && env in byGroups[gs])
      decreases |todo|
    {
      var gs :| gs in todo;
      m := m + own * byGroups[gs];
      todo := todo - {gs};
    }
  }

  ghost predicate BroughtBy(parent: Info, byGroups: map<Groups, Marker>, group: string, env: Environment)
    requires Ready(parent)
  {
    group in parent.groups && env in parent.markers[group] && InSome(byGroups, env)
  }

  method UniteParent(tm: Transitive, parent: Info, byGroups: map<Groups, Marker>) returns (r: Transitive)
    requires Ready(parent) && parent.groups <= tm.Keys
    ensures r.Keys == tm.Keys
    ensures forall group <- tm, env :: env in r[group] <==> env in tm[group] || BroughtBy(parent, byGroups, group, env)
  {
    r := tm;
    var todo := parent.groups;
    while todo != {}
      invariant todo <= parent.groups && r.Keys == tm.Keys
      invariant forall group <- tm, env :: env in r[group] <==>
        env in tm[group] || (group !in todo && BroughtBy(parent, byGroups, group, env))
      decreases |todo|
    {
      var group :| group in todo;
      var m := UniteEdges(r[group], parent.markers[group], byGroups);
      r := r[group := m];
      todo := todo - {group};
    }
  }

  method UniteRootEdge(tm: Transitive, groups: Groups, marker: Marker) returns (r: Transitive)
    ensures r.Keys == tm.Keys
    ensures forall group <- tm :: r[group] == tm[group] + if group in groups then marker else {}
  {
    r := tm;
    var todo := tm.Keys;
    while todo != {}
      invariant todo <= tm.Keys && r.Keys == tm.Keys
      invariant forall group <- todo :: r[group] == tm[group]
      invariant forall group <- tm.Keys - todo :: r[group] == tm[group] + if group in groups then marker else {}
      decreases |todo|
    {
      var group :| group in todo;
      if group in groups {
        r := r[group := r[group] + marker];
      }
      todo := todo - {group};
    }
  }

  method UniteRoot(tm: Transitive, byGroups: map<Groups, Marker>) returns (r: Transitive)
    requires forall groups <- byGroups :: groups != {}
    ensures r.Keys == tm.Keys
    ensures forall group <- tm, env :: env in r[group] <==> env in tm[group] || InSomeOf(byGroups, group, env)
  {
    r := tm;
    var todo := byGroups.Keys;
    while todo != {}
      invariant todo <= byGroups.Keys && r.Keys == tm.Keys
      invariant forall group <- tm, env :: env in r[group] <==>
        env in tm[group] || exists gs <- byGroups :: gs !in todo && group in gs && env in byGroups[gs]
      decreases |todo|
    {
      var gs :| gs in todo;
      assert gs != {};
      r := UniteRootEdge(r, gs, byGroups[gs]);
      todo := todo - {gs};
    }
  }

  /** The groups of an edge of the root are those of its dependency. */
  lemma {:induction false} RootKeysGiven(g: Graph, packages: Infos, markers: Markers, q: Package, groups: Groups)
    requires Input(g, packages, markers) && HasKey(markers, q, g.root, groups)
    ensures groups != {}
  {
    var n: Node, k: nat :| g.Legitimate(n) && n.package == g.root && k < |g.Edges(g.root)|
      && g.Child(n, k).package == q && g.Child(n, k).origin.groups == groups;
    assert g.Edges(g.root)[k] in g.Edges(g.root);
  }

  lemma {:induction false} RootBrings(g: Graph, packages: Infos, markers: Markers, q: Package, group: string,
      env: Environment)
    requires Input(g, packages, markers)
    ensures Brings(packages, markers, g.root, q, group, env) <==> FirstEdge(g, group, q, env)
  {
    NoGroupsAtRoot(g, packages, markers, g.root);
    if Brings(packages, markers, g.root, q, group, env) {
      var groups :| groups in markers[q][g.root] && group in groups && env in markers[q][g.root][groups];
      assert env in MarkerAt(markers, q, g.root, groups);
      var n: Node, k: nat :| g.Legitimate(n) && n.package == g.root && k < |g.Edges(g.root)|
        && g.Child(n, k).package == q && g.Child(n, k).origin.groups == groups && env in g.Edges(g.root)[k].marker;
      assert g.Edges(g.root)[k] in g.Edges(g.root);
    }
    if FirstEdge(g, group, q, env) {
      var k :| 0 <= k < |g.Edges(g.root)| && g.Edges(g.root)[k].target == q
        && group in g.Edges(g.root)[k].origin.groups && env in g.Edges(g.root)[k].marker;
      assert g.Legitimate(g.RootNode()) && g.Child(g.RootNode(), k).package == q;
      assert EdgeFor(g, g.root, q, g.Edges(g.root)[k].origin.groups, env);
      assert env in MarkerAt(markers, q, g.root, g.Edges(g.root)[k].origin.groups);
    }
  }

  lemma {:induction false} ParentBrings(g: Graph, packages: Infos, markers: Markers, p: Package, q: Package,
      group: string, env: Environment)
    requires Input(g, packages, markers) && p in packages && p != g.root && Ready(packages[p])
    ensures Brings(packages, markers, p, q, group, env) <==>
      group in packages[p].groups && env in packages[p].markers[group] && EdgeIn(g, p, q, env)
  {
    NoGroupsAtRoot(g, packages, markers, p);
    if Brings(packages, markers, p, q, group, env) {
      var groups :| groups in markers[q][p] && env in markers[q][p][groups];
      assert env in MarkerAt(markers, q, p, groups);
      var n: Node, k: nat :| g.Legitimate(n) && n.package == p && k < |g.Edges(p)|
        && g.Child(n, k).package == q && g.Child(n, k).origin.groups == groups && env in g.Edges(p)[k].marker;
      assert g.Edges(p)[k] in g.Edges(p);
    }
    if EdgeIn(g, p, q, env) {
      var k :| 0 <= k < |g.Edges(p)| && g.Edges(p)[k].target == q && env in g.Edges(p)[k].marker;
      var e :| e in g.Edges(g.root) && g.Leads(e.target, p);
      var n := Node(p, e.origin);
      assert g.Legitimate(n) && g.Child(n, k).package == q;
      assert EdgeFor(g, p, q, n.origin.groups, env);
      assert env in MarkerAt(markers, q, p, n.origin.groups);
    }
  }

  ghost predicate BroughtBySome(
    packages: Infos, markers: Markers, parents: set<Package>, q: Package, group: string, env: Environment)
  {
    exists p <- parents :: p in packages && Brings(packages, markers, p, q, group, env)
  }

  predicate Known(packages: Infos, p: Package) {
    p in packages && (packages[p].groups == {} || Ready(packages[p]))
  }

  lemma {:induction false} OneMoreParent(packages: Infos, markers: Markers, parents: set<Package>, p: Package,
      q: Package, before: Transitive, after: Transitive)
    requires p in packages && before.Keys == after.Keys
    requires forall group <- before, env :: env in before[group] <==>
      BroughtBySome(packages, markers, parents, q, group, env)
    requires forall group <- before, env :: env in after[group] <==>
      env in before[group] || Brings(packages, markers, p, q, group, env)
    ensures forall group <- after, env :: env in after[group] <==>
      BroughtBySome(packages, markers, parents + {p}, q, group, env)
  {
    forall group <- after, env
      ensures env in after[group] <==> BroughtBySome(packages, markers, parents + {p}, q, group, env)
    {
      assert p in parents + {p};
      if BroughtBySome(packages, markers, parents, q, group, env) {
        var r :| r in parents && r in packages && Brings(packages, markers, r, q, group, env);
        assert r in parents + {p};
      }
    }
  }

  // ----- what is known while the calculation goes on

  /** Markers that have been computed cover the groups of the package and hold only where a path does. */
  ghost predicate SoundInfo(g: Graph, q: Package, info: Info) {
    && (info.markers == map[] || Ready(info))
    && (forall group <- info.markers, env <- info.markers[group] :: NeededIn(g, group, q, env))
  }

  ghost predicate SoundInfos(g: Graph, packages: Infos) {
    forall q <- packages :: SoundInfo(g, q, packages[q])
  }

  /** The markers hold exactly where the group needs the package. */
  ghost predicate ExactInfo(g: Graph, q: Package, info: Info) {
    && Ready(info)
    && (forall group <- info.groups, env :: env in info.markers[group] <==> NeededIn(g, group, q, env))
  }

  ghost predicate ParentsExact(g: Graph, packages: Infos, q: Package) {
    forall p <- packages :: p != g.root && g.HasEdge(p, q) ==> ExactInfo(g, p, packages[p])
  }

  ghost predicate AllExact(g: Graph, packages: Infos, some: set<Package>) {
    forall p <- some :: p in packages && (p == g.root || ExactInfo(g, p, packages[p]))
  }

  ghost predicate AllKnown(packages: Infos, some: set<Package>) {
    forall p <- some :: Known(packages, p)
  }

  ghost predicate IsTransitive(packages: Infos, markers: Markers, q: Package, tm: Transitive)
    requires q in packages
  {
    && tm.Keys == packages[q].groups
    && (forall group <- tm, env :: env in tm[group] <==>
          BroughtBySome(packages, markers, Entries(markers, q).Keys, q, group, env))
  }

  lemma {:induction false} TransitiveSound(g: Graph, packages: Infos, markers: Markers, q: Package, tm: Transitive)
    requires Input(g, packages, markers) && SoundInfos(g, packages)
    requires q in packages && IsTransitive(packages, markers, q, tm)
    ensures SoundInfo(g, q, packages[q].(markers := tm))
  {
    forall group <- tm, env <- tm[group] ensures NeededIn(g, group, q, env) {
      var p :| p in Entries(markers, q) && p in packages && Brings(packages, markers, p, q, group, env);
      NoGroupsAtRoot(g, packages, markers, p);
      if p == g.root {
        RootBrings(g, packages, markers, q, group, env);
        NeededDirectly(g, group, q, env);
      } else {
        ParentBrings(g, packages, markers, p, q, group, env);
        assert SoundInfo(g, p, packages[p]);
        NeededOn(g, group, p, q, env);
      }
    }
  }

  lemma {:induction false} TransitiveExact(g: Graph, packages: Infos, markers: Markers, q: Package, tm: Transitive)
    requires Input(g, packages, markers) && SoundInfos(g, packages)
    requires q in packages && IsTransitive(packages, markers, q, tm)
    requires ParentsExact(g, packages, q)
    ensures ExactInfo(g, q, packages[q].(markers := tm))
  {
    TransitiveSound(g, packages, markers, q, tm);
    forall group <- tm, env | NeededIn(g, group, q, env) ensures env in tm[group] {
      NeededBecause(g, group, q, env);
      if FirstEdge(g, group, q, env) {
        RootBrings(g, packages, markers, q, group, env);
      } else {
        var p :| NeededIn(g, group, p, env) && EdgeIn(g, p, q, env);
        var path :| PathIn(g, group, env, path) && path[|path| - 1] == p;
        NeededInSomeEnvironment(g, group, env, path);
        assert Needed(g, p) && g.HasEdge(p, q);
        ParentBrings(g, packages, markers, p, q, group, env);
      }
    }
  }

  /** The same packages with the same depths, groups and optionality. */
  ghost predicate SameButMarkers(before: Infos, after: Infos) {
    && before.Keys == after.Keys
    && forall p <- before :: after[p].(markers := map[]) == before[p].(markers := map[])
  }

  lemma {:induction false} InputKept(g: Graph, before: Infos, after: Infos, markers: Markers)
    requires Input(g, before, markers) && SameButMarkers(before, after)
    ensures Input(g, after, markers)
  {
    forall p <- before
      ensures after[p].groups == before[p].groups && after[p].depth == before[p].depth
        && after[p].optional == before[p].optional
    {
      assert after[p].(markers := map[]) == before[p].(markers := map[]);
    }
  }
}
