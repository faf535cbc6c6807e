/** Installations in which packages do not wait for what they require. */
module InstallationCases {
  import opened Graphs
  import opened SolvedPackages
  import opened Priorities
  import opened Transactions
  import opened FeatureMerges
  import opened Installations
  import Schedules
  import ScheduleRuns
  import ScheduleOrders
  import ScheduleWitnesses

  // ----- two packages of a lock file

  const LOCKED := Schedules.Operation(false, false, Schedules.Elsewhere, false, Depth(0))

  /** Each of the two may be started while the other one has not finished. */
  lemma {:induction false} TwoLocked(pip: bool) returns (one: seq<Schedules.State>, other: seq<Schedules.State>)
    ensures ScheduleWitnesses.Overtakes([LOCKED, LOCKED], pip, one, 1, 0)
    ensures ScheduleWitnesses.Overtakes([LOCKED, LOCKED], pip, other, 0, 1)
  {
    one := ScheduleWitnesses.Unordered([LOCKED, LOCKED], pip, 1, 0);
    other := ScheduleWitnesses.Unordered([LOCKED, LOCKED], pip, 0, 1);
  }

  // ----- a task that fails early

  const UNSAFE := Schedules.Operation(false, true, Schedules.Directory, false, Depth(0))

  /** The second operation fails while the third one is handed out: the unsafe first one is executed without it. */
  lemma {:induction false} UnsafeWithoutTheRest(pip: bool) returns (run: seq<Schedules.State>)
    ensures ScheduleWitnesses.Overtakes([UNSAFE, LOCKED, LOCKED], pip, run, 2, 0)
    ensures ScheduleWitnesses.FirstUnlessShutDown([UNSAFE, LOCKED, LOCKED], pip, 2, 0)
  {
    var tasks := [UNSAFE, LOCKED, LOCKED];
    assert ScheduleOrders.EarlyTask(tasks, 1);
    run := ScheduleWitnesses.CutOffOvertakes(tasks, pip, 2, 0);
    ScheduleWitnesses.FirstUnlessShutDownExactly(tasks, pip, 2, 0);
  }

  // ----- a base package that is deeper than a requirement of its feature

  const APP := Graphs.Package("app", 0, {})
  const FOOX := Graphs.Package("foo", 1, {"x"})
  const FOO := Graphs.Package("foo", 1, {})
  const BAR := Graphs.Package("bar", 1, {})
  const A := Graphs.Package("a", 1, {})
  const B := Graphs.Package("b", 1, {})

  function To(p: Graphs.Package): Edge {
    Edge(p, {0}, Origin({"main"}, false))
  }

  /** The feature foo[x] requires bar; but foo itself is required far down, by b. */
  function Crossed(): Graph {
    Graph(APP, map[APP := [To(FOOX), To(A)], FOOX := [To(FOO), To(BAR)], A := [To(B)], B := [To(FOO)],
                   FOO := [], BAR := []])
  }

  function Height(p: Graphs.Package): nat {
    if p == APP then 0 else if p == FOOX || p == A then 1 else if p == B || p == BAR then 2 else 3
  }

  lemma {:induction false} CrossedEdges(p: Graphs.Package, q: Graphs.Package)
    ensures Crossed().HasEdge(p, q) <==>
      || (p == APP && (q == FOOX || q == A)) || (p == FOOX && (q == FOO || q == BAR))
      || (p == A && q == B) || (p == B && q == FOO)
  {
    var g := Crossed();
    var es := g.Edges(p);
    assert p == APP ==> es[0] in es && es[1] in es;
    assert p == FOOX ==> es[0] in es && es[1] in es;
    assert p == A || p == B ==> es[0] in es;
  }

  lemma {:induction false} HigherAlongPath(path: seq<Graphs.Package>)
    requires Crossed().IsPath(path)
    ensures Height(path[|path| - 1]) >= Height(path[0])
  {
    if |path| > 1 {
      var last := |path| - 2;
      var shorter := path[..last + 1];
      forall i | 0 <= i < |shorter| - 1 ensures Crossed().HasEdge(shorter[i], shorter[i + 1]) {
        assert Crossed().HasEdge(path[i], path[i + 1]);
      }
      HigherAlongPath(shorter);
      assert Crossed().HasEdge(path[last], path[last + 1]);
      CrossedEdges(path[last], path[last + 1]);
    }
  }

  lemma {:induction false} CrossedIsInput()
    ensures Crossed().Valid() && Crossed().Acyclic()
  {
    var g := Crossed();
    forall p, q | g.HasEdge(p, q) ensures !g.Leads(q, p) {
      CrossedEdges(p, q);
      forall path | g.IsPath(path) && path[0] == q ensures path[|path| - 1] != p {
        HigherAlongPath(path);
      }
    }
  }

  lemma {:induction false} OnlyParent(infos: Infos, p: Graphs.Package, q: Graphs.Package)
    requires Ranked(Crossed(), infos) && q in infos && q != APP
    requires forall r :: Crossed().HasEdge(r, q) ==> r == p
    ensures p in infos && infos[q].depth == infos[p].depth + Weight(p, q)
  {
    assert Due(Crossed(), infos, q);
  }

  lemma {:induction false} BarAtOne(infos: Infos)
    requires Grounded(Crossed(), infos) && Ranked(Crossed(), infos)
    ensures BAR in infos && infos[BAR].depth == 1
  {
    forall r, q ensures Crossed().HasEdge(r, q) <==>
      || (r == APP && (q == FOOX || q == A)) || (r == FOOX && (q == FOO || q == BAR))
      || (r == A && q == B) || (r == B && q == FOO)
    {
      CrossedEdges(r, q);
    }
    OnlyParent(infos, APP, FOOX);
    OnlyParent(infos, FOOX, BAR);
  }

  /** The search puts foo at depth 2, or deeper, and bar at depth 1. */
  lemma {:induction false} CrossedDepths(infos: Infos)
    requires Grounded(Crossed(), infos) && Ranked(Crossed(), infos)
    ensures FOO in infos && infos[FOO].depth >= 2 && BAR in infos && infos[BAR].depth == 1
  {
    BarAtOne(infos);
    CrossedEdges(APP, A);
    CrossedEdges(A, B);
    CrossedEdges(B, FOO);
  }

  /** The foo that is installed requires bar, and yet it has been installed, in every run, when bar starts. */
  lemma {:induction false} RequiredComesLast(merged: Graph, packages: seq<Graphs.Package>, infos: Infos, s: Settings,
      installed: Site, ops: seq<Operation>, tasks: seq<Schedules.Operation>, pip: bool,
      p: nat, foo: Result, q: nat, bar: Result)
    requires Grounded(Crossed(), infos) && Ranked(Crossed(), infos)
    requires FOO in packages && FOOX in packages && MergedEdges(Crossed(), packages, merged)
    requires InOrder(ops) && Scheduled(ops, tasks)
    requires p < |ops| && Installs(s, installed, ops[p], foo) && AtDepthOf(infos, foo) && foo.node == FOO
    requires q < |ops| && Installs(s, installed, ops[q], bar) && AtDepthOf(infos, bar) && bar.node == BAR
    ensures Requires(merged, FOO, BAR)
    ensures ScheduleWitnesses.AlwaysFirst(tasks, pip, p, q) && !ScheduleWitnesses.AlwaysFirst(tasks, pip, q, p)
  {
    CrossedDepths(infos);
    InstalledFirstExactly(s, installed, ops, tasks, pip, q, bar, p, foo);
    InstalledFirstExactly(s, installed, ops, tasks, pip, p, foo, q, bar);
    CrossedEdges(FOOX, BAR);
    RequiresMerged(Crossed(), packages, merged, FOO, BAR);
    assert IsFeatureOf(FOOX, FOO) && InstalledFor(BAR, BAR);
  }
}
