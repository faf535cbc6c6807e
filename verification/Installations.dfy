/**
 From a solution to its installation: the depths of packages become the priorities of their operations, and
 these decide, with the kinds of the operations, what the executor has finished when it starts a package.
 */
module Installations {
  import opened Options
  import opened Graphs
  import opened SolvedPackages
  import opened Priorities
  import opened Transactions
  import opened FeatureMerges
  import Schedules
  import ScheduleRuns
  import ScheduleOrders
  import ScheduleWitnesses

  /** The operations as the executor sees them. */
  ghost predicate Scheduled(ops: seq<Operation>, tasks: seq<Schedules.Operation>) {
    && |ops| == |tasks|
    && forall i :: 0 <= i < |ops| ==>
      tasks[i].priority == ops[i].Priority() && tasks[i].skipped == ops[i].Skipped()
      && tasks[i].uninstall == ops[i].Uninstall?
  }

  /** The depth of a dependency, direct or not, is greater unless only features of one package differ. */
  lemma {:induction false} DepthAlongPath(g: Graph, infos: Infos, path: seq<Graphs.Package>)
    requires Ranked(g, infos) && g.IsPath(path) && path[0] in infos
    ensures path[|path| - 1] in infos
    ensures infos[path[|path| - 1]].depth >= infos[path[0]].depth + Weight(path[0], path[|path| - 1])
  {
    if |path| > 1 {
      var last := |path| - 2;
      var shorter := path[..last + 1];
      forall i | 0 <= i < |shorter| - 1 ensures g.HasEdge(shorter[i], shorter[i + 1]) {
        assert g.HasEdge(path[i], path[i + 1]);
      }
      DepthAlongPath(g, infos, shorter);
      assert g.HasEdge(path[last], path[last + 1]);
    }
  }

  lemma {:induction false} DependencyDeeper(g: Graph, infos: Infos, p: Graphs.Package, q: Graphs.Package)
    requires Ranked(g, infos) && p in infos && q in infos && g.Leads(p, q) && p.baseName != q.baseName
    ensures infos[q].depth > infos[p].depth
  {
    var path :| g.IsPath(path) && path[0] == p && path[|path| - 1] == q;
    DepthAlongPath(g, infos, path);
  }

  lemma {:induction false} OrderDescends(ops: seq<Operation>, tasks: seq<Schedules.Operation>)
    requires InOrder(ops) && Scheduled(ops, tasks)
    ensures ScheduleRuns.Descending(tasks)
  {
    forall a, b | 0 <= a < b < |tasks| ensures !Above(tasks[b].priority, tasks[a].priority) {
      assert Precedes(ops[a], ops[b]);
    }
  }

  /** The operation carries out an installation or an update of this solved package. */
  ghost predicate Installs(s: Settings, installed: Site, op: Operation, r: Result) {
    ResultOperation(s, installed, r) == Some(op) && !op.Skipped()
  }

  /** At the depth that the search over the graph has found for the package. */
  ghost predicate AtDepthOf(infos: Infos, r: Result) {
    r.node in infos && r.depth == infos[r.node].depth
  }

  // ----- which of two packages comes first

  /** Whatever is uninstalled has been removed, in every run, when an installation or an update starts. */
  lemma {:induction false} UninstalledFirst(ops: seq<Operation>, tasks: seq<Schedules.Operation>, pip: bool,
      p: nat, q: nat)
    requires InOrder(ops) && Scheduled(ops, tasks) && p < |ops| && q < |ops|
    requires ops[q].Uninstall? && !ops[p].Uninstall?
    ensures q < p && ScheduleWitnesses.AlwaysFirst(tasks, pip, q, p)
  {
    OrderDescends(ops, tasks);
    ScheduleWitnesses.AlwaysFirstExactly(tasks, pip, q, p);
  }

  /**
   Of two packages whatever their depths are, one has been installed in every run when the other one starts
   exactly if it is deeper; or, at the same depth, if only the other one is unsafe and it will be handed out; or
   if it comes earlier in the list and both are unsafe or are both safe and from one repository.
   */
  lemma {:induction false} InstalledFirstExactly(s: Settings, installed: Site, ops: seq<Operation>,
      tasks: seq<Schedules.Operation>, pip: bool, p: nat, dependent: Result, q: nat, dependency: Result)
    requires InOrder(ops) && Scheduled(ops, tasks)
    requires p < |ops| && Installs(s, installed, ops[p], dependent)
    requires q < |ops| && Installs(s, installed, ops[q], dependency)
    ensures ScheduleWitnesses.AlwaysFirst(tasks, pip, q, p) <==>
      || dependency.depth > dependent.depth
      || (dependency.depth == dependent.depth && ScheduleOrders.PrecedesInGroup(tasks, q, p)
          && (p < q ==> !ScheduleOrders.MayBeCutOff(tasks, q)))
    ensures ScheduleWitnesses.FirstUnlessShutDown(tasks, pip, q, p) <==>
      || dependency.depth > dependent.depth
      || (dependency.depth == dependent.depth && ScheduleOrders.PrecedesInGroup(tasks, q, p))
  {
    OrderDescends(ops, tasks);
    assert tasks[p].priority == Depth(dependent.depth) && tasks[q].priority == Depth(dependency.depth);
    ScheduleWitnesses.AlwaysFirstExactly(tasks, pip, q, p);
    ScheduleWitnesses.FirstUnlessShutDownExactly(tasks, pip, q, p);
  }

  /** For a package from an index, or from a file or a URL: exactly if it is deeper. */
  lemma {:induction false} DeeperIsFirst(s: Settings, installed: Site, ops: seq<Operation>,
      tasks: seq<Schedules.Operation>, pip: bool, p: nat, dependent: Result, q: nat, dependency: Result)
    requires InOrder(ops) && Scheduled(ops, tasks)
    requires p < |ops| && Installs(s, installed, ops[p], dependent) && ScheduleOrders.EarlyTask(tasks, p)
    requires q < |ops| && Installs(s, installed, ops[q], dependency)
    ensures ScheduleWitnesses.AlwaysFirst(tasks, pip, q, p) <==> dependency.depth > dependent.depth
  {
    InstalledFirstExactly(s, installed, ops, tasks, pip, p, dependent, q, dependency);
  }

  /** All packages of a lock file have depth 0, so that none of these is installed before another one for certain. */
  lemma {:induction false} LockedAreUnordered(s: Settings, installed: Site, ops: seq<Operation>,
      tasks: seq<Schedules.Operation>, pip: bool, p: nat, dependent: Result, q: nat, dependency: Result)
    returns (run: seq<Schedules.State>)
    requires InOrder(ops) && Scheduled(ops, tasks)
    requires p < |ops| && Installs(s, installed, ops[p], dependent) && ScheduleOrders.EarlyTask(tasks, p)
    requires q < |ops| && Installs(s, installed, ops[q], dependency)
    requires dependent.depth == 0 && dependency.depth == 0
    ensures ScheduleWitnesses.Overtakes(tasks, pip, run, q, p)
  {
    OrderDescends(ops, tasks);
    run := ScheduleWitnesses.Unordered(tasks, pip, q, p);
  }

  // ----- the dependencies of a package

  /**
   Along the edges that the search has seen: in every run, whatever the workers do, once the operation of a
   package has started, those of all packages that its node leads to have finished, and have not failed.
   */
  lemma {:induction false} DependenciesFirst(
      g: Graph, infos: Infos, s: Settings, installed: Site, ops: seq<Operation>,
      tasks: seq<Schedules.Operation>, pip: bool, run: seq<Schedules.State>, i: nat,
      p: nat, dependent: Result, q: nat, dependency: Result)
    requires Ranked(g, infos) && InOrder(ops) && Scheduled(ops, tasks)
    requires Schedules.IsRun(tasks, pip, run) && i < |run|
    requires p < |ops| && Installs(s, installed, ops[p], dependent) && AtDepthOf(infos, dependent)
    requires q < |ops| && Installs(s, installed, ops[q], dependency) && AtDepthOf(infos, dependency)
    requires g.Leads(dependent.node, dependency.node) && dependent.node.baseName != dependency.node.baseName
    requires Schedules.Started(run[i], p)
    ensures q in run[i].finished && q !in run[i].failed
  {
    DependencyDeeper(g, infos, dependent.node, dependency.node);
    OrderDescends(ops, tasks);
    assert Above(tasks[q].priority, tasks[p].priority);
    ScheduleRuns.HigherPriorityFirst(tasks, pip, run, i, p);
  }

  /** The operation installs something that the package requires. */
  ghost predicate InstallsDependency(s: Settings, installed: Site, infos: Infos, merged: Graph,
                                     b: Graphs.Package, op: Operation, r: Result)
  {
    Installs(s, installed, op, r) && AtDepthOf(infos, r) && Requires(merged, b, r.node)
  }

  /**
   The depths are those before features were merged: all dependencies of a package from an index have been
   installed when it starts, in all runs, exactly if each one that is installed is deeper than the package.
   */
  lemma {:induction false} AllDependenciesFirstExactly(s: Settings, installed: Site, infos: Infos, merged: Graph,
      ops: seq<Operation>, tasks: seq<Schedules.Operation>, pip: bool, p: nat, dependent: Result)
    requires InOrder(ops) && Scheduled(ops, tasks)
    requires p < |ops| && Installs(s, installed, ops[p], dependent) && ScheduleOrders.EarlyTask(tasks, p)
    requires AtDepthOf(infos, dependent)
    ensures (forall q, r :: 0 <= q < |ops| && InstallsDependency(s, installed, infos, merged, dependent.node, ops[q], r)
               ==> ScheduleWitnesses.AlwaysFirst(tasks, pip, q, p))
      <==> (forall q, r :: 0 <= q < |ops| && InstallsDependency(s, installed, infos, merged, dependent.node, ops[q], r)
               ==> infos[r.node].depth > infos[dependent.node].depth)
  {
    forall q, r | 0 <= q < |ops| && InstallsDependency(s, installed, infos, merged, dependent.node, ops[q], r)
      ensures ScheduleWitnesses.AlwaysFirst(tasks, pip, q, p) <==>
        infos[r.node].depth > infos[dependent.node].depth
    {
      DeeperIsFirst(s, installed, ops, tasks, pip, p, dependent, q, r);
    }
  }

  /** The operations in the order in which a run started them; pip's, if there is one, is the last of `all`. */
  function InOrderOf(all: seq<Operation>, log: seq<nat>): seq<Operation>
    requires forall id <- log :: id < |all|
  {
    assert forall i :: 0 <= i < |log| ==> log[i] in log;
    seq(|log|, i requires 0 <= i < |log| => all[log[i]])
  }

  /** A run that completes has put the packages in place that the project asks for, whatever the workers did. */
  lemma {:induction false} CompletedRunSettles(
      s: Settings, results: seq<Result>, current: seq<Transactions.Package>, installed: Site, all: seq<Operation>,
      tasks: seq<Schedules.Operation>, pip: bool, run: seq<Schedules.State>, i: nat)
    requires Complete(s, results, current, installed, all)
    requires Schedules.IsRun(tasks, pip, run) && i < |run| && run[i].phase == Schedules.Completed
    requires |all| == |tasks| + if pip then 1 else 0
    ensures forall id <- run[i].log :: id < |all|
    ensures forall n ::
      Settled(s, results, current, installed, n, Lookup(ExecuteAll(InOrderOf(all, run[i].log), installed), n)) <==>
        Consistent(s, installed, results, n)
  {
    var log := run[i].log;
    ScheduleRuns.EachOnce(tasks, pip, run, i);
    var ops := InOrderOf(all, log);
    assert forall k :: 0 <= k < |log| ==> log[k] in log && ops[k] == all[log[k]];
    forall op ensures op in ops <==> op in all {
      if op in all {
        var id: nat :| id < |all| && all[id] == op;
        assert id in log;
        var k :| 0 <= k < |log| && log[k] == id;
        assert ops[k] == op;
      }
    }
    forall n
      ensures Settled(s, results, current, installed, n, Lookup(ExecuteAll(ops, installed), n)) <==>
        Consistent(s, installed, results, n)
    {
      AnyOrderSettles(s, results, current, installed, ops, n);
    }
  }
}
