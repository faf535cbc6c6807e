/** Which operations the executor's schedule may execute at the same time. */
module ScheduleOverlaps {
  import opened Priorities
  import opened Schedules
  import opened ScheduleInvariants
  import opened ScheduleRuns
  import opened ScheduleOrders
  import opened ScheduleWitnesses

  /** Some run executes both operations at once. */
  ghost predicate MayOverlap(ops: seq<Operation>, pip: bool, o: Id, q: Id) {
    exists run: seq<State>, i: nat :: Overlapping(ops, pip, run, i, o, q)
  }

  ghost predicate Overlapping(ops: seq<Operation>, pip: bool, run: seq<State>, i: nat, o: Id, q: Id) {
    IsRun(ops, pip, run) && i < |run| && InFlight(run[i], o) && InFlight(run[i], q)
  }

  /** It changes nothing, or it installs or updates what is not to be developed from a directory or a repository. */
  ghost predicate Shares(op: Operation) {
    || op.skipped
    || (!op.uninstall && (op.develop ==> op.source.Elsewhere?))
  }

  lemma {:induction false} InFlightIsUnfinished(ops: seq<Operation>, pip: bool, s: State, o: Id)
    requires Invariant(ops, pip, s) && InFlight(s, o)
    ensures o !in s.finished
  {
    if Heads(s.active, o) {
      var t :| t in s.active && t != [] && t[0] == o;
      assert t in Tasks(s) && o in t;
    }
  }

  lemma {:induction false} OverlappingAreEqual(ops: seq<Operation>, pip: bool, run: seq<State>, i: nat, o: Id, q: Id)
    requires Overlapping(ops, pip, run, i, o, q) && Descending(ops) && o < |ops| && q < |ops|
    ensures ops[o].priority == ops[q].priority
  {
    RunKeeps(ops, pip, run, i);
    InFlightIsUnfinished(ops, pip, run[i], o);
    InFlightIsUnfinished(ops, pip, run[i], q);
    if Above(ops[o].priority, ops[q].priority) {
      HigherPriorityFirst(ops, pip, run, i, q);
    } else if Above(ops[q].priority, ops[o].priority) {
      HigherPriorityFirst(ops, pip, run, i, o);
    }
  }

  /** What the workers are given for an operation: itself, or everything of the group on its repository. */
  ghost predicate TaskOf(ops: seq<Operation>, t: Task, o: Id) {
    && o < |ops| && o in t
    && (forall x <- t :: x < |ops| && if ops[o].source.Git? then ops[x].source == ops[o].source else x == o)
  }

  lemma {:induction false} TasksDiffer(ops: seq<Operation>, t: Task, u: Task, o: Id, q: Id)
    requires TaskOf(ops, t, o) && TaskOf(ops, u, q) && o != q && !SameRepository(ops, o, q)
    ensures o !in u && t != u
  {
  }

  /** When the group has been handed out, each of its shared operations is in a task. */
  lemma {:induction false} TaskHandedOut(ops: seq<Operation>, pip: bool, run: seq<State>, closed: seq<State>, o: Id)
    returns (t: Task, k: nat)
    requires IsRun(ops, pip, run) && IsRun(ops, pip, closed) && SubmitRepositories(ops, Last(run), Last(closed))
    requires HandedToWorkers(ops, Last(run), o) && (EarlyTask(ops, o) ==> [o] in Last(run).pending)
    ensures t in Last(closed).pending && TaskOf(ops, t, o) && k < |t| && t[k] == o
  {
    LastKeeps(ops, pip, run);
    var s := Last(run);
    if ops[o].source.Git? {
      var r := ops[o].source.repository;
      assert r in s.git && RepositoryList(ops, s, r, s.git[r]);
      t := s.git[r];
    } else {
      t := [o];
    }
    k :| 0 <= k < |t| && t[k] == o;
  }

  /** The two tasks are taken by two workers, who execute them up to the two operations. */
  lemma {:induction false} TasksOverlap(ops: seq<Operation>, pip: bool, closed: seq<State>, t: Task, k: nat,
      u: Task, l: nat) returns (run: seq<State>)
    requires IsRun(ops, pip, closed) && !Last(closed).shutdown
    requires t in Last(closed).pending && u in Last(closed).pending && t != u
    requires k < |t| && l < |u| && t[k] !in u
    ensures run != [] && Overlapping(ops, pip, run, |run| - 1, t[k], u[l])
  {
    run := StartTask(ops, pip, closed, t);
    run := RunTask(ops, pip, run, t, k);
    run := StartTask(ops, pip, run, u);
    assert Heads(Last(run).active, t[k]);
    run := RunTask(ops, pip, run, u, l);
  }

  lemma {:induction false} SharedOverlap(ops: seq<Operation>, pip: bool, o: Id, q: Id)
    requires o < |ops| && q < |ops| && o != q && Descending(ops) && ops[o].priority == ops[q].priority
    requires !ops[o].ParallelUnsafe() && !ops[q].ParallelUnsafe() && !SameRepository(ops, o, q)
    ensures MayOverlap(ops, pip, o, q)
  {
    var run := ReachGroup(ops, pip, o);
    LastKeeps(ops, pip, run);
    SamePriorityIsOneGroup(ops, Last(run).lo, o, q);
    run := HandOut(ops, pip, run, GroupEnd(ops, Last(run).lo));
    var closed := CloseGroup(ops, pip, run);
    var t, k := TaskHandedOut(ops, pip, run, closed, o);
    var u, l := TaskHandedOut(ops, pip, run, closed, q);
    TasksDiffer(ops, t, u, o, q);
    var both := TasksOverlap(ops, pip, closed, t, k, u, l);
  }

  /**
   Two operations may be executed at the same time exactly if they have the same priority, do not work on one
   repository, and each of them is skipped or neither uninstalls anything nor installs something to be developed.
   */
  lemma {:induction false} OverlapExactly(ops: seq<Operation>, pip: bool, o: Id, q: Id)
    requires o < |ops| && q < |ops| && o != q && Descending(ops)
    ensures MayOverlap(ops, pip, o, q) <==>
      && ops[o].priority == ops[q].priority && Shares(ops[o]) && Shares(ops[q])
      && !(ops[o].source.Git? && ops[o].source == ops[q].source)
  {
    if MayOverlap(ops, pip, o, q) {
      var run: seq<State>, i: nat :| Overlapping(ops, pip, run, i, o, q);
      OverlappingAreEqual(ops, pip, run, i, o, q);
      if !Shares(ops[o]) {
        UnsafeRunAlone(ops, pip, run, i, o, q);
      } else if !Shares(ops[q]) {
        UnsafeRunAlone(ops, pip, run, i, q, o);
      } else if SameRepository(ops, o, q) {
        RepositoriesNeverShared(ops, pip, run, i, o, q);
      }
    } else if ops[o].priority == ops[q].priority && Shares(ops[o]) && Shares(ops[q]) && !SameRepository(ops, o, q) {
      SharedOverlap(ops, pip, o, q);
    }
  }
}
