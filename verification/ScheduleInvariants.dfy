/** What holds in every state of the executor's schedule, and that every step keeps it. */
module ScheduleInvariants {
  import opened Priorities
  import opened Schedules

  ghost function Tasks(s: State): set<Task> {
    s.pending + s.active
  }

  /** Tasks are made of distinct operations, which no two of them share, and which have not finished. */
  ghost predicate Apart(tasks: set<Task>, finished: set<Id>) {
    && (forall t <- tasks :: t != [] && NoDuplicates(t))
    && (forall t <- tasks, u <- tasks, o <- t :: o in u ==> t == u)
    && (forall t <- tasks, o <- t :: o !in finished)
  }

  /** No two tasks work on the same repository. */
  ghost predicate OneTaskEach(ops: seq<Operation>, tasks: set<Task>) {
    forall t <- tasks, u <- tasks, o <- t, q <- u :: SameRepository(ops, o, q) ==> t == u
  }

  predicate SameRepository(ops: seq<Operation>, o: Id, q: Id) {
    o < |ops| && q < |ops| && ops[o].source.Git? && ops[o].source == ops[q].source
  }

  /** What workers may be given. */
  ghost predicate SafeTask(ops: seq<Operation>, lo: nat, next: nat, t: Task) {
    forall o <- t :: lo <= o < next && o < |ops| && !ops[o].ParallelUnsafe()
  }

  ghost predicate TasksOk(ops: seq<Operation>, s: State) {
    && s.pending !! s.active
    && Apart(Tasks(s), s.finished)
    && OneTaskEach(ops, Tasks(s))
    && (forall t <- Tasks(s) :: if s.phase == Piping then t == [|ops|] else SafeTask(ops, s.lo, s.next, t))
  }

  ghost predicate SerialOk(ops: seq<Operation>, s: State) {
    && NoDuplicates(s.serial) && s.position <= |s.serial|
    && (forall o <- s.serial :: s.lo <= o < s.next && o < |ops| && ops[o].ParallelUnsafe())
    && (forall i :: 0 <= i < |s.serial| ==> (s.serial[i] in s.finished <==> i < s.position))
    && (s.phase in {Piping, Submitting, Waiting} ==> s.position == 0)
    && (s.phase != Serial ==> !s.running)
    && (s.running ==> s.position < |s.serial|)
    && (s.phase in {Serial, Halted, Completed} ==> s.pending == {} && s.active == {})
    && (s.phase == Draining ==> s.pending == {})
    && (s.phase == Completed ==> s.position == |s.serial|)
  }

  /** The list of operations of one repository, collected until the group has been handed out. */
  ghost predicate RepositoryList(ops: seq<Operation>, s: State, r: string, l: seq<Id>) {
    && l != [] && NoDuplicates(l) && SafeTask(ops, s.lo, s.next, l)
    && (forall o <- l :: o < |ops| && ops[o].source == Git(r) && o !in s.finished)
  }

  ghost predicate GitOk(ops: seq<Operation>, s: State) {
    && (s.phase != Submitting ==> s.git == map[])
    && (forall r <- s.git :: RepositoryList(ops, s, r, s.git[r]))
    && (s.phase == Submitting ==> forall t <- Tasks(s), o <- t :: o < |ops| ==> !ops[o].source.Git?)
  }

  ghost predicate InGit(s: State, o: Id) {
    exists r <- s.git :: o in s.git[r]
  }

  /** Everything handed out is finished or waits somewhere, unless a shutdown was asked for. */
  ghost predicate Accounted(s: State) {
    !s.shutdown ==> forall o :: s.lo <= o < s.next ==>
      o in s.finished || InTasks(Tasks(s), o) || o in s.serial || InGit(s, o)
  }

  ghost predicate Bookkeeping(ops: seq<Operation>, s: State) {
    && s.lo <= |ops| && s.lo <= s.next <= GroupEnd(ops, s.lo)
    && (s.phase in {Waiting, Serial, Completed} && !s.shutdown ==> s.next == GroupEnd(ops, s.lo))
    && (s.phase == Piping ==> s.next == 0 && s.serial == [])
    && (forall o :: 0 <= o < s.lo ==> o in s.finished && o !in s.failed)
    && (forall o <- s.finished :: o < s.next || o == |ops|)
    && (s.failed != {} ==> s.shutdown) && s.failed <= s.finished
    && (s.phase == Completed ==> !s.shutdown && GroupEnd(ops, s.lo) == |ops|)
    && (s.phase in {Cancelling, Draining, Halted} ==> s.shutdown)
  }

  /** pip, when there is one, is the only task of its phase and has finished after it. */
  ghost predicate PipFirst(ops: seq<Operation>, pip: bool, s: State) {
    && (s.phase == Piping ==> pip)
    && (pip ==> |ops| in s.finished || (s.phase == Piping && InTasks(Tasks(s), |ops|)))
    && (!pip ==> |ops| !in s.finished)
  }

  ghost predicate Logged(s: State) {
    NoDuplicates(s.log) && forall o :: o in s.log <==> Started(s, o)
  }

  ghost predicate Invariant(ops: seq<Operation>, pip: bool, s: State) {
    && TasksOk(ops, s) && SerialOk(ops, s) && GitOk(ops, s)
    && Accounted(s) && Bookkeeping(ops, s) && PipFirst(ops, pip, s) && Logged(s)
  }

  // ----- every step keeps it

  lemma {:induction false} InitKeeps(ops: seq<Operation>, pip: bool, s: State)
    requires Init(ops, pip, s)
    ensures Invariant(ops, pip, s)
  {
    if pip { assert [|ops|] in s.pending; }
  }

  lemma {:induction false} PipDoneKeeps(ops: seq<Operation>, pip: bool, s: State, s': State)
    requires Invariant(ops, pip, s) && PipDone(s, s')
    ensures Invariant(ops, pip, s')
  {
  }

  lemma {:induction false} LogStart(s: State, s': State, o: Id)
    requires Logged(s) && !Started(s, o)
    requires s'.log == s.log + [o] && forall q :: Started(s', q) <==> Started(s, q) || q == o
    ensures Logged(s')
  {
    forall q ensures q in s'.log <==> q in s.log || q == o {}
  }

  /** A worker's task is new to all others, whether it is one operation or those of a repository. */
  lemma {:induction false} AddTask(ops: seq<Operation>, tasks: set<Task>, finished: set<Id>, t: Task)
    requires Apart(tasks, finished) && OneTaskEach(ops, tasks)
    requires t != [] && NoDuplicates(t) && forall o <- t :: o !in finished && !InTasks(tasks, o)
    requires forall u <- tasks, o <- t, q <- u :: !SameRepository(ops, o, q)
    ensures Apart(tasks + {t}, finished) && OneTaskEach(ops, tasks + {t})
  {
    forall u <- tasks, o <- t ensures o !in u {
      assert !InTasks(tasks, o);
    }
    forall u <- tasks, o <- t, q <- u ensures !SameRepository(ops, q, o) {
      assert !SameRepository(ops, o, q);
    }
  }

  lemma {:induction false} SubmitSerially(ops: seq<Operation>, s: State, s': State)
    requires SerialOk(ops, s) && Bookkeeping(ops, s) && Submit(ops, s, s') && ops[s.next].ParallelUnsafe()
    ensures SerialOk(ops, s')
  {
    assert forall o <- s'.serial :: o in s.serial || o == s.next;
  }

  lemma {:induction false} SubmitUnsafeKeeps(ops: seq<Operation>, pip: bool, s: State, s': State)
    requires Invariant(ops, pip, s) && Submit(ops, s, s') && ops[s.next].ParallelUnsafe()
    ensures Invariant(ops, pip, s')
  {
    SubmitSerially(ops, s, s');
    assert Tasks(s') == Tasks(s);
    SubmitAccounted(ops, s, s');
  }

  lemma {:induction false} SubmitToRepositoryKeeps(ops: seq<Operation>, pip: bool, s: State, s': State)
    requires Invariant(ops, pip, s) && Submit(ops, s, s')
    requires !ops[s.next].ParallelUnsafe() && ops[s.next].source.Git?
    ensures Invariant(ops, pip, s')
  {
    assert Tasks(s') == Tasks(s);
    SubmitAccounted(ops, s, s');
    SubmitToRepository(ops, s, s');
  }

  lemma {:induction false} SubmitTask(ops: seq<Operation>, s: State, s': State)
    requires TasksOk(ops, s) && GitOk(ops, s) && Bookkeeping(ops, s) && Submit(ops, s, s')
    requires !ops[s.next].ParallelUnsafe() && !ops[s.next].source.Git?
    ensures TasksOk(ops, s') && GitOk(ops, s')
  {
    forall u <- Tasks(s) ensures s.next !in u {}
    AddTask(ops, Tasks(s), s.finished, [s.next]);
    assert Tasks(s') == Tasks(s) + {[s.next]};
  }

  lemma {:induction false} SubmitTaskKeeps(ops: seq<Operation>, pip: bool, s: State, s': State)
    requires Invariant(ops, pip, s) && Submit(ops, s, s')
    requires !ops[s.next].ParallelUnsafe() && !ops[s.next].source.Git?
    ensures Invariant(ops, pip, s')
  {
    SubmitTask(ops, s, s');
    SubmitAccounted(ops, s, s');
  }

  lemma {:induction false} SubmitToRepository(ops: seq<Operation>, s: State, s': State)
    requires TasksOk(ops, s) && GitOk(ops, s) && Bookkeeping(ops, s) && Submit(ops, s, s')
    requires !ops[s.next].ParallelUnsafe() && ops[s.next].source.Git?
    ensures GitOk(ops, s')
  {
    var repository := ops[s.next].source.repository;
    assert ops[s.next].source == Git(repository);
    forall r <- s'.git ensures RepositoryList(ops, s', r, s'.git[r]) {
      if r in s.git {
        assert RepositoryList(ops, s, r, s.git[r]);
        assert forall o <- s'.git[r] :: o in s.git[r] || o == s.next;
      }
    }
    assert Tasks(s') == Tasks(s);
  }

  lemma {:induction false} SubmitAccounted(ops: seq<Operation>, s: State, s': State)
    requires Accounted(s) && Submit(ops, s, s')
    ensures Accounted(s')
  {
    if !s'.shutdown {
      forall o | s'.lo <= o < s'.next
        ensures o in s'.finished || InTasks(Tasks(s'), o) || o in s'.serial || InGit(s', o)
      {
        if o < s.next {
          if InTasks(Tasks(s), o) {
            var t :| t in Tasks(s) && o in t;
            assert t in Tasks(s');
          } else if InGit(s, o) {
            var r :| r in s.git && o in s.git[r];
            assert r in s'.git && o in s'.git[r];
          }
        } else if !ops[o].ParallelUnsafe() {
          if ops[o].source.Git? {
            assert o in s'.git[ops[o].source.repository];
          } else {
            assert [o] in Tasks(s');
          }
        }
      }
    }
  }

  /** The lists of different repositories can all be tasks, beside the tasks of the group so far. */
  lemma {:induction false} RepositoryTasks(ops: seq<Operation>, s: State)
    requires TasksOk(ops, s) && GitOk(ops, s) && s.phase == Submitting
    ensures var lists := set r | r in s.git :: s.git[r];
            lists !! Tasks(s) && Apart(Tasks(s) + lists, s.finished) && OneTaskEach(ops, Tasks(s) + lists)
  {
    var lists := set r | r in s.git :: s.git[r];
    forall l <- lists, o <- l, u <- Tasks(s), q <- u
      ensures o != q && !SameRepository(ops, o, q) && !SameRepository(ops, q, o)
    {
      assert !SameRepository(ops, q, o);
    }
    forall l <- lists ensures l != [] && l !in Tasks(s) {
      assert l[0] in l;
    }
  }

  lemma {:induction false} SubmitRepositoriesKeeps(ops: seq<Operation>, pip: bool, s: State, s': State)
    requires Invariant(ops, pip, s) && SubmitRepositories(ops, s, s')
    ensures Invariant(ops, pip, s')
  {
    var lists := set r | r in s.git :: s.git[r];
    RepositoryTasks(ops, s);
    assert Tasks(s') == Tasks(s) + lists;
    forall t <- lists ensures SafeTask(ops, s'.lo, s'.next, t) {}
    if !s'.shutdown {
      forall o | s'.lo <= o < s'.next
        ensures o in s'.finished || InTasks(Tasks(s'), o) || o in s'.serial
      {
        if InTasks(Tasks(s), o) {
          var t :| t in Tasks(s) && o in t;
          assert t in Tasks(s');
        } else if InGit(s, o) {
          var r :| r in s.git && o in s.git[r];
          assert s.git[r] in Tasks(s');
        }
      }
    }
  }

  lemma {:induction false} StartKeeps(ops: seq<Operation>, pip: bool, s: State, s': State, t: Task)
    requires Invariant(ops, pip, s) && Start(s, s', t)
    ensures Invariant(ops, pip, s')
  {
    assert Tasks(s') == Tasks(s);
    assert t[0] in t && t in Tasks(s);
    forall u <- s.active ensures u[0] != t[0] {
      assert u[0] in u && u in Tasks(s);
    }
    forall o ensures Heads(s'.active, o) <==> Heads(s.active, o) || o == t[0] {
      if Heads(s.active, o) {
        var u :| u in s.active && u != [] && u[0] == o;
        assert u in s'.active;
      }
      if o == t[0] {
        assert t in s'.active;
      }
    }
    LogStart(s, s', t[0]);
  }

  ghost function Shortened(tasks: set<Task>, t: Task): set<Task>
    requires t != []
  {
    tasks - {t} + if t[1..] == [] then {} else {t[1..]}
  }

  lemma {:induction false} ShortenTask(ops: seq<Operation>, tasks: set<Task>, finished: set<Id>, t: Task)
    requires Apart(tasks, finished) && OneTaskEach(ops, tasks) && t in tasks
    ensures Apart(Shortened(tasks, t), finished + {t[0]}) && OneTaskEach(ops, Shortened(tasks, t))
  {
    assert t[0] in t;
    forall o <- t[1..] ensures o in t && o != t[0] {
      var i :| 0 <= i < |t[1..]| && t[1..][i] == o;
      assert t[i + 1] == o;
    }
    forall u <- tasks - {t}, o <- u ensures o != t[0] {}
  }

  lemma {:induction false} FinishAccounted(s: State, s': State, t: Task, ok: bool)
    requires Accounted(s) && Finish(s, s', t, ok) && Tasks(s') == Shortened(Tasks(s), t)
    ensures Accounted(s')
  {
    if !s'.shutdown {
      forall o | s'.lo <= o < s'.next && o !in s'.finished
        ensures InTasks(Tasks(s'), o) || o in s'.serial || InGit(s', o)
      {
        if InTasks(Tasks(s), o) {
          var u :| u in Tasks(s) && o in u;
          assert u == t ==> o in t[1..];
          assert (if u == t then t[1..] else u) in Tasks(s');
        } else if InGit(s, o) {
          var r :| r in s.git && o in s.git[r];
          assert r in s'.git;
        }
      }
    }
  }

  lemma {:induction false} FinishLogged(s: State, s': State, t: Task, ok: bool)
    requires Logged(s) && Apart(Tasks(s), s.finished) && Finish(s, s', t, ok)
    requires s.phase == Serial ==> s.active == {}
    ensures Logged(s')
  {
    assert t[0] in t;
    forall u <- s.active | u != t ensures u[0] != t[0] {
      assert u[0] in u;
    }
    assert Heads(s.active, t[0]);
    if t[1..] == [] {
      forall o ensures Heads(s'.active, o) <==> Heads(s.active, o) && o != t[0] {
        if Heads(s.active, o) && o != t[0] {
          var u :| u in s.active && u != [] && u[0] == o;
          assert u in s'.active;
        }
      }
    } else {
      assert t[1] in t && t[1..] in s'.active && t[1..][0] == t[1];
      forall u <- s.active ensures u[0] != t[1] {
        assert u[0] in u;
      }
      forall o ensures Heads(s'.active, o) <==> (Heads(s.active, o) && o != t[0]) || o == t[1] {
        if Heads(s.active, o) && o != t[0] {
          var u :| u in s.active && u != [] && u[0] == o;
          assert u in s'.active;
        }
      }
      LogStart(s, s', t[1]);
    }
  }

  lemma {:induction false} FinishTasks(ops: seq<Operation>, s: State, s': State, t: Task, ok: bool)
    requires TasksOk(ops, s) && Finish(s, s', t, ok)
    ensures TasksOk(ops, s') && Tasks(s') == Shortened(Tasks(s), t)
  {
    assert t in Tasks(s) && t[0] in t;
    ShortenTask(ops, Tasks(s), s.finished, t);
    if t[1..] != [] {
      assert t[1..][0] in t && t[1..] != t;
      assert t[1..] !in Tasks(s);
    }
    forall o <- t[1..] ensures o in t {}
  }

  lemma {:induction false} FinishGit(ops: seq<Operation>, s: State, s': State, t: Task, ok: bool)
    requires TasksOk(ops, s) && GitOk(ops, s) && Finish(s, s', t, ok) && Tasks(s') == Shortened(Tasks(s), t)
    ensures GitOk(ops, s')
  {
    assert t in Tasks(s) && t[0] in t;
    forall o <- t[1..] ensures o in t {}
  }

  lemma {:induction false} FinishSerial(ops: seq<Operation>, s: State, s': State, t: Task, ok: bool)
    requires TasksOk(ops, s) && SerialOk(ops, s) && Finish(s, s', t, ok)
    requires s.phase == Piping ==> s.serial == []
    ensures SerialOk(ops, s')
  {
    assert t in Tasks(s) && t[0] in t;
    assert t[0] !in s.serial;
  }

  lemma {:induction false} FinishBooks(ops: seq<Operation>, s: State, s': State, t: Task, ok: bool)
    requires TasksOk(ops, s) && Bookkeeping(ops, s) && Finish(s, s', t, ok) && s.phase != Completed
    ensures Bookkeeping(ops, s')
  {
    assert t in Tasks(s) && t[0] in t;
    assert t[0] >= s.lo;
  }

  lemma {:induction false} FinishPip(ops: seq<Operation>, pip: bool, s: State, s': State, t: Task, ok: bool)
    requires TasksOk(ops, s) && PipFirst(ops, pip, s) && Finish(s, s', t, ok)
    ensures PipFirst(ops, pip, s')
  {
    assert t in Tasks(s) && t[0] in t;
  }

  lemma {:induction false} FinishKeeps(ops: seq<Operation>, pip: bool, s: State, s': State, t: Task, ok: bool)
    requires Invariant(ops, pip, s) && Finish(s, s', t, ok)
    ensures Invariant(ops, pip, s')
  {
    FinishTasks(ops, s, s', t, ok);
    FinishGit(ops, s, s', t, ok);
    FinishSerial(ops, s, s', t, ok);
    FinishBooks(ops, s, s', t, ok);
    FinishPip(ops, pip, s, s', t, ok);
    FinishAccounted(s, s', t, ok);
    FinishLogged(s, s', t, ok);
  }

  lemma {:induction false} WaitedKeeps(ops: seq<Operation>, pip: bool, s: State, s': State)
    requires Invariant(ops, pip, s) && Waited(s, s')
    ensures Invariant(ops, pip, s')
  {
  }

  lemma {:induction false} SerialStartKeeps(ops: seq<Operation>, pip: bool, s: State, s': State)
    requires Invariant(ops, pip, s) && SerialStart(s, s')
    ensures Invariant(ops, pip, s')
  {
    assert Tasks(s') == Tasks(s);
    LogStart(s, s', s.serial[s.position]);
  }

  lemma {:induction false} SerialFinishLogged(s: State, s': State, ok: bool)
    requires Logged(s) && SerialFinish(s, s', ok) && s.active == {}
    ensures Logged(s')
  {
    forall o ensures Started(s', o) <==> Started(s, o) {}
  }

  lemma {:induction false} SerialFinishKeeps(ops: seq<Operation>, pip: bool, s: State, s': State, ok: bool)
    requires Invariant(ops, pip, s) && SerialFinish(s, s', ok)
    ensures Invariant(ops, pip, s')
  {
    assert s.serial[s.position] in s.serial;
    assert Tasks(s') == Tasks(s) == {};
    SerialFinishLogged(s, s', ok);
  }

  lemma {:induction false} GroupDoneKeeps(ops: seq<Operation>, pip: bool, s: State, s': State)
    requires Invariant(ops, pip, s) && GroupDone(ops, s, s')
    ensures Invariant(ops, pip, s')
  {
  }

  lemma {:induction false} InterruptKeeps(ops: seq<Operation>, pip: bool, s: State, s': State)
    requires Invariant(ops, pip, s) && (Interrupt(s, s') || ClearQueue(s, s') || Drained(s, s'))
    ensures Invariant(ops, pip, s')
  {
  }

  lemma {:induction false} StepKeeps(ops: seq<Operation>, pip: bool, s: State, s': State)
    requires Invariant(ops, pip, s) && Next(ops, s, s')
    ensures Invariant(ops, pip, s')
  {
    if PipDone(s, s') {
      PipDoneKeeps(ops, pip, s, s');
    } else if Submit(ops, s, s') {
      if ops[s.next].ParallelUnsafe() {
        SubmitUnsafeKeeps(ops, pip, s, s');
      } else if ops[s.next].source.Git? {
        SubmitToRepositoryKeeps(ops, pip, s, s');
      } else {
        SubmitTaskKeeps(ops, pip, s, s');
      }
    } else if SubmitRepositories(ops, s, s') {
      SubmitRepositoriesKeeps(ops, pip, s, s');
    } else if t :| Start(s, s', t) {
      StartKeeps(ops, pip, s, s', t);
    } else if t, ok :| Finish(s, s', t, ok) {
      FinishKeeps(ops, pip, s, s', t, ok);
    } else if Waited(s, s') {
      WaitedKeeps(ops, pip, s, s');
    } else if SerialStart(s, s') {
      SerialStartKeeps(ops, pip, s, s');
    } else if ok :| SerialFinish(s, s', ok) {
      SerialFinishKeeps(ops, pip, s, s', ok);
    } else if GroupDone(ops, s, s') {
      GroupDoneKeeps(ops, pip, s, s');
    } else {
      InterruptKeeps(ops, pip, s, s');
    }
  }

  lemma {:induction false} RunKeeps(ops: seq<Operation>, pip: bool, run: seq<State>, i: nat)
    requires IsRun(ops, pip, run) && i < |run|
    ensures Invariant(ops, pip, run[i])
  {
    if i == 0 {
      InitKeeps(ops, pip, run[0]);
    } else {
      RunKeeps(ops, pip, run, i - 1);
      assert Next(ops, run[i - 1], run[i - 1 + 1]);
      StepKeeps(ops, pip, run[i - 1], run[i]);
    }
  }
}
