/**
 In which order the executor's schedule takes the operations of one group: the unsafe ones and those of one
 repository in the order of the list, and the unsafe ones after all others that have been handed out.
 */
module ScheduleOrders {
  import opened Priorities
  import opened Schedules
  import opened ScheduleInvariants
  import opened ScheduleRuns

  ghost predicate Ascending(ids: seq<Id>) {
    forall i, j :: 0 <= i < j < |ids| ==> ids[i] < ids[j]
  }

  /** An operation of the current group that has been handed out, and that the workers execute. */
  predicate HandedToWorkers(ops: seq<Operation>, s: State, o: Id) {
    s.lo <= o < s.next && o < |ops| && !ops[o].ParallelUnsafe()
  }

  /** An operation that is a task of its own, so that it may be executed while the group is being handed out. */
  predicate EarlyTask(ops: seq<Operation>, o: Id) {
    o < |ops| && !ops[o].ParallelUnsafe() && !ops[o].source.Git?
  }

  /** What precedes an operation of the list on its repository has finished or precedes it in the list. */
  ghost predicate RepositoryOrder(ops: seq<Operation>, s: State, ids: seq<Id>) {
    && Ascending(ids)
    && forall k, q: Id ::
         (0 <= k < |ids| && q < ids[k] && HandedToWorkers(ops, s, q) && SameRepository(ops, q, ids[k])) ==>
           q in s.finished || q in ids[..k]
  }

  ghost predicate TasksInOrder(ops: seq<Operation>, s: State) {
    s.phase != Piping ==> forall t <- Tasks(s) :: RepositoryOrder(ops, s, t)
  }

  /** The lists of the repositories hold everything that has been handed out for them. */
  ghost predicate GitInOrder(ops: seq<Operation>, s: State) {
    && (forall r <- s.git :: RepositoryOrder(ops, s, s.git[r]))
    && (s.phase == Submitting ==> forall o: Id :: HandedToWorkers(ops, s, o) && ops[o].source.Git? ==>
          o in GitList(s.git, ops[o].source.repository))
  }

  ghost predicate StartedInOrder(ops: seq<Operation>, s: State) {
    forall p: Id, q: Id ::
      (HandedToWorkers(ops, s, p) && HandedToWorkers(ops, s, q) && Started(s, p)
       && q < p && SameRepository(ops, q, p)) ==> q in s.finished
  }

  ghost predicate SerialInOrder(ops: seq<Operation>, s: State) {
    && Ascending(s.serial)
    && forall o: Id :: s.lo <= o < s.next && o < |ops| && ops[o].ParallelUnsafe() ==> o in s.serial
  }

  /** What the workers have been given is with them or done; all of it is done when the main thread goes on. */
  ghost predicate WorkersFirst(ops: seq<Operation>, s: State) {
    && (s.phase in {Submitting, Waiting} ==> forall o: Id :: HandedToWorkers(ops, s, o) ==>
          o in s.finished || InTasks(Tasks(s), o) || InGit(s, o))
    && (s.phase in {Serial, Completed} || s.position > 0 || s.running ==>
          forall o: Id :: HandedToWorkers(ops, s, o) ==> o in s.finished)
  }

  /** Only a task that failed early keeps a part of the group from being handed out. */
  ghost predicate CutShort(ops: seq<Operation>, s: State) {
    s.phase != Piping && s.lo <= |ops| && s.lo < s.next < GroupEnd(ops, s.lo) && (s.phase != Submitting || s.shutdown)
    ==> exists o: Id :: s.lo <= o < s.next && EarlyTask(ops, o)
  }

  /** The operation before has another priority. */
  predicate StartsGroup(ops: seq<Operation>, lo: nat) {
    0 < lo < |ops| ==> ops[lo - 1].priority != ops[lo].priority
  }

  ghost predicate Orderly(ops: seq<Operation>, s: State) {
    && TasksInOrder(ops, s) && GitInOrder(ops, s) && StartedInOrder(ops, s)
    && SerialInOrder(ops, s) && WorkersFirst(ops, s) && CutShort(ops, s) && StartsGroup(ops, s.lo)
  }

  // ----- every step keeps it

  lemma {:induction false} InitOrderly(ops: seq<Operation>, pip: bool, s: State)
    requires Init(ops, pip, s)
    ensures Orderly(ops, s)
  {
  }

  lemma {:induction false} PipDoneOrderly(ops: seq<Operation>, pip: bool, s: State, s': State)
    requires Invariant(ops, pip, s) && Orderly(ops, s) && PipDone(s, s')
    ensures Orderly(ops, s')
  {
  }

  lemma {:induction false} SubmitTasks(ops: seq<Operation>, pip: bool, s: State, s': State)
    requires Invariant(ops, pip, s) && Orderly(ops, s) && Submit(ops, s, s')
    ensures TasksInOrder(ops, s')
  {
    forall t <- Tasks(s') ensures RepositoryOrder(ops, s', t) {
      if t in Tasks(s) {
        assert RepositoryOrder(ops, s, t) && SafeTask(ops, s.lo, s.next, t);
        assert forall o <- t :: o < s.next;
      }
    }
  }

  /** The list of a repository when one more operation has been handed out, which may belong to it. */
  lemma {:induction false} ListGrows(ops: seq<Operation>, s: State, s': State, l: seq<Id>, more: seq<Id>)
    requires RepositoryOrder(ops, s, l) && forall o <- l :: o < s.next
    requires s.next < |ops| && s'.next == s.next + 1 && s'.lo == s.lo && s'.finished == s.finished
    requires more == l || (more == l + [s.next]
      && forall q: Id :: HandedToWorkers(ops, s, q) && SameRepository(ops, q, s.next) ==> q in l)
    ensures RepositoryOrder(ops, s', more)
  {
    assert forall i :: 0 <= i < |l| ==> l[i] in l;
    forall k, q: Id | 0 <= k < |more| && q < more[k] && HandedToWorkers(ops, s', q) && SameRepository(ops, q, more[k])
      ensures q in s'.finished || q in more[..k]
    {
      assert HandedToWorkers(ops, s, q);
      if k < |l| {
        assert more[..k] == l[..k];
      } else {
        assert more[..k] == l;
      }
    }
  }

  lemma {:induction false} SubmitGit(ops: seq<Operation>, pip: bool, s: State, s': State)
    requires Invariant(ops, pip, s) && Orderly(ops, s) && Submit(ops, s, s')
    ensures GitInOrder(ops, s')
  {
    forall r <- s'.git ensures RepositoryOrder(ops, s', s'.git[r]) {
      var l := GitList(s.git, r);
      assert RepositoryOrder(ops, s, l) && forall o <- l :: o < s.next by {
        assert r in s.git ==> RepositoryList(ops, s, r, s.git[r]);
      }
      ListGrows(ops, s, s', l, s'.git[r]);
    }
    SubmitListed(ops, s, s');
  }

  lemma {:induction false} SubmitListed(ops: seq<Operation>, s: State, s': State)
    requires GitInOrder(ops, s) && Submit(ops, s, s')
    ensures forall o: Id :: HandedToWorkers(ops, s', o) && ops[o].source.Git? ==>
      o in GitList(s'.git, ops[o].source.repository)
  {
    forall o: Id | HandedToWorkers(ops, s', o) && ops[o].source.Git?
      ensures o in GitList(s'.git, ops[o].source.repository)
    {
      if o < s.next {
        assert HandedToWorkers(ops, s, o);
      }
    }
  }

  lemma {:induction false} SubmitWorkers(ops: seq<Operation>, pip: bool, s: State, s': State)
    requires Invariant(ops, pip, s) && Orderly(ops, s) && Submit(ops, s, s')
    ensures WorkersFirst(ops, s')
  {
    forall o: Id | HandedToWorkers(ops, s', o)
      ensures o in s'.finished || InTasks(Tasks(s'), o) || InGit(s', o)
    {
      if o < s.next {
        assert HandedToWorkers(ops, s, o);
        if InTasks(Tasks(s), o) {
          var t :| t in Tasks(s) && o in t;
          assert t in Tasks(s');
        } else if InGit(s, o) {
          var r :| r in s.git && o in s.git[r];
          assert r in s'.git && o in s'.git[r];
        }
      } else if ops[o].source.Git? {
        assert o in s'.git[ops[o].source.repository];
      } else {
        assert [o] in Tasks(s');
      }
    }
  }

  lemma {:induction false} SubmitSerial(ops: seq<Operation>, pip: bool, s: State, s': State)
    requires Invariant(ops, pip, s) && Orderly(ops, s) && Submit(ops, s, s')
    ensures SerialInOrder(ops, s')
  {
    assert forall o <- s.serial :: o < s.next;
    assert forall i :: 0 <= i < |s.serial| ==> s.serial[i] in s.serial;
  }

  lemma {:induction false} SubmitStarted(ops: seq<Operation>, pip: bool, s: State, s': State)
    requires Invariant(ops, pip, s) && Orderly(ops, s) && Submit(ops, s, s')
    ensures StartedInOrder(ops, s')
  {
    forall p: Id, q: Id | HandedToWorkers(ops, s', p) && HandedToWorkers(ops, s', q) && Started(s', p)
      && q < p && SameRepository(ops, q, p)
      ensures q in s'.finished
    {
      assert Started(s, p);
      NotStartedYet(ops, pip, s);
    }
  }

  lemma {:induction false} NotStartedYet(ops: seq<Operation>, pip: bool, s: State)
    requires Invariant(ops, pip, s) && s.phase == Submitting && s.next < |ops|
    ensures !Started(s, s.next)
  {
    forall t <- s.active | t != [] ensures t[0] != s.next {
      assert t in Tasks(s) && t[0] in t;
    }
  }

  lemma {:induction false} SubmitOrderly(ops: seq<Operation>, pip: bool, s: State, s': State)
    requires Invariant(ops, pip, s) && Orderly(ops, s) && Submit(ops, s, s')
    ensures Orderly(ops, s')
  {
    SubmitTasks(ops, pip, s, s');
    SubmitGit(ops, pip, s, s');
    SubmitWorkers(ops, pip, s, s');
    SubmitSerial(ops, pip, s, s');
    SubmitStarted(ops, pip, s, s');
  }

  lemma {:induction false} SubmitRepositoriesOrderly(ops: seq<Operation>, pip: bool, s: State, s': State)
    requires Invariant(ops, pip, s) && Orderly(ops, s) && SubmitRepositories(ops, s, s')
    ensures Orderly(ops, s')
  {
    forall t <- Tasks(s') ensures RepositoryOrder(ops, s', t) {
      if t in Tasks(s) {
        assert RepositoryOrder(ops, s, t);
      } else {
        var r :| r in s.git && s.git[r] == t;
        assert RepositoryOrder(ops, s, t);
      }
    }
    forall o: Id | HandedToWorkers(ops, s', o) ensures o in s'.finished || InTasks(Tasks(s'), o) {
      assert HandedToWorkers(ops, s, o);
      if InTasks(Tasks(s), o) {
        var t :| t in Tasks(s) && o in t;
        assert t in Tasks(s');
      } else if InGit(s, o) {
        var r :| r in s.git && o in s.git[r];
        assert s.git[r] in Tasks(s');
      }
    }
    assert forall o :: Started(s', o) <==> Started(s, o);
  }

  lemma {:induction false} StartOrderly(ops: seq<Operation>, pip: bool, s: State, s': State, t: Task)
    requires Invariant(ops, pip, s) && Orderly(ops, s) && Start(s, s', t)
    ensures Orderly(ops, s')
  {
    assert Tasks(s') == Tasks(s) && t in Tasks(s);
    forall p: Id, q: Id | HandedToWorkers(ops, s', p) && HandedToWorkers(ops, s', q) && Started(s', p)
      && q < p && SameRepository(ops, q, p)
      ensures q in s'.finished
    {
      assert HandedToWorkers(ops, s, p) && HandedToWorkers(ops, s, q);
      if !Started(s, p) {
        assert p == t[0];
        assert RepositoryOrder(ops, s, t) && t[..0] == [];
      }
    }
  }

  lemma {:induction false} FinishTasksOrder(ops: seq<Operation>, pip: bool, s: State, s': State, t: Task, ok: bool)
    requires Invariant(ops, pip, s) && Orderly(ops, s) && Finish(s, s', t, ok)
    ensures TasksInOrder(ops, s') && GitInOrder(ops, s')
  {
    if s.phase != Piping {
      forall u <- Tasks(s') ensures RepositoryOrder(ops, s', u) {
        if u in Tasks(s) {
          assert RepositoryOrder(ops, s, u);
        } else {
          assert u == t[1..] && t in Tasks(s) && RepositoryOrder(ops, s, t);
          forall k, q: Id | 0 <= k < |u| && q < u[k] && HandedToWorkers(ops, s', q) && SameRepository(ops, q, u[k])
            ensures q in s'.finished || q in u[..k]
          {
            assert HandedToWorkers(ops, s, q) && u[k] == t[k + 1];
            if q in t[..k + 1] {
              var i :| 0 <= i < k + 1 && t[i] == q;
              assert i > 0 ==> u[..k][i - 1] == q;
            }
          }
        }
      }
    }
    forall r <- s'.git ensures RepositoryOrder(ops, s', s'.git[r]) {
      assert RepositoryOrder(ops, s, s.git[r]);
    }
  }

  lemma {:induction false} FinishStarted(ops: seq<Operation>, pip: bool, s: State, s': State, t: Task, ok: bool)
    requires Invariant(ops, pip, s) && Orderly(ops, s) && Finish(s, s', t, ok)
    ensures StartedInOrder(ops, s')
  {
    assert t in Tasks(s) && t[0] in t;
    assert Heads(s.active, t[0]);
    forall p: Id, q: Id | HandedToWorkers(ops, s', p) && HandedToWorkers(ops, s', q) && Started(s', p)
      && q < p && SameRepository(ops, q, p)
      ensures q in s'.finished
    {
      assert HandedToWorkers(ops, s, p) && HandedToWorkers(ops, s, q);
      if !Started(s, p) {
        assert p == t[1];
        assert RepositoryOrder(ops, s, t) && t[..1] == [t[0]];
      }
    }
  }

  lemma {:induction false} FinishWorkers(ops: seq<Operation>, pip: bool, s: State, s': State, t: Task, ok: bool)
    requires Invariant(ops, pip, s) && Orderly(ops, s) && Finish(s, s', t, ok)
    ensures WorkersFirst(ops, s') && CutShort(ops, s')
  {
    assert t in Tasks(s) && t[0] in t;
    forall o: Id | s'.phase in {Submitting, Waiting} && HandedToWorkers(ops, s', o) && o !in s'.finished
      ensures InTasks(Tasks(s'), o) || InGit(s', o)
    {
      assert HandedToWorkers(ops, s, o);
      if InTasks(Tasks(s), o) {
        var u :| u in Tasks(s) && o in u;
        if u == t {
          assert o in t[1..] && t[1..] in Tasks(s');
        } else {
          assert u in Tasks(s');
        }
      } else {
        var r :| r in s.git && o in s.git[r];
        assert r in s'.git;
      }
    }
    if s.phase == Submitting {
      assert s.lo <= t[0] < s.next && EarlyTask(ops, t[0]);
    }
  }

  lemma {:induction false} FinishOrderly(ops: seq<Operation>, pip: bool, s: State, s': State, t: Task, ok: bool)
    requires Invariant(ops, pip, s) && Orderly(ops, s) && Finish(s, s', t, ok)
    ensures Orderly(ops, s')
  {
    FinishTasksOrder(ops, pip, s, s', t, ok);
    FinishStarted(ops, pip, s, s', t, ok);
    FinishWorkers(ops, pip, s, s', t, ok);
  }

  lemma {:induction false} WaitedOrderly(ops: seq<Operation>, pip: bool, s: State, s': State)
    requires Invariant(ops, pip, s) && Orderly(ops, s) && Waited(s, s')
    ensures Orderly(ops, s')
  {
    assert Tasks(s) == {} && s.git == map[];
    forall o: Id | HandedToWorkers(ops, s', o) ensures o in s'.finished {
      assert HandedToWorkers(ops, s, o);
    }
  }

  lemma {:induction false} SerialOrderly(ops: seq<Operation>, pip: bool, s: State, s': State)
    requires Invariant(ops, pip, s) && Orderly(ops, s)
    requires SerialStart(s, s') || exists ok :: SerialFinish(s, s', ok)
    ensures Orderly(ops, s')
  {
    var o := s.serial[s.position];
    assert o in s.serial && !(HandedToWorkers(ops, s, o));
    assert forall q :: HandedToWorkers(ops, s, q) ==> q in s.finished;
  }

  lemma {:induction false} GroupDoneOrderly(ops: seq<Operation>, pip: bool, s: State, s': State)
    requires Invariant(ops, pip, s) && Orderly(ops, s) && GroupDone(ops, s, s')
    ensures Orderly(ops, s')
  {
  }

  lemma {:induction false} InterruptOrderly(ops: seq<Operation>, pip: bool, s: State, s': State)
    requires Invariant(ops, pip, s) && Orderly(ops, s)
    requires Interrupt(s, s') || ClearQueue(s, s') || Drained(s, s')
    ensures Orderly(ops, s')
  {
  }

  lemma {:induction false} StepOrderly(ops: seq<Operation>, pip: bool, s: State, s': State)
    requires Invariant(ops, pip, s) && Orderly(ops, s) && Next(ops, s, s')
    ensures Orderly(ops, s')
  {
    if PipDone(s, s') {
      PipDoneOrderly(ops, pip, s, s');
    } else if Submit(ops, s, s') {
      SubmitOrderly(ops, pip, s, s');
    } else if SubmitRepositories(ops, s, s') {
      SubmitRepositoriesOrderly(ops, pip, s, s');
    } else if t :| Start(s, s', t) {
      StartOrderly(ops, pip, s, s', t);
    } else if t, ok :| Finish(s, s', t, ok) {
      FinishOrderly(ops, pip, s, s', t, ok);
    } else if Waited(s, s') {
      WaitedOrderly(ops, pip, s, s');
    } else if SerialStart(s, s') || exists ok :: SerialFinish(s, s', ok) {
      SerialOrderly(ops, pip, s, s');
    } else if GroupDone(ops, s, s') {
      GroupDoneOrderly(ops, pip, s, s');
    } else {
      InterruptOrderly(ops, pip, s, s');
    }
  }

  lemma {:induction false} RunOrderly(ops: seq<Operation>, pip: bool, run: seq<State>, i: nat)
    requires IsRun(ops, pip, run) && i < |run|
    ensures Orderly(ops, run[i])
  {
    if i == 0 {
      InitOrderly(ops, pip, run[0]);
    } else {
      RunOrderly(ops, pip, run, i - 1);
      RunKeeps(ops, pip, run, i - 1);
      assert Next(ops, run[i - 1], run[i - 1 + 1]);
      StepOrderly(ops, pip, run[i - 1], run[i]);
    }
  }

  // ----- which operations come first

  /** In the group something may be executed, and fail, before the operation is handed out. */
  ghost predicate MayBeCutOff(ops: seq<Operation>, q: Id)
    requires q < |ops|
  {
    exists o: Id :: o < q && EarlyTask(ops, o) && ops[o].priority == ops[q].priority
  }

  /** Of two operations of one priority, `q` is finished before `p` starts, unless the group is cut short. */
  predicate PrecedesInGroup(ops: seq<Operation>, q: Id, p: Id)
    requires q < |ops| && p < |ops|
  {
    if ops[p].ParallelUnsafe() then ops[q].ParallelUnsafe() ==> q < p
    else !ops[q].ParallelUnsafe() && SameRepository(ops, q, p) && q < p
  }

  predicate ComesFirst(ops: seq<Operation>, q: Id, p: Id)
    requires q < |ops| && p < |ops|
  {
    || Above(ops[q].priority, ops[p].priority)
    || (ops[q].priority == ops[p].priority && PrecedesInGroup(ops, q, p))
  }

  /** An operation for the workers that follows an unsafe one may never be handed out. */
  ghost predicate ComesFirstAlways(ops: seq<Operation>, q: Id, p: Id)
    requires q < |ops| && p < |ops|
  {
    || Above(ops[q].priority, ops[p].priority)
    || (ops[q].priority == ops[p].priority && PrecedesInGroup(ops, q, p)
        && (p < q ==> !MayBeCutOff(ops, q)))
  }

  lemma {:induction false} SamePriorityIsOneGroup(ops: seq<Operation>, lo: nat, q: Id, p: Id)
    requires Descending(ops) && StartsGroup(ops, lo) && lo <= |ops| && p < |ops| && q < |ops|
    requires ops[q].priority == ops[p].priority
    ensures p < lo <==> q < lo
    ensures lo <= p ==> (p < GroupEnd(ops, lo) <==> q < GroupEnd(ops, lo))
  {
    if lo < |ops| {
      assert forall k :: lo <= k < GroupEnd(ops, lo) ==> ops[k].priority == ops[lo].priority;
    }
  }

  /** The unsafe operations of a group start when everything that was handed out to the workers has finished. */
  lemma {:induction false} UnsafeStarted(ops: seq<Operation>, pip: bool, s: State, p: Id)
    requires Invariant(ops, pip, s) && Orderly(ops, s)
    requires s.lo <= p < |ops| && ops[p].ParallelUnsafe() && Started(s, p)
    ensures p < s.next && s.phase !in {Piping, Submitting, Waiting}
    ensures forall o: Id :: HandedToWorkers(ops, s, o) ==> o in s.finished
    ensures forall o: Id :: s.lo <= o < p && ops[o].ParallelUnsafe() ==> o in s.finished
  {
    assert !Heads(s.active, p) by {
      if Heads(s.active, p) {
        ActiveAreSafe(ops, s, p);
      }
    }
    assert p < s.next by {
      if p !in s.finished {
        assert s.serial[s.position] in s.serial;
      }
    }
    assert p in s.serial;
    var k :| 0 <= k < |s.serial| && s.serial[k] == p;
    forall o: Id | s.lo <= o < p && ops[o].ParallelUnsafe() ensures o in s.finished {
      assert o in s.serial;
    }
  }

  /** If one of the group has started and another one has not been handed out, a task has failed early. */
  lemma {:induction false} CutOff(ops: seq<Operation>, pip: bool, s: State, q: Id, p: Id)
    requires Invariant(ops, pip, s) && Orderly(ops, s) && Descending(ops)
    requires s.lo <= p < s.next <= q < |ops| && s.phase !in {Piping, Submitting}
    requires ops[q].priority == ops[p].priority
    ensures s.shutdown && MayBeCutOff(ops, q)
  {
    SamePriorityIsOneGroup(ops, s.lo, q, p);
    var o: Id :| s.lo <= o < s.next && EarlyTask(ops, o);
    assert ops[o].priority == ops[s.lo].priority == ops[p].priority;
  }

  /** As long as no shutdown has been asked for, and in some cases always. */
  lemma {:induction false} FinishedFirst(ops: seq<Operation>, pip: bool, run: seq<State>, i: nat, q: Id, p: Id)
    requires IsRun(ops, pip, run) && i < |run| && Descending(ops)
    requires q < |ops| && p < |ops| && Started(run[i], p)
    requires ComesFirstAlways(ops, q, p) || (!run[i].shutdown && ComesFirst(ops, q, p))
    ensures q in run[i].finished
  {
    var s := run[i];
    RunKeeps(ops, pip, run, i);
    RunOrderly(ops, pip, run, i);
    if Above(ops[q].priority, ops[p].priority) {
      HigherPriorityFirst(ops, pip, run, i, p);
    } else if q >= s.lo {
      SamePriorityIsOneGroup(ops, s.lo, q, p);
      if ops[p].ParallelUnsafe() {
        UnsafeStarted(ops, pip, s, p);
        if s.next <= q {
          CutOff(ops, pip, s, q, p);
        }
      } else {
        StartedIsHandedOut(ops, pip, s, p);
      }
    }
  }

  lemma {:induction false} StartedIsHandedOut(ops: seq<Operation>, pip: bool, s: State, p: Id)
    requires Invariant(ops, pip, s) && p < |ops| && Started(s, p)
    ensures p < s.next && s.phase != Piping
  {
    if Heads(s.active, p) {
      ActiveAreSafe(ops, s, p);
    } else if p !in s.finished {
      assert s.serial[s.position] in s.serial;
    }
  }

  // ----- after a failure or an interrupt

  lemma {:induction false} StaysShutDown(ops: seq<Operation>, s: State, s': State)
    requires Next(ops, s, s') && s.shutdown
    ensures s'.shutdown && s'.lo == s.lo && s'.next == s.next
  {
  }

  /** Once something has failed or an interrupt has come, nothing more is handed out, and so it never starts. */
  lemma {:induction false} NothingMoreHandedOut(ops: seq<Operation>, pip: bool, run: seq<State>, i: nat, j: nat)
    requires IsRun(ops, pip, run) && i <= j < |run| && run[i].shutdown
    ensures run[j].shutdown && run[j].lo == run[i].lo && run[j].next == run[i].next
    ensures forall o: Id :: run[i].next <= o < |ops| ==> !Started(run[j], o)
  {
    if i < j {
      NothingMoreHandedOut(ops, pip, run, i, j - 1);
      assert Next(ops, run[j - 1], run[j - 1 + 1]);
      StaysShutDown(ops, run[j - 1], run[j]);
    }
    RunKeeps(ops, pip, run, j);
    forall o: Id | run[i].next <= o < |ops| ensures !Started(run[j], o) {
      if Started(run[j], o) {
        StartedIsHandedOut(ops, pip, run[j], o);
      }
    }
  }
}
