/** What every run of the executor's schedule respects, and that every run ends. */
module ScheduleRuns {
  import opened Priorities
  import opened Schedules
  import opened ScheduleInvariants

  // ----- what every interleaving respects

  predicate Descending(ops: seq<Operation>) {
    forall i, j :: 0 <= i < j < |ops| ==> !Above(ops[j].priority, ops[i].priority)
  }

  lemma {:induction false} ActiveAreSafe(ops: seq<Operation>, s: State, o: Id)
    requires TasksOk(ops, s) && Heads(s.active, o)
    ensures s.phase == Piping ==> o == |ops|
    ensures s.phase != Piping ==> o < s.next && o < |ops| && !ops[o].ParallelUnsafe()
  {
    var t :| t in s.active && t != [] && t[0] == o;
    assert t in Tasks(s) && o in t;
  }

  /**
   Once an operation has started, pip and all operations of higher priority have finished, and none of
   the latter has failed.
   */
  lemma {:induction false} HigherPriorityFirst(ops: seq<Operation>, pip: bool, run: seq<State>, i: nat, o: Id)
    requires IsRun(ops, pip, run) && i < |run| && Descending(ops)
    requires o < |ops| && Started(run[i], o)
    ensures pip ==> |ops| in run[i].finished
    ensures forall q: Id :: q < |ops| && Above(ops[q].priority, ops[o].priority) ==>
      q in run[i].finished && q !in run[i].failed
  {
    var s := run[i];
    RunKeeps(ops, pip, run, i);
    assert o < s.next && s.phase != Piping by {
      if Heads(s.active, o) {
        ActiveAreSafe(ops, s, o);
      } else if o !in s.finished {
        assert s.serial[s.position] in s.serial;
      }
    }
    assert forall k :: s.lo <= k < s.next ==> ops[k].priority == ops[s.lo].priority;
    forall q: Id | q < |ops| && Above(ops[q].priority, ops[o].priority)
      ensures q in s.finished && q !in s.failed
    {
      assert q < o;
    }
  }

  /**
   While an operation that is not skipped uninstalls something, or installs something to be developed from a
   directory or a Git repository, no other operation is being executed.
   */
  lemma {:induction false} UnsafeRunAlone(ops: seq<Operation>, pip: bool, run: seq<State>, i: nat, o: Id, q: Id)
    requires IsRun(ops, pip, run) && i < |run|
    requires o < |ops| && !ops[o].skipped
    requires ops[o].uninstall || (ops[o].develop && (ops[o].source.Directory? || ops[o].source.Git?))
    requires InFlight(run[i], o) && InFlight(run[i], q)
    ensures q == o
  {
    var s := run[i];
    RunKeeps(ops, pip, run, i);
    if Heads(s.active, o) {
      ActiveAreSafe(ops, s, o);
    }
  }

  /** No two operations on the same repository are ever executed at the same time. */
  lemma {:induction false} RepositoriesNeverShared(ops: seq<Operation>, pip: bool, run: seq<State>, i: nat, o: Id,
      q: Id)
    requires IsRun(ops, pip, run) && i < |run|
    requires SameRepository(ops, o, q) && InFlight(run[i], o) && InFlight(run[i], q)
    ensures q == o
  {
    var s := run[i];
    RunKeeps(ops, pip, run, i);
    if Heads(s.active, o) && Heads(s.active, q) {
      var t :| t in s.active && t != [] && t[0] == o;
      var u :| u in s.active && u != [] && u[0] == q;
      assert t in Tasks(s) && o in t && u in Tasks(s) && q in u;
    }
  }

  /** No operation is ever started twice, and a completed run has started and finished all of them. */
  lemma {:induction false} EachOnce(ops: seq<Operation>, pip: bool, run: seq<State>, i: nat)
    requires IsRun(ops, pip, run) && i < |run|
    ensures NoDuplicates(run[i].log)
    ensures run[i].phase == Completed ==>
      && run[i].failed == {} && !run[i].shutdown
      && forall o: Id :: (o in run[i].log <==> o in run[i].finished)
                      && (o in run[i].finished <==> o < |ops| || (pip && o == |ops|))
  {
    var s := run[i];
    RunKeeps(ops, pip, run, i);
    if s.phase == Completed {
      forall o: Id
        ensures (o in s.log <==> o in s.finished) && (o in s.finished <==> o < |ops| || (pip && o == |ops|))
      {
        assert Tasks(s) == {} && s.git == map[];
        assert !InTasks(Tasks(s), o) && !InGit(s, o);
        if o in s.serial {
          var k :| 0 <= k < |s.serial| && s.serial[k] == o;
        }
      }
    }
  }

  /** A failure or an interrupt, and nothing else, keeps a run from completing. */
  lemma {:induction false} EndsAsItShould(ops: seq<Operation>, pip: bool, run: seq<State>, i: nat)
    requires IsRun(ops, pip, run) && i < |run| && run[i].phase in {Halted, Completed}
    ensures run[i].phase == Halted <==> run[i].shutdown
  {
    RunKeeps(ops, pip, run, i);
  }

  // ----- every run ends

  /** A state that is not final has a next one: the executor never blocks for ever. */
  lemma {:induction false} NeverStuck(ops: seq<Operation>, pip: bool, run: seq<State>, i: nat) returns (s': State)
    requires IsRun(ops, pip, run) && i < |run| && run[i].phase !in {Halted, Completed}
    ensures Next(ops, run[i], s')
  {
    var s := run[i];
    RunKeeps(ops, pip, run, i);
    if t :| t in s.active {
      assert t in Tasks(s);
      var ended := s.(finished := s.finished + {t[0]});
      s' := if t[1..] == [] then ended.(active := s.active - {t})
            else ended.(active := s.active - {t} + {t[1..]}, log := s.log + [t[1]]);
      assert Finish(s, s', t, true);
    } else if t :| t in s.pending {
      assert t in Tasks(s);
      s' := s.(pending := s.pending - {t}, active := s.active + {t}, log := s.log + [t[0]]);
      assert Start(s, s', t);
    } else {
      s' := MainThreadGoesOn(ops, pip, s);
    }
  }

  lemma {:induction false} MainThreadGoesOn(ops: seq<Operation>, pip: bool, s: State) returns (s': State)
    requires Invariant(ops, pip, s) && s.pending == {} && s.active == {} && s.phase !in {Halted, Completed}
    ensures Next(ops, s, s')
  {
    match s.phase
    case Piping => s' := s.(phase := Submitting);
    case Submitting =>
      if s.next == GroupEnd(ops, s.lo) || s.shutdown {
        s' := s.(phase := Waiting, pending := s.pending + (set r | r in s.git :: s.git[r]), git := map[]);
      } else {
        var op := ops[s.next];
        s' := if op.ParallelUnsafe() then s.(next := s.next + 1, serial := s.serial + [s.next])
              else if op.source.Git? then
                var r := op.source.repository;
                s.(next := s.next + 1, git := s.git[r := GitList(s.git, r) + [s.next]])
              else s.(next := s.next + 1, pending := s.pending + {[s.next]});
      }
    case Waiting => s' := s.(phase := Serial, position := 0, running := false);
    case Serial =>
      if s.running {
        s' := s.(running := false, position := s.position + 1, finished := s.finished + {s.serial[s.position]});
        assert SerialFinish(s, s', true);
      } else if s.position < |s.serial| {
        s' := s.(running := true, log := s.log + [s.serial[s.position]]);
      } else {
        var hi := GroupEnd(ops, s.lo);
        s' := if s.shutdown then s.(phase := Halted)
              else if hi == |ops| then s.(phase := Completed)
              else s.(phase := Submitting, lo := hi, next := hi, serial := [], position := 0);
      }
    case Cancelling => s' := s.(phase := Draining, pending := {});
    case Draining => s' := s.(phase := Halted);
  }

  function PhaseIndex(p: Phase): nat {
    match p
    case Piping => 0 case Submitting => 1 case Waiting => 2 case Serial => 3
    case Cancelling => 4 case Draining => 5 case Halted => 6 case Completed => 6
  }

  function Progress(s: State): nat {
    3 * s.lo + PhaseIndex(s.phase) + s.next + |s.log| + |s.finished|
  }

  lemma {:induction false} FinishProgresses(ops: seq<Operation>, s: State, s': State, t: Task, ok: bool)
    requires TasksOk(ops, s) && Finish(s, s', t, ok)
    ensures Progress(s') > Progress(s)
  {
    assert t in Tasks(s) && t[0] in t;
  }

  lemma {:induction false} SerialFinishProgresses(ops: seq<Operation>, s: State, s': State, ok: bool)
    requires SerialOk(ops, s) && SerialFinish(s, s', ok)
    ensures Progress(s') > Progress(s)
  {
    assert s.serial[s.position] !in s.finished;
  }

  lemma {:induction false} GroupDoneProgresses(ops: seq<Operation>, s: State, s': State)
    requires Bookkeeping(ops, s) && GroupDone(ops, s, s')
    ensures Progress(s') > Progress(s)
  {
  }

  lemma {:induction false} OthersProgress(ops: seq<Operation>, s: State, s': State)
    requires PipDone(s, s') || Submit(ops, s, s') || SubmitRepositories(ops, s, s') || (exists t :: Start(s, s', t))
          || Waited(s, s') || SerialStart(s, s') || Interrupt(s, s') || ClearQueue(s, s') || Drained(s, s')
    ensures Progress(s') > Progress(s)
  {
  }

  lemma {:induction false} StepProgresses(ops: seq<Operation>, pip: bool, s: State, s': State)
    requires Invariant(ops, pip, s) && Next(ops, s, s')
    ensures Progress(s') > Progress(s)
  {
    if t, ok :| Finish(s, s', t, ok) {
      FinishProgresses(ops, s, s', t, ok);
    } else if ok :| SerialFinish(s, s', ok) {
      SerialFinishProgresses(ops, s, s', ok);
    } else if GroupDone(ops, s, s') {
      GroupDoneProgresses(ops, s, s');
    } else {
      OthersProgress(ops, s, s');
    }
  }

  lemma {:induction false} DistinctBelow(ids: seq<Id>, n: nat)
    requires NoDuplicates(ids) && forall o <- ids :: o < n
    ensures |ids| <= n
  {
    DistinctCount(ids);
    SetBelow(Members(ids), n);
  }

  ghost function Members(ids: seq<Id>): set<Id> {
    set o | o in ids
  }

  lemma {:induction false} DistinctCount(ids: seq<Id>)
    requires NoDuplicates(ids)
    ensures |Members(ids)| == |ids|
  {
    if ids == [] {
      assert Members(ids) == {};
    } else {
      var last := |ids| - 1;
      DistinctCount(ids[..last]);
      assert ids == ids[..last] + [ids[last]];
      assert Members(ids) == Members(ids[..last]) + {ids[last]};
    }
  }

  lemma {:induction false} SetBelow(ids: set<Id>, n: nat)
    requires forall o <- ids :: o < n
    ensures |ids| <= n
  {
    if n == 0 {
      assert ids == {};
    } else {
      SetBelow(ids - {n - 1}, n - 1);
    }
  }

  /** No run has more than a fixed multiple of the number of operations as its steps. */
  lemma {:induction false} RunsAreFinite(ops: seq<Operation>, pip: bool, run: seq<State>)
    requires IsRun(ops, pip, run)
    ensures |run| <= 6 * |ops| + 9
  {
    ProgressAdds(ops, pip, run, |run| - 1);
    var s := run[|run| - 1];
    RunKeeps(ops, pip, run, |run| - 1);
    forall o <- s.log ensures o < |ops| + 1 {
      assert Started(s, o);
      if Heads(s.active, o) {
        ActiveAreSafe(ops, s, o);
      } else if o !in s.finished {
        assert s.serial[s.position] in s.serial;
      }
    }
    DistinctBelow(s.log, |ops| + 1);
    SetBelow(s.finished, |ops| + 1);
  }

  lemma {:induction false} ProgressAdds(ops: seq<Operation>, pip: bool, run: seq<State>, i: nat)
    requires IsRun(ops, pip, run) && i < |run|
    ensures Progress(run[i]) >= i
  {
    if i > 0 {
      ProgressAdds(ops, pip, run, i - 1);
      RunKeeps(ops, pip, run, i - 1);
      assert Next(ops, run[i - 1], run[i - 1 + 1]);
      StepProgresses(ops, pip, run[i - 1], run[i]);
    }
  }
}
