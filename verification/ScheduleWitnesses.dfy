/**
 Runs of the executor's schedule in which one operation starts while another one has not finished: whatever
 the schedule does not order, some interleaving does the other way round.
 */
module ScheduleWitnesses {
  import opened Priorities
  import opened Schedules
  import opened ScheduleInvariants
  import opened ScheduleRuns
  import opened ScheduleOrders

  // ----- pieces of runs

  function Last(run: seq<State>): State
    requires run != []
  {
    run[|run| - 1]
  }

  lemma {:induction false} Extend(ops: seq<Operation>, pip: bool, run: seq<State>, s: State)
    requires IsRun(ops, pip, run) && Next(ops, Last(run), s)
    ensures IsRun(ops, pip, run + [s]) && Last(run + [s]) == s
  {
    var longer := run + [s];
    forall i | 0 <= i < |longer| - 1 ensures Next(ops, longer[i], longer[i + 1]) {
      assert i < |run| - 1 ==> Next(ops, run[i], run[i + 1]);
    }
  }

  lemma {:induction false} LastKeeps(ops: seq<Operation>, pip: bool, run: seq<State>)
    requires IsRun(ops, pip, run)
    ensures Invariant(ops, pip, Last(run)) && Orderly(ops, Last(run))
  {
    RunKeeps(ops, pip, run, |run| - 1);
    RunOrderly(ops, pip, run, |run| - 1);
  }

  /** The group goes on being handed out, while the workers do nothing. */
  ghost predicate HandsOut(s: State, s': State) {
    && s'.phase == Submitting && s'.lo == s.lo && s'.next >= s.next && !s'.shutdown
    && s'.active == s.active && s.pending <= s'.pending && s'.finished == s.finished
  }

  lemma {:induction false} HandOutOne(ops: seq<Operation>, pip: bool, run: seq<State>) returns (longer: seq<State>)
    requires IsRun(ops, pip, run) && Last(run).phase == Submitting && !Last(run).shutdown
    requires Last(run).lo <= |ops| && Last(run).next < GroupEnd(ops, Last(run).lo)
    ensures IsRun(ops, pip, longer) && HandsOut(Last(run), Last(longer)) && Last(longer).next == Last(run).next + 1
    ensures EarlyTask(ops, Last(run).next) ==> [Last(run).next] in Last(longer).pending
  {
    LastKeeps(ops, pip, run);
    var s := Last(run);
    var op := ops[s.next];
    var s' := if op.ParallelUnsafe() then s.(next := s.next + 1, serial := s.serial + [s.next])
              else if op.source.Git? then
                var r := op.source.repository;
                s.(next := s.next + 1, git := s.git[r := GitList(s.git, r) + [s.next]])
              else s.(next := s.next + 1, pending := s.pending + {[s.next]});
    assert Submit(ops, s, s');
    Extend(ops, pip, run, s');
    longer := run + [s'];
  }

  lemma {:induction false} HandOut(ops: seq<Operation>, pip: bool, run: seq<State>, k: nat)
    returns (longer: seq<State>)
    requires IsRun(ops, pip, run) && Last(run).phase == Submitting && !Last(run).shutdown
    requires Last(run).lo <= |ops| && Last(run).next <= k <= GroupEnd(ops, Last(run).lo)
    ensures IsRun(ops, pip, longer) && HandsOut(Last(run), Last(longer)) && Last(longer).next == k
    ensures forall o: Id :: Last(run).next <= o < k && EarlyTask(ops, o) ==> [o] in Last(longer).pending
    decreases k - Last(run).next
  {
    longer := run;
    if Last(run).next < k {
      var one := HandOutOne(ops, pip, run);
      longer := HandOut(ops, pip, one, k);
    }
  }

  lemma {:induction false} StartTask(ops: seq<Operation>, pip: bool, run: seq<State>, t: Task)
    returns (longer: seq<State>)
    requires IsRun(ops, pip, run) && t in Last(run).pending && t != []
    ensures IsRun(ops, pip, longer) && |longer| == |run| + 1
    ensures Last(longer) == Last(run).(pending := Last(run).pending - {t}, active := Last(run).active + {t},
                                       log := Last(run).log + [t[0]])
  {
    var s := Last(run);
    var s' := s.(pending := s.pending - {t}, active := s.active + {t}, log := s.log + [t[0]]);
    assert Start(s, s', t);
    Extend(ops, pip, run, s');
    longer := run + [s'];
  }

  lemma {:induction false} FinishTask(ops: seq<Operation>, pip: bool, run: seq<State>, t: Task, ok: bool)
    returns (longer: seq<State>)
    requires IsRun(ops, pip, run) && t in Last(run).active && t != []
    ensures IsRun(ops, pip, longer) && |longer| == |run| + 1 && Finish(Last(run), Last(longer), t, ok)
  {
    var s := Last(run);
    var ended := s.(finished := s.finished + {t[0]}, failed := if ok then s.failed else s.failed + {t[0]},
                    shutdown := s.shutdown || !ok);
    var s' := if t[1..] == [] then ended.(active := s.active - {t})
              else ended.(active := s.active - {t} + {t[1..]}, log := s.log + [t[1]]);
    assert Finish(s, s', t, ok);
    Extend(ops, pip, run, s');
    longer := run + [s'];
  }

  lemma {:induction false} CloseGroup(ops: seq<Operation>, pip: bool, run: seq<State>) returns (longer: seq<State>)
    requires IsRun(ops, pip, run) && Last(run).phase == Submitting && Last(run).lo <= |ops|
    requires Last(run).next == GroupEnd(ops, Last(run).lo) || Last(run).shutdown
    ensures IsRun(ops, pip, longer) && SubmitRepositories(ops, Last(run), Last(longer))
  {
    var s := Last(run);
    var s' := s.(phase := Waiting, pending := s.pending + (set r | r in s.git :: s.git[r]), git := map[]);
    assert SubmitRepositories(ops, s, s');
    Extend(ops, pip, run, s');
    longer := run + [s'];
  }

  /** The same group, with the same operations handed out and the same verdict. */
  predicate SameGroup(s: State, s': State) {
    s'.lo == s.lo && s'.next == s.next && s'.serial == s.serial && s'.shutdown == s.shutdown
  }

  /** The workers do all that they have been given. */
  lemma {:induction false} Drain(ops: seq<Operation>, pip: bool, run: seq<State>) returns (longer: seq<State>)
    requires IsRun(ops, pip, run) && Last(run).phase == Waiting
    ensures IsRun(ops, pip, longer) && Last(longer).phase == Waiting && SameGroup(Last(run), Last(longer))
    ensures Last(longer).pending == {} && Last(longer).active == {}
    decreases 6 * |ops| + 9 - |run|
  {
    LastKeeps(ops, pip, run);
    RunsAreFinite(ops, pip, run);
    var s := Last(run);
    if t :| t in s.active {
      assert t in Tasks(s);
      var more := FinishTask(ops, pip, run, t, true);
      RunsAreFinite(ops, pip, more);
      longer := Drain(ops, pip, more);
    } else if t :| t in s.pending {
      assert t in Tasks(s);
      var more := StartTask(ops, pip, run, t);
      RunsAreFinite(ops, pip, more);
      longer := Drain(ops, pip, more);
    } else {
      longer := run;
    }
  }

  lemma {:induction false} BeginSerial(ops: seq<Operation>, pip: bool, run: seq<State>) returns (longer: seq<State>)
    requires IsRun(ops, pip, run) && Last(run).phase == Waiting
    requires Last(run).pending == {} && Last(run).active == {}
    ensures IsRun(ops, pip, longer) && Last(longer) == Last(run).(phase := Serial, position := 0, running := false)
  {
    var s := Last(run);
    var s' := s.(phase := Serial, position := 0, running := false);
    assert Waited(s, s');
    Extend(ops, pip, run, s');
    longer := run + [s'];
  }

  lemma {:induction false} BeginOne(ops: seq<Operation>, pip: bool, run: seq<State>) returns (longer: seq<State>)
    requires IsRun(ops, pip, run) && Last(run).phase == Serial && !Last(run).running
    requires Last(run).position < |Last(run).serial|
    ensures IsRun(ops, pip, longer) && SerialStart(Last(run), Last(longer))
  {
    var s := Last(run);
    var s' := s.(running := true, log := s.log + [s.serial[s.position]]);
    assert SerialStart(s, s');
    Extend(ops, pip, run, s');
    longer := run + [s'];
  }

  lemma {:induction false} SerialUpTo(ops: seq<Operation>, pip: bool, run: seq<State>, k: nat)
    returns (longer: seq<State>)
    requires IsRun(ops, pip, run) && Last(run).phase == Serial && !Last(run).running
    requires Last(run).position <= k <= |Last(run).serial|
    ensures IsRun(ops, pip, longer) && Last(longer).phase == Serial && !Last(longer).running
    ensures Last(longer).position == k && SameGroup(Last(run), Last(longer))
    decreases k - Last(run).position
  {
    longer := run;
    if Last(run).position < k {
      var begun := BeginOne(ops, pip, run);
      var s := Last(begun);
      var s' := s.(running := false, position := s.position + 1, finished := s.finished + {s.serial[s.position]});
      assert SerialFinish(s, s', true);
      Extend(ops, pip, begun, s');
      longer := SerialUpTo(ops, pip, begun + [s'], k);
    }
  }

  /** From the end of handing out to the point where `k` of the unsafe operations have been executed. */
  lemma {:induction false} ToSerial(ops: seq<Operation>, pip: bool, run: seq<State>, k: nat)
    returns (longer: seq<State>)
    requires IsRun(ops, pip, run) && Last(run).phase == Submitting && Last(run).lo <= |ops|
    requires Last(run).next == GroupEnd(ops, Last(run).lo) || Last(run).shutdown
    requires k <= |Last(run).serial|
    ensures IsRun(ops, pip, longer) && Last(longer).phase == Serial && !Last(longer).running
    ensures Last(longer).position == k && SameGroup(Last(run), Last(longer))
  {
    var closed := CloseGroup(ops, pip, run);
    var drained := Drain(ops, pip, closed);
    var waited := BeginSerial(ops, pip, drained);
    longer := SerialUpTo(ops, pip, waited, k);
  }

  // ----- the way to a group

  ghost predicate AtGroup(ops: seq<Operation>, s: State) {
    && s.phase == Submitting && s.lo == s.next && s.lo <= |ops| && !s.shutdown
    && s.pending == {} && s.active == {}
  }

  lemma {:induction false} FirstGroup(ops: seq<Operation>, pip: bool) returns (run: seq<State>)
    ensures IsRun(ops, pip, run) && AtGroup(ops, Last(run)) && Last(run).lo == 0
  {
    var s := State(if pip then Piping else Submitting, 0, 0, if pip then {[|ops|]} else {}, {},
                   [], 0, false, map[], {}, {}, false, []);
    run := [s];
    if pip {
      run := StartTask(ops, pip, run, [|ops|]);
      run := FinishTask(ops, pip, run, [|ops|], true);
      var s' := Last(run).(phase := Submitting);
      assert PipDone(Last(run), s');
      Extend(ops, pip, run, s');
      run := run + [s'];
    }
  }

  lemma {:induction false} NextGroup(ops: seq<Operation>, pip: bool, run: seq<State>) returns (longer: seq<State>)
    requires IsRun(ops, pip, run) && AtGroup(ops, Last(run)) && GroupEnd(ops, Last(run).lo) < |ops|
    ensures IsRun(ops, pip, longer) && AtGroup(ops, Last(longer))
    ensures Last(longer).lo == GroupEnd(ops, Last(run).lo)
  {
    var handed := HandOut(ops, pip, run, GroupEnd(ops, Last(run).lo));
    var through := ToSerial(ops, pip, handed, |Last(handed).serial|);
    LastKeeps(ops, pip, through);
    var s, hi := Last(through), GroupEnd(ops, Last(run).lo);
    var s' := s.(phase := Submitting, lo := hi, next := hi, serial := [], position := 0);
    assert GroupDone(ops, s, s');
    Extend(ops, pip, through, s');
    longer := through + [s'];
  }

  lemma {:induction false} ReachGroupFrom(ops: seq<Operation>, pip: bool, run: seq<State>, p: Id)
    returns (longer: seq<State>)
    requires IsRun(ops, pip, run) && AtGroup(ops, Last(run)) && Last(run).lo <= p < |ops|
    ensures IsRun(ops, pip, longer) && AtGroup(ops, Last(longer))
    ensures Last(longer).lo <= p < GroupEnd(ops, Last(longer).lo)
    decreases |ops| - Last(run).lo
  {
    if p < GroupEnd(ops, Last(run).lo) {
      longer := run;
    } else {
      var more := NextGroup(ops, pip, run);
      longer := ReachGroupFrom(ops, pip, more, p);
    }
  }

  lemma {:induction false} ReachGroup(ops: seq<Operation>, pip: bool, p: Id) returns (run: seq<State>)
    requires p < |ops|
    ensures IsRun(ops, pip, run) && AtGroup(ops, Last(run))
    ensures Last(run).lo <= p < GroupEnd(ops, Last(run).lo)
  {
    run := FirstGroup(ops, pip);
    run := ReachGroupFrom(ops, pip, run, p);
  }

  // ----- runs that show what is not ordered

  /** At the end of the run `p` has started and `q` has not finished. */
  ghost predicate Overtakes(ops: seq<Operation>, pip: bool, run: seq<State>, q: Id, p: Id) {
    IsRun(ops, pip, run) && Started(Last(run), p) && q !in Last(run).finished
  }

  /** A task on its own may be the first of its group to start. */
  lemma {:induction false} EarlyOvertakes(ops: seq<Operation>, pip: bool, q: Id, p: Id) returns (run: seq<State>)
    requires q < |ops| && EarlyTask(ops, p) && Descending(ops) && !Above(ops[q].priority, ops[p].priority)
    ensures Overtakes(ops, pip, run, q, p) && !Last(run).shutdown
  {
    run := ReachGroup(ops, pip, p);
    NotYet(ops, pip, run, q, p);
    run := HandOut(ops, pip, run, p);
    run := HandOutOne(ops, pip, run);
    run := StartTask(ops, pip, run, [p]);
    assert Heads(Last(run).active, p);
  }

  lemma {:induction false} NotYet(ops: seq<Operation>, pip: bool, run: seq<State>, q: Id, p: Id)
    requires IsRun(ops, pip, run) && AtGroup(ops, Last(run)) && Descending(ops)
    requires Last(run).lo <= p < |ops| && q < |ops| && !Above(ops[q].priority, ops[p].priority)
    ensures q >= Last(run).lo && q !in Last(run).finished
  {
    LastKeeps(ops, pip, run);
    if q < Last(run).lo {
      assert !Above(ops[p].priority, ops[q].priority);
      SamePriorityIsOneGroup(ops, Last(run).lo, q, p);
    }
  }

  /** The task of a repository is executed up to one of its operations. */
  lemma {:induction false} RunTask(ops: seq<Operation>, pip: bool, run: seq<State>, t: Task, k: nat)
    returns (longer: seq<State>)
    requires IsRun(ops, pip, run) && t in Last(run).active && k < |t| && !Last(run).shutdown
    ensures IsRun(ops, pip, longer) && Heads(Last(longer).active, t[k]) && !Last(longer).shutdown
    ensures forall o <- Last(longer).finished :: o in Last(run).finished || o in t[..k]
    ensures Last(longer).pending == Last(run).pending
    ensures forall o: Id :: Heads(Last(run).active, o) && o !in t ==> Heads(Last(longer).active, o)
    decreases k
  {
    longer := run;
    if k == 0 {
      assert t[0] == t[k];
    } else {
      var more := FinishTask(ops, pip, run, t, true);
      forall o: Id | Heads(Last(run).active, o) && o !in t ensures Heads(Last(more).active, o) {
        var u :| u in Last(run).active && u != [] && u[0] == o;
        assert u in Last(more).active;
      }
      longer := RunTask(ops, pip, more, t[1..], k - 1);
      assert t[..k] == [t[0]] + t[1..][..k - 1];
    }
  }

  /** An operation on a repository starts after those before it on the same repository only. */
  lemma {:induction false} RepositoryOvertakes(ops: seq<Operation>, pip: bool, q: Id, p: Id) returns (run: seq<State>)
    requires q < |ops| && p < |ops| && Descending(ops) && !Above(ops[q].priority, ops[p].priority)
    requires !ops[p].ParallelUnsafe() && ops[p].source.Git?
    requires !(q < p && !ops[q].ParallelUnsafe() && SameRepository(ops, q, p))
    ensures Overtakes(ops, pip, run, q, p) && !Last(run).shutdown
  {
    run := ReachGroup(ops, pip, p);
    NotYet(ops, pip, run, q, p);
    run := HandOut(ops, pip, run, GroupEnd(ops, Last(run).lo));
    LastKeeps(ops, pip, run);
    var s, r := Last(run), ops[p].source.repository;
    assert HandedToWorkers(ops, s, p);
    var t := s.git[r];
    assert RepositoryList(ops, s, r, t) && RepositoryOrder(ops, s, t);
    var k :| 0 <= k < |t| && t[k] == p;
    run := CloseGroup(ops, pip, run);
    run := StartTask(ops, pip, run, t);
    run := RunTask(ops, pip, run, t, k);
    forall o <- t[..k] ensures o != q {
      assert o in t;
    }
  }

  /** The unsafe operations of a group are executed in the order of the list, after the workers' tasks. */
  lemma {:induction false} SerialStarts(ops: seq<Operation>, pip: bool, run: seq<State>, p: Id)
    returns (longer: seq<State>)
    requires IsRun(ops, pip, run) && Last(run).phase == Submitting && Last(run).lo <= |ops|
    requires Last(run).next == GroupEnd(ops, Last(run).lo) || Last(run).shutdown
    requires p < |ops| && ops[p].ParallelUnsafe() && Last(run).lo <= p < Last(run).next
    ensures IsRun(ops, pip, longer) && Started(Last(longer), p) && SameGroup(Last(run), Last(longer))
    ensures forall o: Id :: p <= o < |ops| && ops[o].ParallelUnsafe() ==> o !in Last(longer).finished
  {
    LastKeeps(ops, pip, run);
    assert p in Last(run).serial;
    var k :| 0 <= k < |Last(run).serial| && Last(run).serial[k] == p;
    longer := ToSerial(ops, pip, run, k);
    longer := BeginOne(ops, pip, longer);
    LastKeeps(ops, pip, longer);
    var s := Last(longer);
    forall o: Id | p <= o < |ops| && ops[o].ParallelUnsafe() ensures o !in s.finished {
      if o < s.next {
        assert o in s.serial;
      }
    }
  }

  lemma {:induction false} UnsafeOvertakes(ops: seq<Operation>, pip: bool, q: Id, p: Id) returns (run: seq<State>)
    requires q < |ops| && p < |ops| && Descending(ops) && ops[p].ParallelUnsafe()
    requires !ComesFirst(ops, q, p)
    ensures Overtakes(ops, pip, run, q, p) && !Last(run).shutdown
  {
    run := ReachGroup(ops, pip, p);
    NotYet(ops, pip, run, q, p);
    run := HandOut(ops, pip, run, GroupEnd(ops, Last(run).lo));
    run := SerialStarts(ops, pip, run, p);
    LastKeeps(ops, pip, run);
  }

  /** A task fails while the group is being handed out: the unsafe operations handed out so far start all the same. */
  lemma {:induction false} CutOffOvertakes(ops: seq<Operation>, pip: bool, q: Id, p: Id) returns (run: seq<State>)
    requires p < q < |ops| && Descending(ops) && ops[p].ParallelUnsafe()
    requires ops[q].priority == ops[p].priority && MayBeCutOff(ops, q)
    ensures Overtakes(ops, pip, run, q, p)
  {
    var o: Id :| o < q && EarlyTask(ops, o) && ops[o].priority == ops[q].priority;
    run := ReachGroup(ops, pip, p);
    LastKeeps(ops, pip, run);
    SamePriorityIsOneGroup(ops, Last(run).lo, q, p);
    SamePriorityIsOneGroup(ops, Last(run).lo, o, p);
    run := HandOut(ops, pip, run, o);
    run := HandOutOne(ops, pip, run);
    run := StartTask(ops, pip, run, [o]);
    run := HandOut(ops, pip, run, q);
    run := FinishTask(ops, pip, run, [o], false);
    run := SerialStarts(ops, pip, run, p);
    LastKeeps(ops, pip, run);
  }

  // ----- exactly what is ordered

  /** In every state of every run, `q` has finished if `p` has started. */
  ghost predicate AlwaysFirst(ops: seq<Operation>, pip: bool, q: Id, p: Id) {
    forall run: seq<State>, i: nat :: IsRun(ops, pip, run) && i < |run| && Started(run[i], p) ==> q in run[i].finished
  }

  /** Likewise, as long as nothing has failed and no interrupt has come. */
  ghost predicate FirstUnlessShutDown(ops: seq<Operation>, pip: bool, q: Id, p: Id) {
    forall run: seq<State>, i: nat :: IsRun(ops, pip, run) && i < |run| && Started(run[i], p) && !run[i].shutdown ==>
      q in run[i].finished
  }

  lemma {:induction false} Unordered(ops: seq<Operation>, pip: bool, q: Id, p: Id) returns (run: seq<State>)
    requires q < |ops| && p < |ops| && Descending(ops) && !ComesFirst(ops, q, p)
    ensures Overtakes(ops, pip, run, q, p) && !Last(run).shutdown
  {
    if ops[p].ParallelUnsafe() {
      run := UnsafeOvertakes(ops, pip, q, p);
    } else if ops[p].source.Git? {
      run := RepositoryOvertakes(ops, pip, q, p);
    } else {
      run := EarlyOvertakes(ops, pip, q, p);
    }
  }

  /**
   Unless something fails or is interrupted, an operation has finished whenever another one starts exactly if
   it has the higher priority; or, with the same priority, if only the other one is unsafe; or if it comes
   earlier and both are unsafe or are both safe and work on one repository.
   */
  lemma {:induction false} FirstUnlessShutDownExactly(ops: seq<Operation>, pip: bool, q: Id, p: Id)
    requires q < |ops| && p < |ops| && Descending(ops)
    ensures FirstUnlessShutDown(ops, pip, q, p) <==> ComesFirst(ops, q, p)
  {
    if ComesFirst(ops, q, p) {
      forall run: seq<State>, i: nat | IsRun(ops, pip, run) && i < |run| && Started(run[i], p) && !run[i].shutdown
        ensures q in run[i].finished
      {
        FinishedFirst(ops, pip, run, i, q, p);
      }
    } else {
      var run := Unordered(ops, pip, q, p);
      assert run[|run| - 1] == Last(run);
    }
  }

  /**
   In all runs there is one exception: a task that fails while the group is still being handed out keeps the
   rest of the group from being handed out, and the unsafe operations before it start nevertheless.
   */
  lemma {:induction false} AlwaysFirstExactly(ops: seq<Operation>, pip: bool, q: Id, p: Id)
    requires q < |ops| && p < |ops| && Descending(ops)
    ensures AlwaysFirst(ops, pip, q, p) <==> ComesFirstAlways(ops, q, p)
  {
    if ComesFirstAlways(ops, q, p) {
      forall run: seq<State>, i: nat | IsRun(ops, pip, run) && i < |run| && Started(run[i], p)
        ensures q in run[i].finished
      {
        FinishedFirst(ops, pip, run, i, q, p);
      }
    } else if ComesFirst(ops, q, p) {
      var run := CutOffOvertakes(ops, pip, q, p);
      assert run[|run| - 1] == Last(run);
    } else {
      var run := Unordered(ops, pip, q, p);
      assert run[|run| - 1] == Last(run);
    }
  }
}
