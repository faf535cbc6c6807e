/**
 The executor's schedule (`Executor.execute` in `src/poetry/installation/executor.py`) as a system of
 steps: the main thread submits, waits and runs operations itself, while workers take tasks from the
 queue in any order and at any pace. Operations are named by their position in the sorted list, so
 that the groups of equal priority are intervals; pip, which goes first, is named by the list's length.
 */
module Schedules {
  import opened Priorities

  datatype Source = Directory | Git(repository: string) | Elsewhere

  datatype Operation = Operation(uninstall: bool, develop: bool, source: Source, skipped: bool, priority: Priority) {
    /** Operations that must have the whole machinery for themselves. */
    predicate ParallelUnsafe() {
      !skipped && (uninstall || (develop && !source.Elsewhere?))
    }
  }

  type Id = nat
  type Task = seq<Id>

  datatype Phase =
    | Piping       // waiting for pip
    | Submitting   // handing out the current group
    | Waiting      // waiting for the tasks of the group
    | Serial       // running the unsafe operations of the group
    | Cancelling   // interrupted, with the queue not yet cleared
    | Draining     // queue cleared, running tasks are awaited
    | Halted       // stopped by a failure or an interrupt
    | Completed

  datatype State = State(
    phase: Phase,
    lo: nat, next: nat,                       // the current group starts at lo; next is handed out next
    pending: set<Task>, active: set<Task>,    // queued tasks; tasks being run, each by its first operation
    serial: seq<Id>, position: nat, running: bool,
    git: map<string, seq<Id>>,
    finished: set<Id>, failed: set<Id>, shutdown: bool,
    log: seq<Id>)                             // the operations in the order in which they were started

  /** The end of the run of equal priorities that starts at `lo`. */
  function GroupEnd(ops: seq<Operation>, lo: nat): (hi: nat)
    requires lo <= |ops|
    ensures lo <= hi <= |ops| && (lo < |ops| ==> lo < hi)
    ensures forall i :: lo <= i < hi ==> ops[i].priority == ops[lo].priority
    ensures lo < hi < |ops| ==> ops[hi].priority != ops[lo].priority
    decreases |ops| - lo
  {
    if lo == |ops| then lo
    else if lo + 1 < |ops| && ops[lo + 1].priority == ops[lo].priority then GroupEnd(ops, lo + 1)
    else lo + 1
  }

  function GitList(git: map<string, seq<Id>>, r: string): seq<Id> {
    if r in git then git[r] else []
  }

  // ----- the steps

  predicate Init(ops: seq<Operation>, pip: bool, s: State) {
    s == State(if pip then Piping else Submitting, 0, 0, if pip then {[|ops|]} else {}, {},
               [], 0, false, map[], {}, {}, false, [])
  }

  /** The main thread, having waited for pip, turns to the first group. */
  predicate PipDone(s: State, s': State) {
    && s.phase == Piping && s.pending == {} && s.active == {}
    && s' == s.(phase := Submitting)
  }

  /** The main thread hands out one operation, unless a shutdown has been noticed. */
  predicate Submit(ops: seq<Operation>, s: State, s': State) {
    && s.phase == Submitting && s.lo <= s.next < |ops| && s.next < GroupEnd(ops, s.lo) && !s.shutdown
    && var op := ops[s.next];
       s' == (if op.ParallelUnsafe() then s.(next := s.next + 1, serial := s.serial + [s.next])
              else if op.source.Git? then
                var r := op.source.repository;
                s.(next := s.next + 1, git := s.git[r := GitList(s.git, r) + [s.next]])
              else s.(next := s.next + 1, pending := s.pending + {[s.next]}))
  }

  /** At the end of the group, or at a shutdown, each repository's operations become one task. */
  predicate SubmitRepositories(ops: seq<Operation>, s: State, s': State) {
    && s.phase == Submitting && s.lo <= |ops| && (s.next == GroupEnd(ops, s.lo) || s.shutdown)
    && s' == s.(phase := Waiting, pending := s.pending + (set r | r in s.git :: s.git[r]), git := map[])
  }

  /** A worker takes a task and starts its first operation. */
  predicate Start(s: State, s': State, t: Task) {
    && t in s.pending && t != []
    && s' == s.(pending := s.pending - {t}, active := s.active + {t}, log := s.log + [t[0]])
  }

  /** A worker ends an operation, well or not, and goes on with the next one of its task. */
  predicate Finish(s: State, s': State, t: Task, ok: bool) {
    && t in s.active && t != []
    && var ended := s.(finished := s.finished + {t[0]},
                       failed := if ok then s.failed else s.failed + {t[0]},
                       shutdown := s.shutdown || !ok);
       s' == if t[1..] == [] then ended.(active := s.active - {t})
             else ended.(active := s.active - {t} + {t[1..]}, log := s.log + [t[1]])
  }

  predicate Waited(s: State, s': State) {
    && s.phase == Waiting && s.pending == {} && s.active == {}
    && s' == s.(phase := Serial, position := 0, running := false)
  }

  predicate SerialStart(s: State, s': State) {
    && s.phase == Serial && !s.running && s.position < |s.serial|
    && s' == s.(running := true, log := s.log + [s.serial[s.position]])
  }

  predicate SerialFinish(s: State, s': State, ok: bool) {
    && s.phase == Serial && s.running && s.position < |s.serial|
    && var o := s.serial[s.position];
       s' == s.(running := false, position := s.position + 1, finished := s.finished + {o},
                failed := if ok then s.failed else s.failed + {o}, shutdown := s.shutdown || !ok)
  }

  /** The group is through: on to the next one, unless something failed. */
  predicate GroupDone(ops: seq<Operation>, s: State, s': State) {
    && s.phase == Serial && !s.running && s.position == |s.serial| && s.lo <= |ops|
    && var hi := GroupEnd(ops, s.lo);
       s' == if s.shutdown then s.(phase := Halted)
             else if hi == |ops| then s.(phase := Completed)
             else s.(phase := Submitting, lo := hi, next := hi, serial := [], position := 0)
  }

  /** An interrupt reaches the main thread while it waits or between two unsafe operations. */
  predicate Interrupt(s: State, s': State) {
    && (s.phase == Waiting || (s.phase == Serial && !s.running))
    && s' == s.(phase := Cancelling, shutdown := true)
  }

  /** The pool is shut down: what is still queued is dropped. */
  predicate ClearQueue(s: State, s': State) {
    && s.phase == Cancelling
    && s' == s.(phase := Draining, pending := {})
  }

  predicate Drained(s: State, s': State) {
    && s.phase == Draining && s.active == {}
    && s' == s.(phase := Halted)
  }

  ghost predicate Next(ops: seq<Operation>, s: State, s': State) {
    || PipDone(s, s') || Submit(ops, s, s') || SubmitRepositories(ops, s, s')
    || (exists t :: Start(s, s', t)) || (exists t, ok :: Finish(s, s', t, ok))
    || Waited(s, s') || SerialStart(s, s') || (exists ok :: SerialFinish(s, s', ok))
    || GroupDone(ops, s, s') || Interrupt(s, s') || ClearQueue(s, s') || Drained(s, s')
  }

  ghost predicate IsRun(ops: seq<Operation>, pip: bool, run: seq<State>) {
    && run != [] && Init(ops, pip, run[0])
    && forall i :: 0 <= i < |run| - 1 ==> Next(ops, run[i], run[i + 1])
  }

  // ----- what a state says

  ghost predicate Heads(tasks: set<Task>, o: Id) {
    exists t <- tasks :: t != [] && t[0] == o
  }

  ghost predicate InTasks(tasks: set<Task>, o: Id) {
    exists t <- tasks :: o in t
  }

  /** The operation is being executed right now. */
  ghost predicate InFlight(s: State, o: Id) {
    || Heads(s.active, o)
    || (s.phase == Serial && s.running && s.position < |s.serial| && s.serial[s.position] == o)
  }

  ghost predicate Started(s: State, o: Id) {
    o in s.finished || InFlight(s, o)
  }

  ghost predicate NoDuplicates(ids: seq<Id>) {
    forall i, j :: 0 <= i < j < |ids| ==> ids[i] != ids[j]
  }
}
