/** Two forked processes that increment one counter in shared memory under a System V
    semaphore which the first of them to finish deletes. */
module ForkCounter {
  import opened Basics

  // The call or access a process makes next: semP, the loop test with the load, the store,
  // semV, the removal of the semaphore.
  datatype Pc = AtP | AtLoop | AtStore | AtV | AtRemove | Done

  // i is the loop variable and reg the value loaded from shared memory.
  datatype Process = Process(pc: Pc, i: nat, reg: int)

  datatype Semaphore = Removed | Value(v: nat)

  datatype Sys = Sys(sem: Semaphore, counter: int, procs: seq<Process>)

  ghost predicate Init(s: Sys, start: int) {
    s.sem == Value(1) && s.counter == start && s.procs == [Process(AtP, 0, 0), Process(AtP, 0, 0)]
  }

  // semP blocks while the value is 0; it fails, and the failure is ignored, once the
  // semaphore is gone.
  predicate Enabled(s: Sys, p: nat) {
    p < |s.procs| && s.procs[p].pc != Done && (s.procs[p].pc == AtP ==> s.sem != Value(0))
  }

  function Step(s: Sys, p: nat, num: int): Sys
    requires Enabled(s, p)
  {
    var q := s.procs[p];
    match q.pc
    case AtP =>
      var sem := if s.sem.Removed? then Removed else Value(s.sem.v - 1);
      Sys(sem, s.counter, s.procs[p := q.(pc := AtLoop, i := 0)])
    case AtLoop =>
      if q.i < num then s.(procs := s.procs[p := q.(pc := AtStore, reg := s.counter)])
      else s.(procs := s.procs[p := q.(pc := AtV)])
    case AtStore => Sys(s.sem, q.reg + 1, s.procs[p := q.(pc := AtLoop, i := q.i + 1)])
    case AtV =>
      var sem := if s.sem.Removed? then Removed else Value(s.sem.v + 1);
      Sys(sem, s.counter, s.procs[p := q.(pc := AtRemove)])
    case AtRemove => Sys(Removed, s.counter, s.procs[p := q.(pc := Done)])
  }

  // A run: schedule[k] is the process that makes the k-th step.
  ghost predicate IsRun(trace: seq<Sys>, schedule: seq<nat>, num: int, start: int) {
    && |trace| == |schedule| + 1
    && Init(trace[0], start)
    && forall k :: 0 <= k < |schedule| ==> Enabled(trace[k], schedule[k]) && trace[k + 1] == Step(trace[k], schedule[k], num)
  }

  predicate InLoop(q: Process) {
    q.pc == AtLoop || q.pc == AtStore || q.pc == AtV
  }

  // How often the loop body runs; argv may hold a negative number.
  function Times(num: int): nat {
    if num < 0 then 0 else num
  }

  // The increments that a process has completed.
  function Increments(q: Process, num: int): nat {
    match q.pc
    case AtP => 0
    case AtLoop => q.i
    case AtStore => q.i
    case _ => Times(num)
  }

  ghost predicate Inv(s: Sys, num: int, start: int) {
    && |s.procs| == 2
    && (match s.sem
        case Value(v) => v + One(InLoop(s.procs[0])) + One(InLoop(s.procs[1])) == 1 && s.procs[0].pc != Done && s.procs[1].pc != Done
        case Removed => s.procs[0].pc == Done || s.procs[1].pc == Done)
    && s.counter == start + Increments(s.procs[0], num) + Increments(s.procs[1], num)
    && (forall p :: 0 <= p < 2 ==> s.procs[p].i <= Times(num))
    && (forall p :: 0 <= p < 2 && s.procs[p].pc == AtStore ==> s.procs[p].reg == s.counter && s.procs[p].i < num)
  }

  lemma {:induction false} StepInv(s: Sys, p: nat, num: int, start: int)
    requires Inv(s, num, start) && Enabled(s, p)
    ensures Inv(Step(s, p, num), num, start)
  {}

  lemma {:induction false} RunInv(trace: seq<Sys>, schedule: seq<nat>, num: int, start: int, k: nat)
    requires IsRun(trace, schedule, num, start) && k < |trace|
    ensures Inv(trace[k], num, start)
  {
    if k == 0 {
    } else {
      RunInv(trace, schedule, num, start, k - 1);
      StepInv(trace[k - 1], schedule[k - 1], num, start);
    }
  }

  // The steps a process still has to make.
  function Remaining(q: Process, num: int): int {
    match q.pc
    case AtP => 2 * Times(num) + 4
    case AtLoop => 2 * (Times(num) - q.i) + 3
    case AtStore => 2 * (Times(num) - q.i) + 2
    case AtV => 2
    case AtRemove => 1
    case Done => 0
  }

  lemma {:induction false} StepRemaining(s: Sys, p: nat, num: int, start: int)
    requires Inv(s, num, start) && Enabled(s, p)
    ensures var s' := Step(s, p, num);
      |s'.procs| == 2 && Remaining(s'.procs[p], num) == Remaining(s.procs[p], num) - 1 && s'.procs[1 - p] == s.procs[1 - p]
  {}

  lemma {:induction false} RunLength(trace: seq<Sys>, schedule: seq<nat>, num: int, start: int, k: nat)
    requires IsRun(trace, schedule, num, start) && k < |trace|
    ensures Inv(trace[k], num, start)
    ensures Remaining(trace[k].procs[0], num) + Remaining(trace[k].procs[1], num) + k == 4 * Times(num) + 8
  {
    RunInv(trace, schedule, num, start, k);
    if k == 0 {
    } else {
      var j := k - 1;
      RunLength(trace, schedule, num, start, j);
      StepRemaining(trace[j], schedule[j], num, start);
    }
  }

  // Mutual exclusion in every interleaving: the two processes are never in the increment loop
  // together, although after the deletion semP no longer excludes anybody.
  lemma {:induction false} MutualExclusion(trace: seq<Sys>, schedule: seq<nat>, num: int, start: int, k: nat)
    requires IsRun(trace, schedule, num, start) && k < |trace|
    ensures |trace[k].procs| == 2
    ensures !(InLoop(trace[k].procs[0]) && InLoop(trace[k].procs[1]))
  {
    RunInv(trace, schedule, num, start, k);
  }

  // What the exclusion is for: from a state with both processes in the loop, which no run reaches,
  // two loads before two stores lose one of the increments.
  lemma {:induction false} LostUpdate(s: Sys, num: int)
    requires |s.procs| == 2 && forall p :: 0 <= p < 2 ==> s.procs[p].pc == AtLoop && s.procs[p].i < num
    ensures Enabled(s, 0) && Enabled(Step(s, 0, num), 1)
    ensures var t := Step(Step(s, 0, num), 1, num);
      Enabled(t, 0) && Enabled(Step(t, 0, num), 1) && Step(Step(t, 0, num), 1, num).counter == s.counter + 1
  {
    var t := Step(Step(s, 0, num), 1, num);
    assert t.procs[0].reg == t.procs[1].reg == s.counter;
    var u := Step(t, 0, num);
    assert u.procs[1] == t.procs[1];
  }

  // Every run takes at most 4 * num + 8 steps; it can stop only with both processes done, and
  // then no increment has been lost, although load and store are separate steps.
  lemma {:induction false} CounterTotal(trace: seq<Sys>, schedule: seq<nat>, num: int, start: int)
    requires IsRun(trace, schedule, num, start)
    ensures |schedule| <= 4 * Times(num) + 8
    ensures (forall p: nat :: !Enabled(trace[|schedule|], p)) <==> |schedule| == 4 * Times(num) + 8
    ensures |schedule| == 4 * Times(num) + 8 ==> trace[|schedule|].counter == start + 2 * Times(num)
  {
    RunLength(trace, schedule, num, start, |schedule|);
    var s := trace[|schedule|];
    if forall p: nat :: !Enabled(s, p) {
      assert !Enabled(s, 0) && !Enabled(s, 1);
    }
  }
}
