/** Three threads that print A, B and C in turn, each waiting on its own semaphore and posting
    the next one's. */
module SemaphoreRing {
  import opened Basics

  datatype Pc = AtWait | AtPrint | AtPost

  datatype Sys = Sys(sems: seq<nat>, pcs: seq<Pc>, output: seq<char>)

  const LETTERS := ['A', 'B', 'C']

  ghost predicate Init(s: Sys) {
    s == Sys([1, 0, 0], [AtWait, AtWait, AtWait], [])
  }

  predicate Enabled(s: Sys, t: nat) {
    t < 3 && |s.sems| == 3 && |s.pcs| == 3 && (s.pcs[t] == AtWait ==> s.sems[t] > 0)
  }

  function Step(s: Sys, t: nat): Sys
    requires Enabled(s, t)
  {
    match s.pcs[t]
    case AtWait => s.(sems := s.sems[t := s.sems[t] - 1], pcs := s.pcs[t := AtPrint])
    case AtPrint => s.(output := s.output + [LETTERS[t]], pcs := s.pcs[t := AtPost])
    case AtPost => var next := if t == 2 then 0 else t + 1;
      s.(sems := s.sems[next := s.sems[next] + 1], pcs := s.pcs[t := AtWait])
  }

  ghost predicate IsRun(trace: seq<Sys>, schedule: seq<nat>) {
    && |trace| == |schedule| + 1
    && Init(trace[0])
    && forall k :: 0 <= k < |schedule| ==> Enabled(trace[k], schedule[k]) && trace[k + 1] == Step(trace[k], schedule[k])
  }

  // The semaphore values and the threads between wait and post.
  function Tokens(s: Sys): nat
    requires |s.sems| == 3 && |s.pcs| == 3
  {
    s.sems[0] + s.sems[1] + s.sems[2] + One(s.pcs[0] != AtWait) + One(s.pcs[1] != AtWait) + One(s.pcs[2] != AtWait)
  }

  // Where the token is, given how much has been printed: with the thread whose letter comes
  // next, or with the last printer on its way to post.
  ghost predicate Inv(s: Sys) {
    && |s.sems| == 3 && |s.pcs| == 3 && Tokens(s) == 1
    && (forall k :: 0 <= k < |s.output| ==> s.output[k] == LETTERS[k % 3])
    && (forall t :: 0 <= t < 3 && (s.sems[t] > 0 || s.pcs[t] == AtPrint) ==> t == |s.output| % 3)
    && (forall t :: 0 <= t < 3 && s.pcs[t] == AtPost ==> t == (|s.output| + 2) % 3)
  }

  lemma {:induction false} StepInv(s: Sys, t: nat)
    requires Inv(s) && Enabled(s, t)
    ensures Inv(Step(s, t))
  {
    var n := |s.output|;
    assert (n + 1) % 3 == if n % 3 == 2 then 0 else n % 3 + 1;
    assert (n + 2) % 3 == if n % 3 == 0 then 2 else n % 3 - 1;
    assert (n + 3) % 3 == n % 3;
  }

  lemma {:induction false} RunInv(trace: seq<Sys>, schedule: seq<nat>, k: nat)
    requires IsRun(trace, schedule) && k < |trace|
    ensures Inv(trace[k])
  {
    if k == 0 {
    } else {
      RunInv(trace, schedule, k - 1);
      StepInv(trace[k - 1], schedule[k - 1]);
    }
  }

  lemma {:induction false} OneEnabled(s: Sys)
    requires Inv(s)
    ensures exists t: nat :: Enabled(s, t)
    ensures forall t: nat, u: nat :: Enabled(s, t) && Enabled(s, u) ==> t == u
  {
    assert Enabled(s, 0) || Enabled(s, 1) || Enabled(s, 2);
  }

  // In every interleaving the output is a prefix of ABCABC..., the tokens total 1, and exactly
  // one thread can move: there is no deadlock and no choice.
  lemma {:induction false} Ring(trace: seq<Sys>, schedule: seq<nat>, k: nat)
    requires IsRun(trace, schedule) && k < |trace|
    ensures |trace[k].sems| == 3 && |trace[k].pcs| == 3 && Tokens(trace[k]) == 1
    ensures forall j :: 0 <= j < |trace[k].output| ==> trace[k].output[j] == ['A', 'B', 'C'][j % 3]
    ensures exists t: nat :: Enabled(trace[k], t)
    ensures forall t: nat, u: nat :: Enabled(trace[k], t) && Enabled(trace[k], u) ==> t == u
  {
    RunInv(trace, schedule, k);
    OneEnabled(trace[k]);
  }

  predicate SomeAt(s: Sys, pc: Pc)
    requires |s.pcs| == 3
  {
    s.pcs[0] == pc || s.pcs[1] == pc || s.pcs[2] == pc
  }

  lemma {:induction false} StepPace(s: Sys, t: nat)
    requires Inv(s) && Enabled(s, t)
    ensures var s' := Step(s, t);
      3 * |s'.output| + One(SomeAt(s', AtPrint)) - One(SomeAt(s', AtPost)) ==
      3 * |s.output| + One(SomeAt(s, AtPrint)) - One(SomeAt(s, AtPost)) + 1
  {}

  // And no thread starves: every third step prints the next letter.
  lemma {:induction false} Pace(trace: seq<Sys>, schedule: seq<nat>, k: nat)
    requires IsRun(trace, schedule) && k < |trace|
    ensures |trace[k].pcs| == 3
    ensures k == 3 * |trace[k].output| + One(SomeAt(trace[k], AtPrint)) - One(SomeAt(trace[k], AtPost))
  {
    if k == 0 {
    } else {
      var j := k - 1;
      Pace(trace, schedule, j);
      RunInv(trace, schedule, j);
      StepPace(trace[j], schedule[j]);
    }
    RunInv(trace, schedule, k);
  }
}
