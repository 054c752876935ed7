/** What the accept loop does with each client, in every run: who is let in, what becomes of a
    client that is turned away, and how a failing call ends the loop or brings it to a halt. */
module ChatServerLoop {
  import opened Basics
  import opened Runs
  import opened ChatServer

  // A handler's action leaves alone what the accept loop works on.
  lemma {:induction false} HandlersApart(s: Server, a: Action)
    requires Enabled(s, a) && OfHandler(a)
    ensures var t := Step(s, a);
      && t.pc == s.pc && t.newClient == s.newClient && t.fdOf == s.fdOf && |t.handlers| == |s.handlers|
      && t.sockets <= s.sockets && t.added == s.added && t.lost == s.lost && t.sem >= s.sem
  {}

  // What the invariants say of the loop's own variables.
  lemma {:induction false} LoopFacts(trace: seq<Server>, acts: seq<Action>, limits: nat, i: nat)
    requires IsRun(trace, acts, limits) && i < |trace|
    ensures var s := trace[i];
      && s.sem <= 1 && (HasToken(s.pc) || s.lost > 0 ==> s.sem == 0)
      && (Unhanded(s.pc) || s.pc == AtAdd ==> |s.fdOf| > 0 && s.newClient == s.fdOf[|s.fdOf| - 1])
      && (OwnsSocket(s.pc) ==> s.newClient in s.sockets)
  {
    RunInv(trace, acts, limits, i);
  }

  // A client is turned away if and only if every permit is held by a handler that has not ended
  // or lost to a failed creation; otherwise it gets one of those left.
  lemma {:induction false} MemberDecision(trace: seq<Server>, acts: seq<Action>, limits: nat, i: nat)
    requires IsRun(trace, acts, limits) && i < |acts| && acts[i] == TryMember
    ensures var s, t := trace[i], trace[i + 1]; var full := Count(s.handlers, HoldsPermit) + s.lost == limits;
      && (t.pc == AtReject <==> full)
      && (t.pc == AtCreate <==> !full)
      && t.memberMax == (if full then s.memberMax else s.memberMax - 1)
      && t.handlers == s.handlers && t.sockets == s.sockets && t.fdOf == s.fdOf
  {
    RunInv(trace, acts, limits, i);
    assert Next(trace[i], acts[i], trace[i + 1]);
  }

  // The accept loop's own actions among those from i up to j.
  function LoopActs(acts: seq<Action>, i: nat, j: nat): (r: seq<Action>)
    requires i <= j <= |acts|
    decreases j
  {
    if i == j then []
    else LoopActs(acts, i, j - 1) + if OfHandler(acts[j - 1]) then [] else [acts[j - 1]]
  }

  // What the token is for: a handler reads whatever the shared variable holds at that moment, so
  // it would get another client's descriptor if that had been overwritten.
  lemma {:induction false} ReadIff(s: Server, h: nat)
    requires HandlerAt(s, h, AtRead) && s.handlers[h].connection < |s.fdOf|
    ensures var t := Step(s, Read(h));
      t.handlers[h].fd == t.fdOf[t.handlers[h].connection] <==> s.newClient == s.fdOf[s.handlers[h].connection]
  {}

  // ----- A client that is turned away -----

  // Where the loop stands n actions after it has decided to turn the client away.
  predicate Rejecting(pc: Acceptor, n: nat) {
    match n case 0 => pc == AtReject case 1 => pc == AtRejectPost case 2 => pc == AtWait case _ => true
  }

  lemma {:induction false} RejectionStep(s: Server, a: Action, n: nat)
    requires Enabled(s, a) && !OfHandler(a) && n < 2 && Rejecting(s.pc, n)
    ensures a == (if n == 0 then RejectClose else RejectPost)
    ensures Rejecting(Step(s, a).pc, n + 1) && Step(s, a).sem == s.sem + n
    ensures Step(s, a).fdOf == s.fdOf && Step(s, a).handlers == s.handlers && Step(s, a).added == s.added
    ensures Step(s, a).sockets == if n == 0 then s.sockets - {s.newClient} else s.sockets
  {}

  // What has become of state s when the loop has made n of these actions.
  ghost predicate RejectedSince(s: Server, t: Server, n: nat) {
    && Rejecting(t.pc, n)
    && t.fdOf == s.fdOf && |t.handlers| == |s.handlers| && t.added == s.added && t.newClient == s.newClient
    && t.sockets <= s.sockets && (n > 0 ==> s.newClient !in t.sockets) && (n > 1 ==> t.sem > 0)
  }

  lemma {:induction false} RejectedStep(s: Server, t: Server, a: Action, n: nat)
    requires RejectedSince(s, t, n) && Enabled(t, a)
    ensures OfHandler(a) ==> RejectedSince(s, Step(t, a), n)
    ensures !OfHandler(a) && n < 2 ==> a == (if n == 0 then RejectClose else RejectPost) && RejectedSince(s, Step(t, a), n + 1)
  {
    if OfHandler(a) {
      HandlersApart(t, a);
    } else if n < 2 {
      RejectionStep(t, a, n);
    }
  }

  lemma {:induction false} RejectionSoFar(trace: seq<Server>, acts: seq<Action>, limits: nat, i: nat, j: nat)
    requires IsRun(trace, acts, limits) && i <= j < |trace| && trace[i].pc == AtReject && |LoopActs(acts, i, j)| <= 2
    ensures var n := |LoopActs(acts, i, j)|;
      LoopActs(acts, i, j) == [RejectClose, RejectPost][..n] && RejectedSince(trace[i], trace[j], n)
    decreases j
  {
    if i == j {
    } else {
      var k := j - 1;
      RejectionSoFar(trace, acts, limits, i, k);
      assert Next(trace[k], acts[k], trace[k + 1]);
      RejectedStep(trace[i], trace[k], acts[k], |LoopActs(acts, i, k)|);
    }
  }

  // The loop's next two actions after turning a client away close that client's socket, which was
  // open, and hand the token back; no thread is created and nothing is added.
  lemma {:induction false} RejectedClient(trace: seq<Server>, acts: seq<Action>, limits: nat, i: nat, j: nat)
    requires IsRun(trace, acts, limits) && i <= j < |trace| && trace[i].pc == AtReject && |LoopActs(acts, i, j)| == 2
    ensures |trace[i].fdOf| > 0
    ensures var s, t := trace[i], trace[j]; var fd := s.fdOf[|s.fdOf| - 1];
      && LoopActs(acts, i, j) == [RejectClose, RejectPost]
      && fd in s.sockets && fd !in t.sockets
      && t.pc == AtWait && s.sem == 0 && t.sem == 1
      && |t.handlers| == |s.handlers| && t.fdOf == s.fdOf && t.added == s.added
  {
    RejectionSoFar(trace, acts, limits, i, j);
    LoopFacts(trace, acts, limits, i);
    LoopFacts(trace, acts, limits, j);
  }

  // ----- Calls that fail -----

  lemma {:induction false} GoneStays(s: Server, a: Action)
    requires Enabled(s, a) && s.pc == Gone
    ensures OfHandler(a) && Step(s, a).pc == Gone && Step(s, a).fdOf == s.fdOf
  {}

  // A failed accept ends the loop: it never acts again.
  lemma {:induction false} FailedAccept(trace: seq<Server>, acts: seq<Action>, limits: nat, i: nat, j: nat)
    requires IsRun(trace, acts, limits) && i < j < |trace| && acts[i] == AcceptFails
    ensures trace[j].pc == Gone && LoopActs(acts, i + 1, j) == [] && trace[j].fdOf == trace[i].fdOf
    decreases j
  {
    assert Next(trace[i], acts[i], trace[i + 1]);
    StaysGone(trace, acts, limits, i + 1, j);
  }

  lemma {:induction false} StaysGone(trace: seq<Server>, acts: seq<Action>, limits: nat, i: nat, j: nat)
    requires IsRun(trace, acts, limits) && i <= j < |trace| && trace[i].pc == Gone
    ensures trace[j].pc == Gone && LoopActs(acts, i, j) == [] && trace[j].fdOf == trace[i].fdOf
    decreases j
  {
    if i == j {
    } else {
      var k := j - 1;
      StaysGone(trace, acts, limits, i, k);
      assert Next(trace[k], acts[k], trace[k + 1]);
      GoneStays(trace[k], acts[k]);
    }
  }

  // Where the loop stands n actions after a failed thread creation.
  predicate Halting(pc: Acceptor, n: nat) {
    match n case 0 => pc == AtFailClose case 1 => pc == AtAdd case _ => pc == AtWait
  }

  lemma {:induction false} HaltingStep(s: Server, a: Action, n: nat)
    requires Enabled(s, a) && !OfHandler(a) && Halting(s.pc, n) && s.sem == 0
    ensures n < 2 && a == (if n == 0 then FailClose else AddUser)
    ensures Halting(Step(s, a).pc, n + 1) && Step(s, a).newClient == s.newClient
    ensures Step(s, a).fdOf == s.fdOf && Step(s, a).handlers == s.handlers && Step(s, a).lost == s.lost
    ensures Step(s, a).sockets == if n == 0 then s.sockets - {s.newClient} else s.sockets
    ensures Step(s, a).added == if n == 0 then s.added else s.added + {|s.fdOf| - 1}
    ensures n == 1 ==> s.newClient in Step(s, a).fds
  {}

  ghost predicate HaltedSince(s: Server, t: Server, n: nat) {
    && n <= 2 && Halting(t.pc, n) && t.lost > 0
    && t.fdOf == s.fdOf && |t.handlers| == |s.handlers| && t.newClient == s.newClient
    && (n > 0 ==> s.newClient !in t.sockets) && (n > 1 ==> |s.fdOf| - 1 in t.added)
  }

  function HaltActs(n: nat): seq<Action> {
    if n == 0 then [] else if n == 1 then [FailClose] else [FailClose, AddUser]
  }

  // The loop has made exactly these actions since state s.
  ghost predicate HaltedBy(s: Server, t: Server, done: seq<Action>) {
    HaltedSince(s, t, |done|) && done == HaltActs(|done|)
  }

  lemma {:induction false} HaltedStep(s: Server, t: Server, a: Action, done: seq<Action>)
    requires HaltedBy(s, t, done) && t.sem == 0 && Enabled(t, a)
    ensures HaltedBy(s, Step(t, a), done + if OfHandler(a) then [] else [a])
  {
    if OfHandler(a) {
      HandlersApart(t, a);
      assert done + [] == done;
    } else {
      HaltingStep(t, a, |done|);
    }
  }

  lemma {:induction false} HaltSoFar(trace: seq<Server>, acts: seq<Action>, limits: nat, i: nat, j: nat)
    requires IsRun(trace, acts, limits) && i <= j < |trace| && trace[i].pc == AtFailClose && trace[i].lost > 0 && |trace[i].fdOf| > 0
    ensures HaltedBy(trace[i], trace[j], LoopActs(acts, i, j))
    decreases j
  {
    if i == j {
    } else {
      var k := j - 1;
      HaltSoFar(trace, acts, limits, i, k);
      assert Next(trace[k], acts[k], trace[k + 1]);
      LoopFacts(trace, acts, limits, k);
      HaltedStep(trace[i], trace[k], acts[k], LoopActs(acts, i, k));
    }
  }

  // A failed thread creation costs the token for good: the loop closes the client's socket, adds
  // its descriptor to the set all the same, and then waits for ever. No client is accepted again.
  lemma {:induction false} FailedCreation(trace: seq<Server>, acts: seq<Action>, limits: nat, i: nat, j: nat)
    requires IsRun(trace, acts, limits) && i < j < |trace| && acts[i] == CreateFails
    ensures |trace[i].fdOf| > 0
    ensures var s, t := trace[i], trace[j]; var fd := s.fdOf[|s.fdOf| - 1]; var done := LoopActs(acts, i + 1, j);
      && |done| <= 2 && done == [FailClose, AddUser][..|done|]
      && t.pc == [AtFailClose, AtAdd, AtWait][|done|] && t.sem == 0
      && t.fdOf == s.fdOf && |t.handlers| == |s.handlers|
      && (|done| > 0 ==> fd !in t.sockets)
      && (|done| == 2 ==> |s.fdOf| - 1 in t.added)
  {
    var n := i + 1;
    assert Next(trace[i], acts[i], trace[n]);
    LoopFacts(trace, acts, limits, i);
    HaltSoFar(trace, acts, limits, n, j);
    LoopFacts(trace, acts, limits, j);
  }

  // Every addUser of the loop adds the newest connection's descriptor, closed or not.
  lemma {:induction false} NewestAdded(trace: seq<Server>, acts: seq<Action>, limits: nat, i: nat)
    requires IsRun(trace, acts, limits) && i < |acts| && acts[i] == AddUser
    ensures |trace[i].fdOf| > 0 && trace[i + 1].fds == trace[i].fds + {trace[i].fdOf[|trace[i].fdOf| - 1]}
  {
    LoopFacts(trace, acts, limits, i);
    assert Next(trace[i], acts[i], trace[i + 1]);
  }

  // ----- No other way to come to a halt -----

  // The loop can act; or it waits for a token that one handler, who can act, is going to post;
  // or an accept or a thread creation has failed.
  lemma {:induction false} LoopGoesOn(trace: seq<Server>, acts: seq<Action>, limits: nat, i: nat)
    requires IsRun(trace, acts, limits) && i < |trace| && trace[i].pc != Gone && trace[i].lost == 0
    ensures var s := trace[i];
      || (exists a :: !OfHandler(a) && Enabled(s, a))
      || (s.pc == AtWait && exists h: nat :: Enabled(s, Read(h)) || Enabled(s, Post(h)))
  {
    var s := trace[i];
    RunInv(trace, acts, limits, i);
    if s.pc == AtWait && s.sem == 0 {
      var h := SomeUnposted(s.handlers);
      assert Enabled(s, Read(h)) || Enabled(s, Post(h));
    } else {
      var a := match s.pc
        case AtWait => Wait
        case AtAccept => AcceptFails
        case AtTry => TryMember
        case AtReject => RejectClose
        case AtRejectPost => RejectPost
        case AtCreate => CreateFails
        case AtFailClose => FailClose
        case _ => AddUser;
      assert !OfHandler(a) && Enabled(s, a);
    }
  }

  lemma {:induction false} SomeUnposted(hs: seq<Handler>) returns (h: nat)
    requires Count(hs, Unposted) > 0
    ensures h < |hs| && (hs[h].pc == AtRead || hs[h].pc == AtPost)
  {
    var n := |hs| - 1;
    if Unposted(hs[n].pc) {
      h := n;
    } else {
      h := SomeUnposted(hs[..n]);
    }
  }
}
