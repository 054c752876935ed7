/** The chat server with its mutex: addUser, delUser and copyFds are lock, word accesses and
    unlock among the steps of the accept loop and the handlers. It refines the server in which
    each of these calls is one step. */
module ChatLockedServer {
  import opened Basics
  import opened ChatServer
  import opened ChatFds
  import L = ChatLock
  import R = ChatRegistry

  // Terminal is the thread that handles the lines typed at the server.
  datatype Thread = AcceptLoop | HandlerThread(i: nat) | Terminal

  datatype Holder = Nobody | By(thread: Thread, pc: L.Pc)

  datatype Sys = Sys(server: Server, casts: seq<R.Cast>, words: seq<L.Word>, holder: Holder)

  datatype Move = Act(a: Action) | Lock(thread: Thread, call: L.Call) | Load | Store | CopyWord | Unlock | Iterate(t: nat)

  ghost predicate Init(s: Sys, limits: nat) {
    && ChatServer.Init(s.server, limits) && s.casts == []
    && |s.words| == L.WORDS && s.words[0] == {STDOUT} && (forall w :: 1 <= w < L.WORDS ==> s.words[w] == {})
    && s.holder == Nobody
  }

  function ThreadOf(a: Action): Thread {
    if OfHandler(a) then HandlerThread(a.i) else AcceptLoop
  }

  // The call is the one that the thread makes next; any thread may broadcast.
  predicate MayCall(s: Server, t: Thread, c: L.Call) {
    match c
    case Add(fd) => t == AcceptLoop && Enabled(s, AddUser) && fd == s.newClient
    case Del(fd) => t.HandlerThread? && Enabled(s, DelUser(t.i)) && fd == s.handlers[t.i].fd
    case Copy => true
  }

  predicate CanMove(s: Sys, m: Move) {
    match m
    case Act(a) => !a.AddUser? && !a.DelUser? && Enabled(s.server, a) && (s.holder == Nobody || s.holder.thread != ThreadOf(a))
    case Lock(t, c) => s.holder == Nobody && MayCall(s.server, t, c) && L.IsCall(c)
    case Load => s.holder.By? && s.holder.pc.AtLoad? && IsUpdate(s, s.holder.pc.call)
    case Store => s.holder.By? && s.holder.pc.AtStore? && IsUpdate(s, s.holder.pc.call)
    case CopyWord => s.holder.By? && s.holder.pc.Copying? && |s.holder.pc.words| < L.WORDS == |s.words|
    case Unlock => s.holder.By? && s.holder.pc.AtUnlock?
    case Iterate(t) => t < |s.casts| && s.casts[t].next < FD_SETSIZE
  }

  predicate IsUpdate(s: Sys, c: L.Call)
    requires s.holder.By?
  {
    !c.Copy? && L.IsCall(c) && |s.words| == L.WORDS && MayCall(s.server, s.holder.thread, c)
  }

  // The step of the server that an update of the set is.
  function Update(s: Sys): Action
    requires CanMove(s, Store)
  {
    if s.holder.pc.call.Add? then AddUser else DelUser(s.holder.thread.i)
  }

  ghost function Perform(s: Sys, m: Move): Sys
    requires CanMove(s, m)
  {
    match m
    case Act(a) => s.(server := Step(s.server, a))
    case Lock(t, c) => s.(holder := By(t, if c.Copy? then L.Copying([]) else L.AtLoad(c)))
    case Load =>
      var c := s.holder.pc.call;
      s.(holder := s.holder.(pc := L.AtStore(c, s.words[c.fd / L.WORD])))
    case Store =>
      var c := s.holder.pc.call;
      s.(words := s.words[c.fd / L.WORD := L.Apply(c, s.holder.pc.reg)], server := Step(s.server, Update(s)),
         holder := s.holder.(pc := L.AtUnlock(c, [])))
    case CopyWord =>
      var ws := s.holder.pc.words + [s.words[|s.holder.pc.words|]];
      s.(holder := s.holder.(pc := if |ws| == L.WORDS then L.AtUnlock(L.Copy, ws) else L.Copying(ws)))
    case Unlock =>
      s.(holder := Nobody,
         casts := if s.holder.pc.call.Copy? then s.casts + [R.Cast(L.Union(s.holder.pc.words), 0, [])] else s.casts)
    case Iterate(t) => s.(casts := R.Perform(Whole(s), R.Iterate(t)).casts)
  }

  ghost predicate IsExecution(trace: seq<Sys>, moves: seq<Move>, limits: nat) {
    && |trace| == |moves| + 1
    && Init(trace[0], limits)
    && forall i :: 0 <= i < |moves| ==> CanMove(trace[i], moves[i]) && trace[i + 1] == Perform(trace[i], moves[i])
  }

  // ----- Refinement -----

  // The state as the server with calls in one step sees it.
  function Whole(s: Sys): R.Sys {
    R.Sys(s.server, s.casts)
  }

  // The step that it makes, if any: an update of the set is made by its store, and a copy by
  // the unlock after it.
  function WholeMove(s: Sys, m: Move): Option<R.Move>
    requires CanMove(s, m)
  {
    match m
    case Act(a) => Some(R.Other(a))
    case Store => Some(R.Other(Update(s)))
    case Unlock => if s.holder.pc.call.Copy? then Some(R.Begin) else None
    case Iterate(t) => Some(R.Iterate(t))
    case _ => None
  }

  // What the holder of the mutex has in hand.
  ghost predicate Underway(s: Sys)
    requires |s.words| == L.WORDS
  {
    match s.holder
    case Nobody => true
    case By(t, pc) =>
      match pc
      case Idle => false
      case AtLoad(c) => !c.Copy? && L.IsCall(c) && MayCall(s.server, t, c)
      case AtStore(c, reg) => !c.Copy? && L.IsCall(c) && MayCall(s.server, t, c) && reg == s.words[c.fd / L.WORD]
      case Copying(ws) => |ws| < L.WORDS && ws == s.words[..|ws|]
      case AtUnlock(c, ws) => c.Copy? ==> ws == s.words
  }

  ghost predicate Inv(s: Sys) {
    L.InPlace(s.words) && L.Union(s.words) == s.server.fds && Underway(s)
  }

  lemma {:induction false} InitInv(s: Sys, limits: nat)
    requires Init(s, limits)
    ensures Inv(s)
  {
    forall fd ensures fd in L.Union(s.words) <==> fd == STDOUT {
      if fd == STDOUT {
        assert fd in s.words[0];
      }
    }
  }

  // No other thread touches what the holder's call works on.
  lemma {:induction false} ActKeeps(s: Server, a: Action, t: Thread, c: L.Call)
    requires MayCall(s, t, c) && Enabled(s, a) && ThreadOf(a) != t && !a.AddUser? && !a.DelUser?
    ensures MayCall(Step(s, a), t, c) && Step(s, a).fds == s.fds
  {}

  lemma {:induction false} StoreRefines(s: Sys)
    requires Inv(s) && CanMove(s, Store)
    ensures Inv(Perform(s, Store)) && Perform(s, Store).server == Step(s.server, Update(s)) && Enabled(s.server, Update(s))
  {
    L.StoreExact(s.words, s.holder.pc.call);
  }

  // The store writes back what was loaded, whatever the word holds by then.
  lemma {:induction false} StaleStore(s: Sys, fd: int, reg: L.Word, other: int)
    requires s.holder == By(AcceptLoop, L.AtStore(L.Add(fd), reg)) && CanMove(s, Store)
    requires other in s.words[fd / L.WORD] && other !in reg && other != fd
    ensures other !in Perform(s, Store).words[fd / L.WORD]
  {}

  lemma {:induction false} ActInv(s: Sys, a: Action)
    requires Inv(s) && CanMove(s, Act(a))
    ensures Inv(Perform(s, Act(a)))
  {
    if s.holder.By? && (s.holder.pc.AtLoad? || s.holder.pc.AtStore?) {
      ActKeeps(s.server, a, s.holder.thread, s.holder.pc.call);
    }
  }

  lemma {:induction false} MoveInv(s: Sys, m: Move)
    requires Inv(s) && CanMove(s, m)
    ensures Inv(Perform(s, m))
  {
    match m
    case Act(a) => ActInv(s, a);
    case Store => StoreRefines(s);
    case CopyWord =>
      var n := |s.holder.pc.words|;
      assert s.words[..n + 1] == s.words[..n] + [s.words[n]] && s.words[..L.WORDS] == s.words;
    case _ =>
  }

  // Each step is one of the whole server, or none.
  lemma {:induction false} MoveRefines(s: Sys, m: Move)
    requires Inv(s) && CanMove(s, m)
    ensures match WholeMove(s, m)
      case None => Whole(Perform(s, m)) == Whole(s)
      case Some(w) => R.CanMove(Whole(s), w) && Whole(Perform(s, m)) == R.Perform(Whole(s), w)
  {
    if m.Store? {
      StoreRefines(s);
    }
  }

  lemma {:induction false} ExecutionInv(trace: seq<Sys>, moves: seq<Move>, limits: nat, i: nat)
    requires IsExecution(trace, moves, limits) && i < |trace|
    ensures Inv(trace[i])
  {
    if i == 0 {
      InitInv(trace[0], limits);
    } else {
      var j := i - 1;
      ExecutionInv(trace, moves, limits, j);
      MoveInv(trace[j], moves[j]);
    }
  }

  // Step k of the whole execution is step at[k] of this one.
  ghost predicate Matches(trace: seq<Sys>, moves: seq<Move>, whole: seq<R.Sys>, steps: seq<R.Move>, at: seq<nat>, i: nat)
    requires i < |trace| == |moves| + 1
  {
    && |whole| == |steps| + 1 && |at| == |steps|
    && whole[|steps|] == Whole(trace[i])
    && forall k :: 0 <= k < |steps| ==>
         && at[k] < i && whole[k] == Whole(trace[at[k]])
         && CanMove(trace[at[k]], moves[at[k]]) && WholeMove(trace[at[k]], moves[at[k]]) == Some(steps[k])
  }

  // Every execution is one of the server whose calls are single steps, with steps of the
  // mutex in between.
  lemma {:induction false} Refines(trace: seq<Sys>, moves: seq<Move>, limits: nat, i: nat)
    returns (whole: seq<R.Sys>, steps: seq<R.Move>, at: seq<nat>)
    requires IsExecution(trace, moves, limits) && i < |trace|
    ensures R.IsExecution(whole, steps, limits) && Matches(trace, moves, whole, steps, at, i)
  {
    if i == 0 {
      whole, steps, at := [Whole(trace[0])], [], [];
    } else {
      var j := i - 1;
      whole, steps, at := Refines(trace, moves, limits, j);
      ExecutionInv(trace, moves, limits, j);
      MoveRefines(trace[j], moves[j]);
      match WholeMove(trace[j], moves[j]) {
        case None =>
        case Some(w) =>
          MatchesOneMore(trace, moves, whole, steps, at, j, w);
          whole, steps, at := whole + [Whole(trace[i])], steps + [w], at + [j];
      }
    }
  }

  lemma {:induction false} MatchesOneMore(trace: seq<Sys>, moves: seq<Move>, whole: seq<R.Sys>, steps: seq<R.Move>, at: seq<nat>, j: nat, w: R.Move)
    requires j + 1 < |trace| == |moves| + 1 && Matches(trace, moves, whole, steps, at, j)
    requires CanMove(trace[j], moves[j]) && WholeMove(trace[j], moves[j]) == Some(w)
    ensures Matches(trace, moves, whole + [Whole(trace[j + 1])], steps + [w], at + [j], j + 1)
  {}

  // ----- What follows for the words of the set -----

  // The order of calls that the program relies on, at the steps that change the set.
  ghost predicate Orderly(trace: seq<Sys>, moves: seq<Move>, limits: nat) {
    && IsExecution(trace, moves, limits)
    && forall i :: 0 <= i < |moves| && WholeMove(trace[i], moves[i]).Some? && WholeMove(trace[i], moves[i]).value.Other? ==>
         R.Orderly(trace[i].server, WholeMove(trace[i], moves[i]).value.a)
  }

  // Registry agreement, at every moment of every thread's accesses to the words.
  lemma {:induction false} WordsAgree(trace: seq<Sys>, moves: seq<Move>, limits: nat, i: nat)
    requires Orderly(trace, moves, limits) && i < |trace|
    ensures var s := trace[i].server;
      L.Union(trace[i].words) == {STDOUT} + (set c | c in R.Live(s) && c < |s.fdOf| :: s.fdOf[c])
  {
    var whole, steps, at := Refines(trace, moves, limits, i);
    forall k | 0 <= k < |steps| && steps[k].Other? ensures R.Orderly(whole[k].server, steps[k].a) {
      assert WholeMove(trace[at[k]], moves[at[k]]) == Some(steps[k]);
    }
    R.RegistryAgreement(whole, steps, limits, |steps|);
    ExecutionInv(trace, moves, limits, i);
  }

  // Snapshot broadcast: though the copy is taken word by word while other threads go on, a
  // finished broadcast has sent once, in ascending order, to exactly the members that the words
  // had at one instant.
  lemma {:induction false} WordsBroadcast(trace: seq<Sys>, moves: seq<Move>, limits: nat, i: nat, t: nat) returns (j: nat)
    requires IsExecution(trace, moves, limits) && i < |trace| && t < |trace[i].casts|
    requires trace[i].casts[t].next == FD_SETSIZE
    ensures j < i && moves[j] == Unlock && |trace[j].casts| == t
    ensures trace[i].casts[t].sent == Ascending(L.Union(trace[j].words), FD_SETSIZE)
  {
    var whole, steps, at := Refines(trace, moves, limits, i);
    R.SnapshotBroadcast(whole, steps, limits, |steps|, t);
    var k: nat :| k < |steps| && R.CopiedAt(whole, steps, t, k)
      && trace[i].casts[t].sent == Ascending(whole[k].server.fds, FD_SETSIZE);
    j := at[k];
    assert WholeMove(trace[j], moves[j]) == Some(R.Begin);
    ExecutionInv(trace, moves, limits, j);
  }
}
