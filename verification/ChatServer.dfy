/** The accept loop and the handler threads of the chat server, as an interleaving state
    machine with arbitrarily many handlers. */
module ChatServer {
  import opened Basics
  import opened Runs

  const STDOUT := 1
  const FD_SETSIZE := 1024

  // Where the accept loop stands: each constructor names the call it makes next.
  datatype Acceptor = AtWait | AtAccept | AtTry | AtReject | AtRejectPost | AtCreate | AtFailClose | AtAdd | Gone

  datatype HandlerPc = AtRead | AtPost | Working | AtClose | AtDel | AtMemberPost | Ended

  // connection is the number of the accept that the thread was created for; fd is its local
  // client_socket, meaningful once it has been read.
  datatype Handler = Handler(pc: HandlerPc, connection: nat, fd: int)

  // newClient is the variable the accept loop shares with each new thread. fdOf, added,
  // deleted and lost record history: the descriptor that each accept returned, the connections
  // that addUser and delUser have been called for, and the thread creations that failed.
  datatype Server = Server(
    pc: Acceptor, newClient: int, sem: nat, memberMax: nat,
    handlers: seq<Handler>, sockets: set<int>, fds: set<int>,
    fdOf: seq<int>, added: set<nat>, deleted: set<nat>, lost: nat)

  datatype Action =
    | Wait | Accept(fd: int) | AcceptFails | TryMember | RejectClose | RejectPost
    | Create | CreateFails | FailClose | AddUser
    | Read(i: nat) | Post(i: nat) | Work(i: nat) | Leave(i: nat) | Close(i: nat) | DelUser(i: nat) | PostMember(i: nat)

  ghost predicate Init(s: Server, limits: nat) {
    && s.pc == AtWait && s.sem == 1 && s.memberMax == limits
    && s.handlers == [] && s.sockets == {} && s.fds == {STDOUT}
    && s.fdOf == [] && s.added == {} && s.deleted == {} && s.lost == 0
  }

  predicate HandlerAt(s: Server, i: nat, pc: HandlerPc) {
    i < |s.handlers| && s.handlers[i].pc == pc
  }

  predicate Enabled(s: Server, a: Action) {
    match a
    case Wait => s.pc == AtWait && s.sem > 0
    case Accept(fd) => s.pc == AtAccept && 0 <= fd < FD_SETSIZE && fd != STDOUT && fd !in s.sockets
    case AcceptFails => s.pc == AtAccept
    case TryMember => s.pc == AtTry
    case RejectClose => s.pc == AtReject
    case RejectPost => s.pc == AtRejectPost
    case Create => s.pc == AtCreate && |s.fdOf| > 0
    case CreateFails => s.pc == AtCreate
    case FailClose => s.pc == AtFailClose
    case AddUser => s.pc == AtAdd && |s.fdOf| > 0
    case Read(i) => HandlerAt(s, i, AtRead)
    case Post(i) => HandlerAt(s, i, AtPost)
    case Work(i) => HandlerAt(s, i, Working)
    case Leave(i) => HandlerAt(s, i, Working)
    case Close(i) => HandlerAt(s, i, AtClose)
    case DelUser(i) => HandlerAt(s, i, AtDel)
    case PostMember(i) => HandlerAt(s, i, AtMemberPost)
  }

  function Move(s: Server, i: nat, pc: HandlerPc): Server
    requires i < |s.handlers|
  {
    s.(handlers := s.handlers[i := s.handlers[i].(pc := pc)])
  }

  function Step(s: Server, a: Action): Server
    requires Enabled(s, a)
  {
    match a
    case Wait => s.(pc := AtAccept, sem := s.sem - 1)
    case Accept(fd) => s.(pc := AtTry, newClient := fd, sockets := s.sockets + {fd}, fdOf := s.fdOf + [fd])
    case AcceptFails => s.(pc := Gone, newClient := -1)
    case TryMember => if s.memberMax == 0 then s.(pc := AtReject) else s.(pc := AtCreate, memberMax := s.memberMax - 1)
    case RejectClose => s.(pc := AtRejectPost, sockets := s.sockets - {s.newClient})
    case RejectPost => s.(pc := AtWait, sem := s.sem + 1)
    case Create => s.(pc := AtAdd, handlers := s.handlers + [Handler(AtRead, |s.fdOf| - 1, -1)])
    case CreateFails => s.(pc := AtFailClose, lost := s.lost + 1)
    case FailClose => s.(pc := AtAdd, sockets := s.sockets - {s.newClient})
    case AddUser => s.(pc := AtWait, fds := s.fds + {s.newClient}, added := s.added + {|s.fdOf| - 1})
    case Read(i) => s.(handlers := s.handlers[i := s.handlers[i].(pc := AtPost, fd := s.newClient)])
    case Post(i) => Move(s, i, Working).(sem := s.sem + 1)
    case Work(i) => s
    case Leave(i) => Move(s, i, AtClose)
    case Close(i) => Move(s, i, AtDel).(sockets := s.sockets - {s.handlers[i].fd})
    case DelUser(i) => Move(s, i, AtMemberPost).(fds := s.fds - {s.handlers[i].fd}, deleted := s.deleted + {s.handlers[i].connection})
    case PostMember(i) => Move(s, i, Ended).(memberMax := s.memberMax + 1)
  }

  ghost predicate Next(s: Server, a: Action, t: Server) {
    Enabled(s, a) && t == Step(s, a)
  }

  ghost predicate IsRun(trace: seq<Server>, acts: seq<Action>, limits: nat) {
    IsPath(Next, trace, acts) && Init(trace[0], limits)
  }

  // ----- Counting handlers by program point -----

  predicate Unposted(pc: HandlerPc) {
    pc == AtRead || pc == AtPost
  }

  predicate HoldsSocket(pc: HandlerPc) {
    pc == AtRead || pc == AtPost || pc == Working || pc == AtClose
  }

  predicate HoldsPermit(pc: HandlerPc) {
    pc != Ended
  }

  function Count(hs: seq<Handler>, p: HandlerPc -> bool): nat {
    if hs == [] then 0 else Count(hs[..|hs| - 1], p) + One(p(hs[|hs| - 1].pc))
  }

  lemma {:induction false} CountAppend(hs: seq<Handler>, h: Handler, p: HandlerPc -> bool)
    ensures Count(hs + [h], p) == Count(hs, p) + One(p(h.pc))
  {
    assert (hs + [h])[..|hs|] == hs;
  }

  lemma {:induction false} CountUpdate(hs: seq<Handler>, i: nat, h: Handler, p: HandlerPc -> bool)
    requires i < |hs|
    ensures Count(hs[i := h], p) + One(p(hs[i].pc)) == Count(hs, p) + One(p(h.pc))
  {
    var n := |hs| - 1;
    if i < n {
      CountUpdate(hs[..n], i, h, p);
      assert hs[i := h][..n] == hs[..n][i := h];
    } else {
      assert hs[i := h][..n] == hs[..n];
    }
  }

  lemma {:induction false} CountZero(hs: seq<Handler>, p: HandlerPc -> bool)
    requires Count(hs, p) == 0
    ensures forall i :: 0 <= i < |hs| ==> !p(hs[i].pc)
  {
    if hs == [] {
    } else {
      CountZero(hs[..|hs| - 1], p);
    }
  }

  lemma {:induction false} CountBelow(hs: seq<Handler>, p: HandlerPc -> bool, q: HandlerPc -> bool)
    requires forall pc :: p(pc) ==> q(pc)
    ensures Count(hs, p) <= Count(hs, q)
  {
    if hs == [] {
    } else {
      CountBelow(hs[..|hs| - 1], p, q);
    }
  }

  // How one action changes the count of p: only the handlers it creates or moves matter.
  lemma {:induction false} CountStep(s: Server, a: Action, p: HandlerPc -> bool)
    requires Enabled(s, a)
    ensures var s' := Step(s, a); match a
      case Create => Count(s'.handlers, p) == Count(s.handlers, p) + One(p(AtRead))
      case Read(i) => Count(s'.handlers, p) + One(p(AtRead)) == Count(s.handlers, p) + One(p(AtPost))
      case Post(i) => Count(s'.handlers, p) + One(p(AtPost)) == Count(s.handlers, p) + One(p(Working))
      case Leave(i) => Count(s'.handlers, p) + One(p(Working)) == Count(s.handlers, p) + One(p(AtClose))
      case Close(i) => Count(s'.handlers, p) + One(p(AtClose)) == Count(s.handlers, p) + One(p(AtDel))
      case DelUser(i) => Count(s'.handlers, p) + One(p(AtDel)) == Count(s.handlers, p) + One(p(AtMemberPost))
      case PostMember(i) => Count(s'.handlers, p) + One(p(AtMemberPost)) == Count(s.handlers, p) + One(p(Ended))
      case _ => s'.handlers == s.handlers
  {
    var s' := Step(s, a);
    match a
    case Create => CountAppend(s.handlers, s'.handlers[|s.handlers|], p);
    case Read(i) => CountUpdate(s.handlers, i, s'.handlers[i], p);
    case Post(i) => CountUpdate(s.handlers, i, s'.handlers[i], p);
    case Leave(i) => CountUpdate(s.handlers, i, s'.handlers[i], p);
    case Close(i) => CountUpdate(s.handlers, i, s'.handlers[i], p);
    case DelUser(i) => CountUpdate(s.handlers, i, s'.handlers[i], p);
    case PostMember(i) => CountUpdate(s.handlers, i, s'.handlers[i], p);
    case _ =>
  }

  // ----- The two semaphores -----

  // The accept loop's token: from its sem_wait until it creates a handler or rejects.
  predicate HasToken(pc: Acceptor) {
    pc != AtWait && pc != AtFailClose && pc != AtAdd
  }

  ghost predicate Tokens(s: Server) {
    && s.sem + One(HasToken(s.pc)) + Count(s.handlers, Unposted) + s.lost == 1
    && (s.pc == AtFailClose ==> s.lost == 1)
  }

  ghost predicate Permits(s: Server, limits: nat) {
    s.memberMax + One(s.pc == AtCreate) + Count(s.handlers, HoldsPermit) + s.lost == limits
  }

  lemma {:induction false} StepTokens(s: Server, a: Action)
    requires Tokens(s) && Enabled(s, a)
    ensures Tokens(Step(s, a))
  {
    CountStep(s, a, Unposted);
  }

  lemma {:induction false} StepPermits(s: Server, a: Action, limits: nat)
    requires Permits(s, limits) && Enabled(s, a)
    ensures Permits(Step(s, a), limits)
  {
    CountStep(s, a, HoldsPermit);
  }

  // ----- The shared variable -----

  // The newest connection has not been handed to a thread (and may never be).
  predicate Unhanded(pc: Acceptor) {
    pc == AtTry || pc == AtReject || pc == AtRejectPost || pc == AtCreate || pc == AtFailClose
  }

  // The descriptor that handler h works on, or will find in the shared variable.
  function Descriptor(s: Server, h: Handler): int {
    if h.pc == AtRead then s.newClient else h.fd
  }

  // A connection of its own for every handler, and its connection's descriptor.
  ghost predicate Handoff(s: Server) {
    && (Unhanded(s.pc) || s.pc == AtAdd ==> |s.fdOf| > 0 && s.newClient == s.fdOf[|s.fdOf| - 1])
    && (forall i :: 0 <= i < |s.handlers| ==> s.handlers[i].connection < |s.fdOf| - One(Unhanded(s.pc)))
    && (forall i, j :: 0 <= i < j < |s.handlers| ==> s.handlers[i].connection < s.handlers[j].connection)
    && (forall i :: 0 <= i < |s.handlers| ==> Descriptor(s, s.handlers[i]) == s.fdOf[s.handlers[i].connection])
  }

  predicate OfHandler(a: Action) {
    a.Read? || a.Post? || a.Work? || a.Leave? || a.Close? || a.DelUser? || a.PostMember?
  }

  // A handler's own action changes nobody's connection and nobody's descriptor.
  lemma {:induction false} HandlerKeeps(s: Server, a: Action)
    requires Enabled(s, a) && OfHandler(a)
    ensures var s' := Step(s, a);
      && s'.pc == s.pc && s'.newClient == s.newClient && s'.fdOf == s.fdOf && |s'.handlers| == |s.handlers|
      && forall k :: 0 <= k < |s.handlers| ==>
           s'.handlers[k].connection == s.handlers[k].connection && Descriptor(s', s'.handlers[k]) == Descriptor(s, s.handlers[k])
  {}

  // No handler is about to read the shared variable while the accept loop may write it.
  lemma {:induction false} NoReader(s: Server)
    requires Tokens(s) && (HasToken(s.pc) || s.pc == AtFailClose)
    ensures forall k :: 0 <= k < |s.handlers| ==> s.handlers[k].pc != AtRead
  {
    CountZero(s.handlers, Unposted);
    assert forall k :: 0 <= k < |s.handlers| ==> !Unposted(s.handlers[k].pc);
  }

  lemma {:induction false} StepHandoff(s: Server, a: Action)
    requires Handoff(s) && Tokens(s) && Enabled(s, a)
    ensures Handoff(Step(s, a))
  {
    if OfHandler(a) {
      HandlerKeeps(s, a);
    } else {
      LoopHandoff(s, a);
    }
  }

  lemma {:induction false} LoopHandoff(s: Server, a: Action)
    requires Handoff(s) && Tokens(s) && Enabled(s, a) && !OfHandler(a)
    ensures Handoff(Step(s, a))
  {
    if a.Create? {
      NoReader(s);
      CreateHandoff(s);
    } else {
      if HasToken(s.pc) || s.pc == AtFailClose {
        NoReader(s);
      }
      SameHandlers(s, Step(s, a));
    }
  }

  lemma {:induction false} SameHandlers(s: Server, s': Server)
    requires Handoff(s) && s'.handlers == s.handlers && s.fdOf <= s'.fdOf
    requires |s.fdOf| - One(Unhanded(s.pc)) <= |s'.fdOf| - One(Unhanded(s'.pc))
    requires Unhanded(s'.pc) || s'.pc == AtAdd ==> |s'.fdOf| > 0 && s'.newClient == s'.fdOf[|s'.fdOf| - 1]
    requires s'.newClient == s.newClient || forall k :: 0 <= k < |s.handlers| ==> s.handlers[k].pc != AtRead
    ensures Handoff(s')
  {
    assert forall k :: 0 <= k < |s.handlers| ==> Descriptor(s', s.handlers[k]) == Descriptor(s, s.handlers[k]);
  }

  lemma {:induction false} CreateHandoff(s: Server)
    requires Handoff(s) && Enabled(s, Create)
    requires forall k :: 0 <= k < |s.handlers| ==> s.handlers[k].pc != AtRead
    ensures Handoff(Step(s, Create))
  {
    var s' := Step(s, Create);
    forall k | 0 <= k < |s'.handlers| ensures Descriptor(s', s'.handlers[k]) == s'.fdOf[s'.handlers[k].connection]
    {
      if k < |s.handlers| {
        assert s'.handlers[k] == s.handlers[k];
      }
    }
  }

  // ----- The open client sockets -----

  predicate OwnsSocket(pc: Acceptor) {
    pc == AtTry || pc == AtReject || pc == AtCreate || pc == AtFailClose
  }

  // The handlers' sockets are open, and different ones.
  ghost predicate OwnSockets(s: Server) {
    && (forall i :: 0 <= i < |s.handlers| && HoldsSocket(s.handlers[i].pc) ==> Descriptor(s, s.handlers[i]) in s.sockets)
    && (forall i, j :: 0 <= i < j < |s.handlers| && HoldsSocket(s.handlers[i].pc) && HoldsSocket(s.handlers[j].pc) ==>
         Descriptor(s, s.handlers[i]) != Descriptor(s, s.handlers[j]))
  }

  // So is the one that the accept loop has not handed over.
  ghost predicate LoopSocket(s: Server) {
    OwnsSocket(s.pc) ==>
      && s.newClient in s.sockets
      && forall i :: 0 <= i < |s.handlers| && HoldsSocket(s.handlers[i].pc) ==> Descriptor(s, s.handlers[i]) != s.newClient
  }

  // Every open socket has one owner: a handler that has not closed it, or the accept loop.
  ghost predicate Sockets(s: Server) {
    OwnSockets(s) && LoopSocket(s) && |s.sockets| == Count(s.handlers, HoldsSocket) + One(OwnsSocket(s.pc))
  }

  lemma {:induction false} SameOwners(s: Server, s': Server)
    requires OwnSockets(s) && LoopSocket(s) && |s'.handlers| == |s.handlers|
    requires s'.sockets == s.sockets && s'.newClient == s.newClient && (OwnsSocket(s'.pc) ==> OwnsSocket(s.pc))
    requires forall k :: 0 <= k < |s.handlers| ==>
      HoldsSocket(s'.handlers[k].pc) == HoldsSocket(s.handlers[k].pc) && Descriptor(s', s'.handlers[k]) == Descriptor(s, s.handlers[k])
    ensures OwnSockets(s') && LoopSocket(s')
  {}

  // Only its own close takes a handler's socket away.
  lemma {:induction false} HandlerSockets(s: Server, a: Action)
    requires Sockets(s) && Enabled(s, a) && OfHandler(a) && !a.Close?
    ensures Sockets(Step(s, a))
  {
    var s' := Step(s, a);
    CountStep(s, a, HoldsSocket);
    HandlerKeeps(s, a);
    assert s'.sockets == s.sockets && Count(s'.handlers, HoldsSocket) == Count(s.handlers, HoldsSocket);
    forall k | 0 <= k < |s.handlers| ensures HoldsSocket(s'.handlers[k].pc) == HoldsSocket(s.handlers[k].pc) {
      HandlerHolds(s, a, k);
    }
    SameOwners(s, s');
  }

  lemma {:induction false} HandlerHolds(s: Server, a: Action, k: nat)
    requires Enabled(s, a) && OfHandler(a) && !a.Close? && k < |s.handlers|
    ensures HoldsSocket(Step(s, a).handlers[k].pc) == HoldsSocket(s.handlers[k].pc)
  {}

  lemma {:induction false} CloseSockets(s: Server, i: nat)
    requires Sockets(s) && Enabled(s, Close(i))
    ensures Sockets(Step(s, Close(i)))
  {
    CountStep(s, Close(i), HoldsSocket);
    HandlerKeeps(s, Close(i));
    var s' := Step(s, Close(i));
    assert forall k :: 0 <= k < |s.handlers| ==> HoldsSocket(s'.handlers[k].pc) == (HoldsSocket(s.handlers[k].pc) && k != i);
  }

  lemma {:induction false} AcceptSockets(s: Server, fd: int)
    requires Sockets(s) && Tokens(s) && Enabled(s, Accept(fd))
    ensures Sockets(Step(s, Accept(fd)))
  {
    NoReader(s);
    var s' := Step(s, Accept(fd));
    assert forall k :: 0 <= k < |s.handlers| ==> Descriptor(s', s'.handlers[k]) == Descriptor(s, s.handlers[k]);
  }

  // The new thread takes over the accept loop's socket.
  lemma {:induction false} HandedOver(s: Server, s': Server, h: Handler)
    requires OwnSockets(s) && LoopSocket(s) && OwnsSocket(s.pc) && !OwnsSocket(s'.pc)
    requires s'.handlers == s.handlers + [h] && s'.sockets == s.sockets
    requires Descriptor(s', h) == s.newClient
    requires forall k :: 0 <= k < |s.handlers| ==> Descriptor(s', s.handlers[k]) == Descriptor(s, s.handlers[k])
    ensures OwnSockets(s') && LoopSocket(s')
  {
    forall i | 0 <= i < |s'.handlers|
      ensures s'.handlers[i] == (if i < |s.handlers| then s.handlers[i] else h)
    {}
  }

  lemma {:induction false} CreateSockets(s: Server)
    requires Sockets(s) && Tokens(s) && Enabled(s, Create)
    ensures Sockets(Step(s, Create))
  {
    var h := Handler(AtRead, |s.fdOf| - 1, -1);
    CountAppend(s.handlers, h, HoldsSocket);
    NoReader(s);
    HandedOver(s, Step(s, Create), h);
  }

  lemma {:induction false} LoopSockets(s: Server, a: Action)
    requires Sockets(s) && Tokens(s) && Enabled(s, a) && !OfHandler(a) && !a.Create? && !a.Accept?
    ensures Sockets(Step(s, a))
  {
    if HasToken(s.pc) || s.pc == AtFailClose {
      NoReader(s);
    }
    var s' := Step(s, a);
    assert s'.handlers == s.handlers;
    assert forall k :: 0 <= k < |s.handlers| ==> Descriptor(s', s.handlers[k]) == Descriptor(s, s.handlers[k]);
  }

  lemma {:induction false} StepSockets(s: Server, a: Action)
    requires Sockets(s) && Tokens(s) && Enabled(s, a)
    ensures Sockets(Step(s, a))
  {
    if a.Close? {
      CloseSockets(s, a.i);
    } else if OfHandler(a) {
      HandlerSockets(s, a);
    } else if a.Accept? {
      AcceptSockets(s, a.fd);
    } else if a.Create? {
      CreateSockets(s);
    } else {
      LoopSockets(s, a);
    }
  }

  ghost predicate Inv(s: Server, limits: nat) {
    Tokens(s) && Permits(s, limits) && Handoff(s) && Sockets(s)
  }

  lemma {:induction false} RunInv(trace: seq<Server>, acts: seq<Action>, limits: nat, i: nat)
    requires IsRun(trace, acts, limits) && i < |trace|
    ensures Inv(trace[i], limits)
  {
    if i == 0 {
    } else {
      var j := i - 1;
      RunInv(trace, acts, limits, j);
      assert Next(trace[j], acts[j], trace[j + 1]);
      StepTokens(trace[j], acts[j]);
      StepPermits(trace[j], acts[j], limits);
      StepHandoff(trace[j], acts[j]);
      StepSockets(trace[j], acts[j]);
    }
  }

  // Descriptor handoff: in every interleaving with any number of handlers, sem, the accept
  // loop's token, the handlers that have not posted and the failed creations add up to 1; so
  // every handler that has read the shared variable has exactly the descriptor that its own
  // accept returned, no two handlers share an accept, and nothing is overwritten before its
  // handler has read it.
  lemma {:induction false} DescriptorHandoff(trace: seq<Server>, acts: seq<Action>, limits: nat, i: nat)
    requires IsRun(trace, acts, limits) && i < |trace|
    ensures var s := trace[i];
      && s.sem + One(HasToken(s.pc)) + Count(s.handlers, Unposted) + s.lost == 1
      && (forall k :: 0 <= k < |s.handlers| ==> s.handlers[k].connection < |s.fdOf|)
      && (forall k :: 0 <= k < |s.handlers| && s.handlers[k].pc != AtRead ==> s.handlers[k].fd == s.fdOf[s.handlers[k].connection])
      && (forall k :: 0 <= k < |s.handlers| && s.handlers[k].pc == AtRead ==>
            (s.newClient == s.fdOf[s.handlers[k].connection] && (s.pc == AtWait || s.pc == AtAdd)))
      && (forall k, l :: 0 <= k < l < |s.handlers| ==> s.handlers[k].connection != s.handlers[l].connection)
  {
    RunInv(trace, acts, limits, i);
    if HasToken(trace[i].pc) || trace[i].pc == AtFailClose {
      NoReader(trace[i]);
    }
  }

  // Membership: free permits, the accept loop's permit, the handlers that have not posted and
  // the failed creations add up to limits. So there are at most limits live handlers and
  // limits + 1 open client sockets, and a client is turned away only when every permit is
  // held by a live handler or lost to a failed creation.
  lemma {:induction false} Membership(trace: seq<Server>, acts: seq<Action>, limits: nat, i: nat)
    requires IsRun(trace, acts, limits) && i < |trace|
    ensures var s := trace[i];
      && s.memberMax + One(s.pc == AtCreate) + Count(s.handlers, HoldsPermit) + s.lost == limits
      && Count(s.handlers, HoldsPermit) <= limits
      && |s.sockets| <= limits + 1
      && (i < |acts| && s.pc != AtReject && trace[i + 1].pc == AtReject ==> Count(s.handlers, HoldsPermit) + s.lost == limits)
  {
    RunInv(trace, acts, limits, i);
    assert i < |acts| ==> Next(trace[i], acts[i], trace[i + 1]);
    CountBelow(trace[i].handlers, HoldsSocket, HoldsPermit);
  }
}
