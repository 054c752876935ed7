/** Agreement between the shared descriptor set and the connections, and the broadcasts that
    work on a snapshot of that set. */
module ChatRegistry {
  import opened Basics
  import opened Runs
  import opened ChatServer
  import opened ChatFds

  // ----- Agreement -----

  // The connections added and not yet deleted.
  function Live(s: Server): set<nat> {
    s.added - s.deleted
  }

  ghost function DescriptorsOf(s: Server, cs: set<nat>): set<int> {
    set c | c in cs && c < |s.fdOf| :: s.fdOf[c]
  }

  ghost predicate Agreement(s: Server) {
    s.fds == {STDOUT} + DescriptorsOf(s, Live(s))
  }

  // The order of calls that the program relies on: a connection's delUser comes after its own
  // addUser, and before accept returns its descriptor again.
  ghost predicate Orderly(s: Server, a: Action) {
    match a
    case DelUser(i) => i < |s.handlers| ==> s.handlers[i].connection in s.added
    case Accept(fd) => forall c :: c in Live(s) && c < |s.fdOf| ==> s.fdOf[c] != fd
    case _ => true
  }

  ghost predicate Pending(s: Server) {
    (Unhanded(s.pc) || s.pc == AtAdd) && |s.fdOf| > 0
  }

  ghost predicate History(s: Server) {
    && (forall c :: c in s.added ==> c < |s.fdOf| - One(Pending(s)))
    && s.deleted <= s.added
    && (forall i :: 0 <= i < |s.handlers| && s.handlers[i].pc != AtMemberPost && s.handlers[i].pc != Ended ==>
         s.handlers[i].connection !in s.deleted)
    && (forall c :: 0 <= c < |s.fdOf| ==> 0 <= s.fdOf[c] < FD_SETSIZE && s.fdOf[c] != STDOUT)
  }

  // No two live connections, counting the one about to be added, have the same descriptor.
  ghost predicate Distinct(s: Server) {
    && (forall c, d :: c in Live(s) && d in Live(s) && c < d < |s.fdOf| ==> s.fdOf[c] != s.fdOf[d])
    && (forall c :: c in Live(s) && c < |s.fdOf| && Pending(s) ==> s.fdOf[c] != s.fdOf[|s.fdOf| - 1])
  }

  lemma {:induction false} StepHistory(s: Server, a: Action)
    requires History(s) && Handoff(s) && Enabled(s, a) && Orderly(s, a)
    ensures History(Step(s, a))
  {}

  lemma {:induction false} StepDistinct(s: Server, a: Action)
    requires Distinct(s) && History(s) && Handoff(s) && Enabled(s, a) && Orderly(s, a)
    ensures Distinct(Step(s, a))
  {}

  // Exactly when addUser keeps the agreement: the connection must not have been deleted before.
  lemma {:induction false} AddExact(s: Server)
    requires Agreement(s) && Handoff(s) && Enabled(s, AddUser)
    ensures Agreement(Step(s, AddUser)) <==> |s.fdOf| - 1 !in s.deleted || s.newClient in s.fds
  {
    var s' := Step(s, AddUser);
    var c := |s.fdOf| - 1;
    if c in s.deleted {
      assert Live(s') == Live(s);
    } else {
      assert Live(s') == Live(s) + {c};
      assert DescriptorsOf(s', Live(s')) == DescriptorsOf(s, Live(s)) + {s.newClient};
    }
  }

  // Exactly when delUser keeps it: no other live connection may have the same descriptor.
  lemma {:induction false} DelExact(s: Server, i: nat)
    requires Agreement(s) && Handoff(s) && Enabled(s, DelUser(i)) && s.handlers[i].fd != STDOUT
    ensures Agreement(Step(s, DelUser(i))) <==>
      forall c :: c in Live(s) && c < |s.fdOf| && c != s.handlers[i].connection ==> s.fdOf[c] != s.handlers[i].fd
  {
    var s' := Step(s, DelUser(i));
    var h := s.handlers[i];
    assert Live(s') == Live(s) - {h.connection};
    assert Descriptor(s, h) == s.fdOf[h.connection];
    if forall c :: c in Live(s) && c < |s.fdOf| && c != h.connection ==> s.fdOf[c] != h.fd {
      assert DescriptorsOf(s', Live(s')) == DescriptorsOf(s, Live(s)) - {h.fd};
    } else {
      var c :| c in Live(s) && c < |s.fdOf| && c != h.connection && s.fdOf[c] == h.fd;
      assert h.fd in DescriptorsOf(s', Live(s')) && h.fd !in s'.fds;
    }
  }

  // What is so in every run: only connections that exist are added, and their descriptors are
  // neither out of range nor the terminal's.
  ghost predicate Descriptors(s: Server) {
    && (forall c :: c in s.added ==> c < |s.fdOf|)
    && (forall c :: 0 <= c < |s.fdOf| ==> IsDescriptor(s.fdOf[c]) && s.fdOf[c] != STDOUT)
  }

  lemma {:induction false} StepDescriptors(s: Server, a: Action)
    requires Descriptors(s) && Enabled(s, a)
    ensures Descriptors(Step(s, a))
  {}

  lemma {:induction false} RunDescriptors(trace: seq<Server>, acts: seq<Action>, limits: nat, i: nat)
    requires IsRun(trace, acts, limits) && i < |trace|
    ensures Descriptors(trace[i])
  {
    if i == 0 {
    } else {
      var j := i - 1;
      RunDescriptors(trace, acts, limits, j);
      assert Next(trace[j], acts[j], trace[j + 1]);
      StepDescriptors(trace[j], acts[j]);
    }
  }

  // The condition under which a call on the set keeps the agreement.
  ghost predicate Guard(s: Server, a: Action) {
    match a
    case AddUser => |s.fdOf| - 1 !in s.deleted || s.newClient in s.fds
    case DelUser(i) => i < |s.handlers| ==>
      forall c :: c in Live(s) && c < |s.fdOf| && c != s.handlers[i].connection ==> s.fdOf[c] != s.handlers[i].fd
    case _ => true
  }

  lemma {:induction false} GuardExact(s: Server, a: Action)
    requires Agreement(s) && Handoff(s) && Descriptors(s) && Enabled(s, a)
    ensures Agreement(Step(s, a)) <==> Guard(s, a)
  {
    var s' := Step(s, a);
    match a
    case AddUser => AddExact(s);
    case DelUser(i) =>
      assert s.handlers[i].fd == Descriptor(s, s.handlers[i]);
      DelExact(s, i);
    case _ =>
      assert DescriptorsOf(s', Live(s')) == DescriptorsOf(s, Live(s));
  }

  lemma {:induction false} AgreesUpTo(trace: seq<Server>, acts: seq<Action>, limits: nat, i: nat)
    requires IsRun(trace, acts, limits) && i < |trace|
    requires forall k :: 0 <= k < i ==> Guard(trace[k], acts[k])
    ensures Agreement(trace[i])
  {
    if i == 0 {
      assert DescriptorsOf(trace[0], Live(trace[0])) == {};
    } else {
      var j := i - 1;
      AgreesUpTo(trace, acts, limits, j);
      RunInv(trace, acts, limits, j);
      RunDescriptors(trace, acts, limits, j);
      assert Next(trace[j], acts[j], trace[j + 1]);
      GuardExact(trace[j], acts[j]);
    }
  }

  // The exact condition on runs: the set agrees with the live connections in every state if and
  // only if each addUser finds its connection not yet deleted (or the descriptor in the set),
  // and each delUser finds no other live connection with its descriptor.
  lemma {:induction false} AgreementIff(trace: seq<Server>, acts: seq<Action>, limits: nat)
    requires IsRun(trace, acts, limits)
    ensures (forall i :: 0 <= i < |trace| ==> Agreement(trace[i])) <==> (forall i :: 0 <= i < |acts| ==> Guard(trace[i], acts[i]))
  {
    if forall i :: 0 <= i < |trace| ==> Agreement(trace[i]) {
      forall i | 0 <= i < |acts| ensures Guard(trace[i], acts[i]) {
        RunInv(trace, acts, limits, i);
        RunDescriptors(trace, acts, limits, i);
        assert Agreement(trace[i]) && Agreement(trace[i + 1]) && Next(trace[i], acts[i], trace[i + 1]);
        GuardExact(trace[i], acts[i]);
      }
    }
    if forall i :: 0 <= i < |acts| ==> Guard(trace[i], acts[i]) {
      forall i | 0 <= i < |trace| ensures Agreement(trace[i]) {
        AgreesUpTo(trace, acts, limits, i);
      }
    }
  }

  // The order that the program relies on is one way to meet the condition.
  lemma {:induction false} OrderlyGuard(s: Server, a: Action)
    requires Distinct(s) && History(s) && Handoff(s) && Enabled(s, a) && Orderly(s, a)
    ensures Guard(s, a) && Descriptors(s)
  {
    if a.DelUser? {
      assert s.handlers[a.i].fd == Descriptor(s, s.handlers[a.i]);
    }
  }

  lemma {:induction false} StepAgreement(s: Server, a: Action)
    requires Agreement(s) && Distinct(s) && History(s) && Handoff(s) && Enabled(s, a) && Orderly(s, a)
    ensures Agreement(Step(s, a))
  {
    OrderlyGuard(s, a);
    GuardExact(s, a);
  }

  // The calls of a run, made on the set itself, leave it as the state machine says: the terminal
  // is added first, and then whatever each addUser and delUser is called with.
  method ReplaySet(trace: seq<Server>, acts: seq<Action>, ghost limits: nat) returns (all: FdSet)
    requires IsRun(trace, acts, limits)
    ensures all.Valid() && fresh(all) && fresh(all.bits)
    ensures all.Members() == trace[|acts|].fds
  {
    all := new FdSet();
    all.AddUser(STDOUT);
    for i := 0 to |acts|
      invariant all.Valid() && fresh(all) && fresh(all.bits)
      invariant all.Members() == trace[i].fds
    {
      RunInv(trace, acts, limits, i);
      RunDescriptors(trace, acts, limits, i);
      assert Next(trace[i], acts[i], trace[i + 1]);
      match acts[i] {
        case AddUser =>
          all.AddUser(trace[i].newClient);
        case DelUser(h) =>
          assert trace[i].handlers[h].fd == Descriptor(trace[i], trace[i].handlers[h]);
          all.DelUser(trace[i].handlers[h].fd);
        case _ =>
      }
    }
  }

  // ----- Descriptors left behind -----

  predicate Deletes(s: Server, a: Action, fd: int) {
    a.DelUser? && a.i < |s.handlers| && s.handlers[a.i].fd == fd
  }

  // How long a descriptor stays in the set: up to the next delUser of a handler that works on
  // the same descriptor, and no longer.
  lemma {:induction false} Lifetime(trace: seq<Server>, acts: seq<Action>, fd: int, i: nat)
    requires IsPath(Next, trace, acts) && i < |trace| && fd in trace[0].fds
    ensures (forall k :: 0 <= k < i ==> !Deletes(trace[k], acts[k], fd)) <==> (forall k :: 0 <= k <= i ==> fd in trace[k].fds)
  {
    if i == 0 {
    } else {
      var j := i - 1;
      Lifetime(trace, acts, fd, j);
      assert Next(trace[j], acts[j], trace[j + 1]);
      if fd in trace[j].fds {
        StaysIff(trace[j], acts[j], fd);
      }
      assert (forall k :: 0 <= k <= i ==> fd in trace[k].fds) <==> (forall k :: 0 <= k <= j ==> fd in trace[k].fds) && fd in trace[i].fds;
      assert (forall k :: 0 <= k < i ==> !Deletes(trace[k], acts[k], fd)) <==> (forall k :: 0 <= k < j ==> !Deletes(trace[k], acts[k], fd)) && !Deletes(trace[j], acts[j], fd);
    }
  }

  lemma {:induction false} StaysIff(s: Server, a: Action, fd: int)
    requires Enabled(s, a) && fd in s.fds
    ensures fd in Step(s, a).fds <==> !Deletes(s, a, fd)
  {}

  lemma {:induction false} ReachStep(s: Server, t: Server, a: Action)
    requires Reaches(Next, s, t) && Enabled(t, a)
    ensures Reaches(Next, s, Step(t, a))
  {
    ReachesStep(Next, s, t, a, Step(t, a));
  }

  // The accept loop takes a client in, up to the call of addUser.
  function Connected(t: Server, fd: int): Server
    requires t.sem > 0 && t.memberMax > 0
  {
    t.(pc := AtAdd, sem := t.sem - 1, memberMax := t.memberMax - 1, newClient := fd,
       handlers := t.handlers + [Handler(AtRead, |t.fdOf|, -1)], sockets := t.sockets + {fd}, fdOf := t.fdOf + [fd])
  }

  lemma {:induction false} ReachesAccepted(s: Server, t: Server, fd: int)
    requires Reaches(Next, s, t) && t.pc == AtWait && t.sem > 0 && IsDescriptor(fd) && fd != STDOUT && fd !in t.sockets
    ensures Reaches(Next, s, t.(pc := AtTry, sem := t.sem - 1, newClient := fd, sockets := t.sockets + {fd}, fdOf := t.fdOf + [fd]))
  {
    ReachStep(s, t, Wait);
    ReachStep(s, Step(t, Wait), Accept(fd));
  }

  lemma {:induction false} ReachesConnected(s: Server, t: Server, fd: int)
    requires Reaches(Next, s, t) && t.pc == AtWait && t.sem > 0 && t.memberMax > 0 && IsDescriptor(fd) && fd != STDOUT && fd !in t.sockets
    ensures Reaches(Next, s, Connected(t, fd))
  {
    ReachesAccepted(s, t, fd);
    var u := t.(pc := AtTry, sem := t.sem - 1, newClient := fd, sockets := t.sockets + {fd}, fdOf := t.fdOf + [fd]);
    ReachStep(s, u, TryMember);
    ReachStep(s, Step(u, TryMember), Create);
  }

  // Handler h reads its descriptor, posts and has nothing more to do.
  function Served(t: Server, h: nat): Server
    requires h < |t.handlers|
  {
    t.(sem := t.sem + 1, handlers := t.handlers[h := Handler(AtClose, t.handlers[h].connection, t.newClient)])
  }

  lemma {:induction false} ReachesServed(s: Server, t: Server, h: nat)
    requires Reaches(Next, s, t) && HandlerAt(t, h, AtRead)
    ensures Reaches(Next, s, Served(t, h))
  {
    ReachStep(s, t, Read(h));
    var u := Step(t, Read(h));
    ReachStep(s, u, Post(h));
    ReachStep(s, Step(u, Post(h)), Leave(h));
    assert Step(Step(u, Post(h)), Leave(h)) == Served(t, h);
  }

  // It closes the socket and takes the descriptor out of the set.
  function Left(t: Server, h: nat): Server
    requires h < |t.handlers|
  {
    var x := t.handlers[h];
    t.(sockets := t.sockets - {x.fd}, fds := t.fds - {x.fd}, deleted := t.deleted + {x.connection},
       handlers := t.handlers[h := x.(pc := AtMemberPost)])
  }

  lemma {:induction false} ReachesLeft(s: Server, t: Server, h: nat)
    requires Reaches(Next, s, t) && HandlerAt(t, h, AtClose)
    ensures Reaches(Next, s, Left(t, h))
  {
    ReachStep(s, t, Close(h));
    ReachStep(s, Step(t, Close(h)), DelUser(h));
    assert Step(Step(t, Close(h)), DelUser(h)) == Left(t, h);
  }

  // The condition does fail: a client that leaves before the accept loop gets to its addUser
  // stays in the set though its socket is closed.
  lemma {:induction false} StaleEntry(s: Server, limits: nat, fd: int) returns (t: Server)
    requires Init(s, limits) && limits > 0 && IsDescriptor(fd) && fd != STDOUT
    ensures Reaches(Next, s, t) && t.fds == {STDOUT, fd} && t.sockets == {} && Live(t) == {} && !Agreement(t)
    ensures t.pc == AtWait && t.sem == 1 && t.memberMax == limits && |t.handlers| == 1
  {
    ReachesSelf(Next, s);
    ReachesConnected(s, s, fd);
    t := Connected(s, fd);
    ReachesServed(s, t, 0);
    t := Served(t, 0);
    ReachesLeft(s, t, 0);
    t := Left(t, 0);
    t := LateAdd(s, t, fd);
  }

  lemma {:induction false} LateAdd(s: Server, t: Server, fd: int) returns (u: Server)
    requires Reaches(Next, s, t) && t.pc == AtAdd && t.fds == {STDOUT} && t.newClient == fd != STDOUT && |t.fdOf| == 1
    requires t.deleted == {0} && t.added == {} && HandlerAt(t, 0, AtMemberPost)
    ensures Reaches(Next, s, u) && u == t.(pc := AtWait, fds := {STDOUT, fd}, added := {0}, memberMax := t.memberMax + 1, handlers := u.handlers)
    ensures |u.handlers| == |t.handlers| && Live(u) == {} && !Agreement(u)
  {
    ReachStep(s, t, AddUser);
    u := Step(t, AddUser);
    ReachStep(s, u, PostMember(0));
    u := Step(u, PostMember(0));
    assert Live(u) == {};
    assert fd in u.fds && fd !in {STDOUT} + DescriptorsOf(u, {});
  }

  // Nor need it stay for good: from any such state, when accept returns the same descriptor
  // again, that client's own delUser takes it out.
  lemma {:induction false} StaleEntryEnds(t: Server, fd: int) returns (u: Server)
    requires t.pc == AtWait && t.sem > 0 && t.memberMax > 0 && t.sockets == {} && t.fds == {STDOUT, fd}
    requires IsDescriptor(fd) && fd != STDOUT
    ensures Reaches(Next, t, u) && u.fds == {STDOUT} && u.sockets == {}
  {
    var h := |t.handlers|;
    ReachesSelf(Next, t);
    ReachesConnected(t, t, fd);
    u := Connected(t, fd);
    ReachStep(t, u, AddUser);
    u := Step(u, AddUser);
    assert HandlerAt(u, h, AtRead);
    ReachesServed(t, u, h);
    u := Served(u, h);
    ReachesLeft(t, u, h);
    u := Left(u, h);
  }

  // ----- Broadcasts in the midst of everything else -----

  // A msgBroadcast in progress: its private copy, the loop index and the sends made so far.
  datatype Cast = Cast(copy: set<int>, next: nat, sent: seq<int>)

  datatype Sys = Sys(server: Server, casts: seq<Cast>)

  // Any thread may call msgBroadcast at any time; Begin is its copyFds.
  datatype Move = Other(a: Action) | Begin | Iterate(t: nat)

  predicate CanMove(s: Sys, m: Move) {
    match m
    case Other(a) => Enabled(s.server, a)
    case Begin => true
    case Iterate(t) => t < |s.casts| && s.casts[t].next < FD_SETSIZE
  }

  function Perform(s: Sys, m: Move): Sys
    requires CanMove(s, m)
  {
    match m
    case Other(a) => s.(server := Step(s.server, a))
    case Begin => s.(casts := s.casts + [Cast(s.server.fds, 0, [])])
    case Iterate(t) =>
      var c := s.casts[t];
      s.(casts := s.casts[t := Cast(c.copy, c.next + 1, if c.next in c.copy then c.sent + [c.next] else c.sent)])
  }

  ghost predicate IsExecution(trace: seq<Sys>, moves: seq<Move>, limits: nat) {
    && |trace| == |moves| + 1
    && Init(trace[0].server, limits) && trace[0].casts == []
    && forall i :: 0 <= i < |moves| ==> CanMove(trace[i], moves[i]) && trace[i + 1] == Perform(trace[i], moves[i])
  }

  // The moment at which cast t copied the set.
  ghost predicate CopiedAt(trace: seq<Sys>, moves: seq<Move>, t: nat, j: nat) {
    j < |moves| < |trace| && moves[j] == Begin && |trace[j].casts| == t
  }

  lemma {:induction false} CastInv(trace: seq<Sys>, moves: seq<Move>, limits: nat, i: nat, t: nat)
    returns (j: nat)
    requires IsExecution(trace, moves, limits) && i < |trace| && t < |trace[i].casts|
    ensures j < i && CopiedAt(trace, moves, t, j)
    ensures var c := trace[i].casts[t];
      c.copy == trace[j].server.fds && c.next <= FD_SETSIZE && c.sent == Ascending(c.copy, c.next)
  {
    if t < |trace[i - 1].casts| {
      j := CastInv(trace, moves, limits, i - 1, t);
    } else {
      j := i - 1;
    }
  }

  // Snapshot broadcast: whatever the other threads do during its sends, a finished broadcast
  // has sent once, in ascending order, to exactly the members that the set had at one instant,
  // that of its copyFds; and an unfinished one has done so up to its loop index.
  lemma {:induction false} SnapshotBroadcast(trace: seq<Sys>, moves: seq<Move>, limits: nat, i: nat, t: nat)
    requires IsExecution(trace, moves, limits) && i < |trace| && t < |trace[i].casts|
    ensures exists j: nat :: j < i && CopiedAt(trace, moves, t, j) && var c := trace[i].casts[t];
      && (forall k, l :: 0 <= k < l < |c.sent| ==> c.sent[k] < c.sent[l])
      && (forall fd :: fd in c.sent <==> 0 <= fd < c.next && fd in trace[j].server.fds)
      && (c.next == FD_SETSIZE ==> c.sent == Ascending(trace[j].server.fds, FD_SETSIZE))
  {
    var j := CastInv(trace, moves, limits, i, t);
    AscendingExact(trace[i].casts[t].copy, trace[i].casts[t].next);
  }

  ghost predicate OrderlyExecution(trace: seq<Sys>, moves: seq<Move>, limits: nat) {
    && IsExecution(trace, moves, limits)
    && forall i :: 0 <= i < |moves| && moves[i].Other? ==> Orderly(trace[i].server, moves[i].a)
  }

  lemma {:induction false} ExecutionRegistry(trace: seq<Sys>, moves: seq<Move>, limits: nat, i: nat)
    requires OrderlyExecution(trace, moves, limits) && i < |trace|
    ensures var s := trace[i].server; Inv(s, limits) && Agreement(s) && Distinct(s) && History(s)
  {
    if i == 0 {
      assert DescriptorsOf(trace[0].server, Live(trace[0].server)) == {};
    } else {
      ExecutionRegistry(trace, moves, limits, i - 1);
      var s := trace[i - 1].server;
      if moves[i - 1].Other? {
        var a := moves[i - 1].a;
        StepTokens(s, a);
        StepPermits(s, a, limits);
        StepHandoff(s, a);
        StepSockets(s, a);
        StepHistory(s, a);
        StepDistinct(s, a);
        StepAgreement(s, a);
      }
    }
  }

  // Registry agreement: in every state of every run with that order of calls, the set is
  // STDOUT and the descriptors of the connections added and not yet deleted, one for each.
  lemma {:induction false} RegistryAgreement(trace: seq<Sys>, moves: seq<Move>, limits: nat, i: nat)
    requires OrderlyExecution(trace, moves, limits) && i < |trace|
    ensures var s := trace[i].server;
      && (forall c :: c in Live(s) ==> c < |s.fdOf|)
      && s.fds == {STDOUT} + (set c | c in Live(s) && c < |s.fdOf| :: s.fdOf[c])
      && (forall c, d :: c in Live(s) && d in Live(s) && c < d < |s.fdOf| ==> s.fdOf[c] != s.fdOf[d])
  {
    ExecutionRegistry(trace, moves, limits, i);
  }

  // Both together: a finished broadcast has reached the terminal and every connection that was
  // live when it copied the set, each once, and nobody else.
  lemma {:induction false} BroadcastReachesLive(trace: seq<Sys>, moves: seq<Move>, limits: nat, i: nat, t: nat)
    requires OrderlyExecution(trace, moves, limits) && i < |trace| && t < |trace[i].casts|
    requires trace[i].casts[t].next == FD_SETSIZE
    ensures exists j: nat :: j < i && CopiedAt(trace, moves, t, j) && var s, sent := trace[j].server, trace[i].casts[t].sent;
      && (forall fd :: fd in sent <==> fd == STDOUT || exists c :: c in Live(s) && c < |s.fdOf| && s.fdOf[c] == fd)
      && (forall k, l :: 0 <= k < l < |sent| ==> sent[k] != sent[l])
  {
    var j := CastInv(trace, moves, limits, i, t);
    AscendingExact(trace[i].casts[t].copy, FD_SETSIZE);
    ExecutionRegistry(trace, moves, limits, j);
    var s, sent := trace[j].server, trace[i].casts[t].sent;
    assert forall fd :: fd in sent <==> 0 <= fd < FD_SETSIZE && fd in s.fds;
  }
}
