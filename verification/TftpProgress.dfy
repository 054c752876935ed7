/** When the download completes: every loss-free run of a file that fits the 16-bit block
    numbers, and no run at all of one that does not. */
module TftpProgress {
  import opened Basics
  import opened TftpPackets
  import opened TftpDownload
  import opened TftpSystem

  // Nothing is lost and nothing fails; packets may still be copied, delayed, reordered and
  // sent again by the server's timeouts.
  predicate LossFree(a: Action) {
    match a
    case ClientReceives(_, f) => f == NoFault
    case ServerReceives(_) => true
    case ServerResends => true
    case CopyToServer(_) => true
    case CopyToClient(_) => true
    case _ => false
  }

  ghost predicate LossFreeRun(trace: seq<Sys>, acts: seq<Action>, request: Packet, file: seq<Byte>) {
    IsRun(trace, acts, request, file) && forall i :: 0 <= i < |acts| ==> LossFree(acts[i])
  }

  predicate IsDelivery(a: Action) {
    a.ClientReceives? || a.ServerReceives?
  }

  function Deliveries(acts: seq<Action>): nat {
    if acts == [] then 0 else Deliveries(acts[..|acts| - 1]) + if IsDelivery(acts[|acts| - 1]) then 1 else 0
  }

  // Some packet in flight carries the transfer on: the request, the block the client waits
  // for, or the acknowledgement the server waits for.
  ghost predicate Pending(s: Sys) {
    var c := s.client; var srv := s.server;
    || (srv.block == 0 && c.num == 0 && exists r :: r in s.toServer && IsRequest(r))
    || (1 <= srv.block == c.num + 1 && srv.block <= BlockCount(srv.file) && DataPacket(srv.file, srv.block) in s.toClient)
    || (1 <= srv.block == c.num < NUMBERS && Ack(c.num) in s.toServer)
  }

  ghost predicate OnlyData(m: multiset<Packet>, file: seq<Byte>, block: int) {
    forall p :: p in m ==> IsData(file, p, 1, block)
  }

  ghost predicate Live(s: Sys, file: seq<Byte>) {
    && Safe(s, file)
    && OnlyData(s.toClient, file, s.server.block)
    && (s.client.phase == Finished || (s.client.phase == Running && !s.server.closed && Pending(s)))
  }

  ghost predicate Ready(s: Sys) {
    s.client.phase == Finished || (s.client.phase == Running && !s.server.closed && Pending(s))
  }

  function Potential(s: Sys): int {
    |s.toServer| + |s.toClient| + (BlockCount(s.server.file) - s.server.block) + (BlockCount(s.server.file) - Taken(s.client))
  }

  lemma {:induction false} ClientLive(s: Sys, p: Packet, file: seq<Byte>)
    requires Live(s, file) && BlockCount(file) < NUMBERS && p in s.toClient
    ensures var s' := Step(s, ClientReceives(p, NoFault));
      Live(s', file) && Potential(s') < Potential(s)
  {
    var s' := Step(s, ClientReceives(p, NoFault));
    ClientStepSafe(s, p, NoFault, file);
    if s.client.phase == Running {
      var i :| 1 <= i <= s.server.block && p == DataPacket(file, i);
      ReceiveData(s.client, file, i, NoFault);
      TakesReady(s, s', p, Receive(s.client, p, NoFault).1, file, i);
    }
  }

  lemma {:induction false} TakesReady(s: Sys, s': Sys, p: Packet, reply: Option<Packet>, file: seq<Byte>, i: int)
    requires Ready(s) && s.client.phase == Running && p in s.toClient && s.server.file == file
    requires 1 <= i <= s.server.block <= BlockCount(file) < NUMBERS && s.server.block <= s.client.num + 1
    requires p == DataPacket(file, i) && Takes(s.client, s'.client, reply, file, i, NoFault)
    requires s'.server == s.server && s'.toServer == Add(s.toServer, reply) && s'.toClient == s.toClient - multiset{p}
    ensures Ready(s') && Potential(s') < Potential(s)
  {
    ClientTakes(s.client, s'.client, reply, s.server.block, file, i);
    if i == s.client.num + 1 {
      assert Ack(Taken(s'.client)) in s'.toServer;
    }
  }

  // Of the blocks up to the one in flight, a running client takes exactly the next.
  lemma {:induction false} ClientTakes(c: Client, c': Client, reply: Option<Packet>, block: nat, file: seq<Byte>, i: int)
    requires 1 <= i <= block <= BlockCount(file) < NUMBERS && c.phase == Running && block <= c.num + 1
    requires Takes(c, c', reply, file, i, NoFault)
    ensures if i == c.num + 1
      then block == c.num + 1 == Taken(c') && Taken(c) < Taken(c') && (c'.phase == Finished || c'.phase == Running) && reply == Some(Ack(Taken(c')))
      else c'.num == c.num && c'.phase == Running && reply == None
    ensures i != block ==> DataPacket(file, i) != DataPacket(file, block)
  {
    FilterExact(c.num, i);
    if i != block {
      OtherPacket(file, i, block);
    }
  }

  lemma {:induction false} OtherPacket(file: seq<Byte>, i: int, k: int)
    requires 1 <= i <= BlockCount(file) && 1 <= k <= BlockCount(file) && i % NUMBERS != k % NUMBERS
    ensures DataPacket(file, i) != DataPacket(file, k)
  {
    assert Number(DataPacket(file, i)) == i % NUMBERS && Number(DataPacket(file, k)) == k % NUMBERS;
  }

  lemma {:induction false} ServerLive(s: Sys, p: Packet, file: seq<Byte>)
    requires Live(s, file) && BlockCount(file) < NUMBERS && p in s.toServer
    ensures var s' := Step(s, ServerReceives(p));
      Live(s', file) && Potential(s') < Potential(s)
  {
    var s' := Step(s, ServerReceives(p));
    var reply := ServerStep(s.server, p).1;
    ServerStepSafe(s, p, file);
    ServerReplySafe(s.server, p, Taken(s.client));
    OnlyDataKept(s, s'.server, reply, file);
    ServerAnswers(s.server, p, Taken(s.client));
    if reply.Some? {
      AnsweredLive(s, s', p, reply, file);
    } else {
      UnansweredLive(s, s', p, file);
    }
  }

  lemma {:induction false} AnsweredLive(s: Sys, s': Sys, p: Packet, reply: Option<Packet>, file: seq<Byte>)
    requires Live(s, file) && Safe(s', file) && p in s.toServer && OnlyData(s'.toClient, file, s'.server.block)
    requires s'.client == s.client && s'.toServer == s.toServer - multiset{p} && s'.toClient == Add(s.toClient, reply)
    requires !s'.server.closed && s'.server.block == s.server.block + 1
    requires reply == Some(DataPacket(file, s'.server.block))
    ensures Live(s', file) && Potential(s') < Potential(s)
  {
    assert DataPacket(file, s'.server.block) in s'.toClient;
  }

  lemma {:induction false} UnansweredLive(s: Sys, s': Sys, p: Packet, file: seq<Byte>)
    requires Live(s, file) && Safe(s', file) && p in s.toServer && OnlyData(s'.toClient, file, s'.server.block)
    requires s'.client == s.client && s'.toServer == s.toServer - multiset{p} && s'.toClient == s.toClient
    requires s'.server.block == s.server.block
    requires BlockCount(file) < NUMBERS && (s'.server.closed ==> s.server.closed || p == Ack(BlockCount(file)))
    requires s.server.closed
      || !((s.server.block == 0 && IsRequest(p)) || (1 <= s.server.block < BlockCount(file) && p == Ack(s.server.block)))
    ensures Live(s', file) && Potential(s') < Potential(s)
  {
    if s.client.phase == Running && !IsRequest(p) {
      var j :| 1 <= j <= s.client.num && p == Ack(j);
      AckNumber(j);
      AckNumber(BlockCount(file));
    }
  }

  lemma {:induction false} OnlyDataKept(s: Sys, srv': Server, reply: Option<Packet>, file: seq<Byte>)
    requires OnlyData(s.toClient, file, s.server.block) && s.server.block <= srv'.block <= BlockCount(file)
    requires reply == None || (1 <= srv'.block && reply == Some(DataPacket(file, srv'.block)))
    ensures OnlyData(Add(s.toClient, reply), file, srv'.block)
  {
    forall q | q in Add(s.toClient, reply) ensures IsData(file, q, 1, srv'.block) {
      if q in s.toClient {
        var i :| 1 <= i <= s.server.block && q == DataPacket(file, i);
      }
    }
  }

  lemma {:induction false} ServerOnAck(srv: Server, j: int)
    requires 1 <= j < NUMBERS && srv.block <= BlockCount(srv.file)
    ensures ServerStep(srv, Ack(j)) ==
      if srv.closed || srv.block == 0 || j != srv.block % NUMBERS then (srv, None)
      else if srv.block < BlockCount(srv.file) then (srv.(block := srv.block + 1), Some(DataPacket(srv.file, srv.block + 1)))
      else (srv.(closed := true), None)
  {
    AckNumber(j);
  }

  lemma {:induction false} SameAck(j: int, k: int)
    requires 0 <= j < NUMBERS && 0 <= k < NUMBERS
    ensures Ack(j) == Ack(k) <==> j == k
  {
    AckNumber(j);
    AckNumber(k);
  }

  lemma {:induction false} ServerAnswers(srv: Server, p: Packet, top: int)
    requires srv.block <= BlockCount(srv.file) < NUMBERS
    requires IsRequest(p) || AcksUpTo(p, top)
    ensures var (srv', reply) := ServerStep(srv, p);
      if !srv.closed && ((srv.block == 0 && IsRequest(p)) || (1 <= srv.block < BlockCount(srv.file) && p == Ack(srv.block)))
      then !srv'.closed && srv'.block == srv.block + 1 && reply == Some(DataPacket(srv.file, srv.block + 1))
      else srv'.block == srv.block && reply == None && (srv'.closed ==> srv.closed || p == Ack(BlockCount(srv.file)))
  {
    if !IsRequest(p) {
      var j :| 1 <= j <= top && j < NUMBERS && p == Ack(j);
      ServerOnAck(srv, j);
      AckNumber(j);
      SameAck(j, srv.block);
    }
  }

  lemma {:induction false} ExtraLive(s: Sys, a: Action, file: seq<Byte>)
    requires Live(s, file) && Enabled(s, a) && LossFree(a) && !IsDelivery(a)
    ensures Live(Step(s, a), file) && Potential(Step(s, a)) == Potential(s) + 1
  {
    StepSafe(s, a, file);
    if a.ServerResends? {
      assert IsData(file, DataPacket(file, s.server.block), 1, s.server.block);
    }
  }

  lemma {:induction false} InitLive(s: Sys, request: Packet, file: seq<Byte>)
    requires Init(s, request, file)
    ensures Live(s, file) && Potential(s) == 1 + 2 * BlockCount(file)
  {
    assert request in s.toServer;
  }

  lemma {:induction false} RunLive(trace: seq<Sys>, acts: seq<Action>, request: Packet, file: seq<Byte>)
    requires LossFreeRun(trace, acts, request, file) && BlockCount(file) < NUMBERS
    ensures Live(trace[|acts|], file)
    ensures Potential(trace[|acts|]) + 2 * Deliveries(acts) <= 1 + 2 * BlockCount(file) + |acts|
    decreases |acts|
  {
    if acts == [] {
      InitLive(trace[0], request, file);
    } else {
      var n := |acts| - 1;
      RunLive(trace[..n + 1], acts[..n], request, file);
      var s, a := trace[n], acts[n];
      match a {
        case ClientReceives(p, _) => ClientLive(s, p, file);
        case ServerReceives(p) => ServerLive(s, p, file);
        case _ => ExtraLive(s, a, file);
      }
    }
  }

  // A live state with nothing left to deliver is a finished one.
  lemma {:induction false} NothingInFlight(s: Sys, file: seq<Byte>)
    requires Live(s, file) && |s.toServer| + |s.toClient| == 0
    ensures s.client.phase == Finished
  {
    assert forall p :: p !in s.toServer && p !in s.toClient;
  }

  // Main progress result. A loss-free run can only stop at success, with one acceptance per
  // block; and it has got there once its deliveries outnumber what the transfer needs plus
  // the copies and retransmissions (the other actions) it contains.
  lemma {:induction false} LossFreeCompletes(trace: seq<Sys>, acts: seq<Action>, request: Packet, file: seq<Byte>)
    requires LossFreeRun(trace, acts, request, file) && BlockCount(file) < NUMBERS
    requires var s := trace[|acts|];
      || |s.toServer| + |s.toClient| == 0
      || Deliveries(acts) >= 1 + 2 * BlockCount(file) + (|acts| - Deliveries(acts))
    ensures var s := trace[|acts|];
      s.client.phase == Finished && s.client.out == file && s.accepted == BlockCount(file)
  {
    RunLive(trace, acts, request, file);
    NothingInFlight(trace[|acts|], file);
  }

  // ----- From which states success can still be reached -----

  // The transfer waits for a packet that nobody will send again: the client never repeats its
  // request, and never acknowledges a block twice.
  ghost predicate Stalled(s: Sys) {
    var c := s.client; var k := s.server.block;
    && c.phase != Finished
    && c.num == k < NUMBERS
    && (if k == 0 then forall r :: r in s.toServer ==> !IsRequest(r) else Ack(k) !in s.toServer)
  }

  ghost predicate CanFinish(s: Sys) {
    exists trace: seq<Sys>, acts: seq<Action> ::
      IsPath(trace, acts) && trace[0] == s && trace[|acts|].client.phase == Finished
  }

  lemma {:induction false} ClientStalled(s: Sys, p: Packet, f: Fault, file: seq<Byte>)
    requires Safe(s, file) && Stalled(s) && p in s.toClient
    ensures Stalled(Step(s, ClientReceives(p, f)))
  {
    var c := s.client;
    if !IsError(p) && c.phase == Running && f != RecvFault && (c.flags || f != OpenFault) {
      var i :| 1 <= i <= s.server.block && p == DataPacket(file, i);
      ReceiveData(c, file, i, f);
      FilterExact(c.num, i);
    } else {
      ReceiveNothing(c, p, f);
    }
  }

  lemma {:induction false} ServerStalled(s: Sys, p: Packet, file: seq<Byte>)
    requires Safe(s, file) && Stalled(s) && p in s.toServer
    ensures Stalled(Step(s, ServerReceives(p)))
  {
    ServerIgnores(s.server, p, Taken(s.client));
    assert Step(s, ServerReceives(p)) == s.(toServer := s.toServer - multiset{p});
  }

  lemma {:induction false} ServerIgnores(srv: Server, p: Packet, top: int)
    requires srv.block < NUMBERS && (IsRequest(p) || AcksUpTo(p, top))
    requires if srv.block == 0 then !IsRequest(p) else p != Ack(srv.block)
    ensures ServerStep(srv, p) == (srv, None)
  {
    if !IsRequest(p) {
      var j :| 1 <= j <= top && j < NUMBERS && p == Ack(j);
      if srv.block > 0 { SameAck(j, srv.block); }
      ServerIgnoresAck(srv, j);
    }
  }

  lemma {:induction false} ServerIgnoresAck(srv: Server, j: int)
    requires 1 <= j < NUMBERS && srv.block < NUMBERS && srv.block != j
    ensures ServerStep(srv, Ack(j)) == (srv, None)
  {
    AckNumber(j);
    assert srv.block % NUMBERS == srv.block;
  }

  lemma {:induction false} StepStalled(s: Sys, a: Action, file: seq<Byte>)
    requires Safe(s, file) && Stalled(s) && Enabled(s, a)
    ensures Stalled(Step(s, a))
  {
    match a
    case ClientReceives(p, f) => ClientStalled(s, p, f, file);
    case ServerReceives(p) => ServerStalled(s, p, file);
    case _ =>
  }

  lemma {:induction false} StalledForever(trace: seq<Sys>, acts: seq<Action>, file: seq<Byte>, i: nat)
    requires IsPath(trace, acts) && i < |trace| && Safe(trace[0], file) && Stalled(trace[0])
    ensures Stalled(trace[i])
  {
    if i == 0 {
    } else {
      StalledForever(trace, acts, file, i - 1);
      PathSafe(trace, acts, file, i - 1);
      StepStalled(trace[i - 1], acts[i - 1], file);
    }
  }

  ghost predicate Recoverable(s: Sys, file: seq<Byte>) {
    && Safe(s, file)
    && (s.client.phase == Finished || (s.client.phase == Running && !s.server.closed && !Stalled(s)))
  }

  ghost function Remaining(s: Sys): int {
    var T := BlockCount(s.server.file);
    2 * (T - s.server.block + (T - Taken(s.client)))
      + if 1 <= s.server.block <= T && DataPacket(s.server.file, s.server.block) in s.toClient then 0 else 1
  }

  lemma {:induction false} AfterTaking(s: Sys, s': Sys, reply: Option<Packet>, file: seq<Byte>)
    requires Recoverable(s, file) && BlockCount(file) < NUMBERS && Safe(s', file)
    requires s.server.block == s.client.num + 1 == Taken(s'.client) && Taken(s.client) < Taken(s'.client)
    requires s'.server == s.server && s'.toServer == Add(s.toServer, reply) && reply == Some(Ack(Taken(s'.client)))
    requires s'.client.phase == Finished || s'.client.phase == Running
    ensures Recoverable(s', file) && Remaining(s') < Remaining(s)
  {
    assert Ack(Taken(s'.client)) in s'.toServer;
  }

  lemma {:induction false} DeliverData(s: Sys, file: seq<Byte>)
    requires Recoverable(s, file) && BlockCount(file) < NUMBERS && s.client.phase == Running
    requires s.server.block == s.client.num + 1 && DataPacket(file, s.server.block) in s.toClient
    ensures var s' := Step(s, ClientReceives(DataPacket(file, s.server.block), NoFault));
      Recoverable(s', file) && Remaining(s') < Remaining(s)
  {
    var c := s.client; var k := s.server.block; var p := DataPacket(file, k);
    var s' := Step(s, ClientReceives(p, NoFault));
    ClientStepSafe(s, p, NoFault, file);
    ReceiveData(c, file, k, NoFault);
    var (c', reply) := Receive(c, p, NoFault);
    ClientTakes(c, c', reply, k, file, k);
    AfterTaking(s, s', reply, file);
  }

  lemma {:induction false} DeliverToServer(s: Sys, p: Packet, file: seq<Byte>)
    requires Recoverable(s, file) && BlockCount(file) < NUMBERS && s.client.phase == Running
    requires s.server.block == s.client.num && p in s.toServer
    requires if s.server.block == 0 then IsRequest(p) else p == Ack(s.server.block)
    ensures var s' := Step(s, ServerReceives(p));
      Recoverable(s', file) && Remaining(s') < Remaining(s)
  {
    ServerStepSafe(s, p, file);
    if s.server.block > 0 { AckNumber(s.server.block); }
    ServerAnswers(s.server, p, Taken(s.client));
  }

  // The action that carries a recoverable, unfinished state on.
  lemma {:induction false} NextAction(s: Sys, file: seq<Byte>) returns (a: Action)
    requires Recoverable(s, file) && BlockCount(file) < NUMBERS && s.client.phase != Finished
    ensures Enabled(s, a) && Recoverable(Step(s, a), file) && Remaining(Step(s, a)) < Remaining(s)
  {
    var k := s.server.block;
    if k == s.client.num + 1 {
      if DataPacket(file, k) in s.toClient {
        a := ClientReceives(DataPacket(file, k), NoFault);
        DeliverData(s, file);
      } else {
        a := ServerResends;
        StepSafe(s, a, file);
      }
    } else {
      var p :| p in s.toServer && if k == 0 then IsRequest(p) else p == Ack(k);
      a := ServerReceives(p);
      DeliverToServer(s, p, file);
    }
  }

  lemma {:induction false} ExtendPath(trace: seq<Sys>, acts: seq<Action>, a: Action) returns (trace': seq<Sys>, acts': seq<Action>)
    requires IsPath(trace, acts) && Enabled(trace[|acts|], a)
    ensures trace' == trace + [Step(trace[|acts|], a)] && acts' == acts + [a] && IsPath(trace', acts')
  {
    var n := |acts|;
    trace', acts' := trace + [Step(trace[n], a)], acts + [a];
    forall i | 0 <= i < |acts'| ensures Enabled(trace'[i], acts'[i]) && trace'[i + 1] == Step(trace'[i], acts'[i]) {
      if i < n {
        assert trace'[i] == trace[i] && trace'[i + 1] == trace[i + 1] && acts'[i] == acts[i];
      } else {
        assert trace'[i] == trace[n] && acts'[i] == a;
      }
    }
  }

  lemma {:induction false} Finish(trace: seq<Sys>, acts: seq<Action>, file: seq<Byte>)
    requires IsPath(trace, acts) && Recoverable(trace[|acts|], file) && BlockCount(file) < NUMBERS
    ensures CanFinish(trace[0])
    decreases Remaining(trace[|acts|])
  {
    var s := trace[|acts|];
    if s.client.phase == Finished {
    } else {
      var a := NextAction(s, file);
      var trace', acts' := ExtendPath(trace, acts, a);
      Finish(trace', acts', file);
    }
  }

  lemma {:induction false} StalledCannotFinish(s: Sys, file: seq<Byte>)
    requires Safe(s, file) && Stalled(s)
    ensures !CanFinish(s)
  {
    forall trace: seq<Sys>, acts: seq<Action> | IsPath(trace, acts) && trace[0] == s
      ensures trace[|acts|].client.phase != Finished
    {
      StalledForever(trace, acts, file, |acts|);
    }
  }

  // The exact stall condition. While the client runs and the server has not given up, success
  // can still be reached unless the request, or the client's one acknowledgement of the block
  // in flight, has been lost. A lost DATA packet never stalls the transfer.
  lemma {:induction false} StallIff(trace: seq<Sys>, acts: seq<Action>, request: Packet, file: seq<Byte>, i: nat)
    requires IsRun(trace, acts, request, file) && i < |trace| && BlockCount(file) < NUMBERS
    requires trace[i].client.phase == Running && !trace[i].server.closed
    ensures CanFinish(trace[i]) <==> !Stalled(trace[i])
  {
    var s := trace[i];
    RunSafe(trace, acts, request, file, i);
    if Stalled(s) {
      StalledCannotFinish(s, file);
    } else {
      Finish([s], [], file);
    }
  }

  // ----- After the server has given up -----

  // The server has sent its last packet, and the final block is not among those in flight.
  ghost predicate CutOff(s: Sys) {
    && s.server.closed && s.client.phase != Finished
    && (s.server.block == BlockCount(s.server.file) ==> DataPacket(s.server.file, s.server.block) !in s.toClient)
  }

  lemma {:induction false} ClientCutOff(s: Sys, p: Packet, f: Fault, file: seq<Byte>)
    requires Safe(s, file) && CutOff(s) && p in s.toClient
    ensures CutOff(Step(s, ClientReceives(p, f)))
  {
    var c := s.client;
    if !IsError(p) && c.phase == Running && f != RecvFault && (c.flags || f != OpenFault) {
      var i :| 1 <= i <= s.server.block && p == DataPacket(file, i);
      ReceiveData(c, file, i, f);
      NotFinal(s, c, Step(s, ClientReceives(p, f)).client, Receive(c, p, f).1, file, i, f);
    } else {
      ReceiveNothing(c, p, f);
    }
  }

  lemma {:induction false} NotFinal(s: Sys, c: Client, c': Client, reply: Option<Packet>, file: seq<Byte>, i: int, f: Fault)
    requires CutOff(s) && s.server.file == file && c.phase == Running
    requires 1 <= i <= s.server.block <= BlockCount(file) && DataPacket(file, i) in s.toClient && Takes(c, c', reply, file, i, f)
    ensures c'.phase != Finished
  {
    assert i != BlockCount(file);
  }

  lemma {:induction false} StepCutOff(s: Sys, a: Action, file: seq<Byte>)
    requires Safe(s, file) && CutOff(s) && Enabled(s, a)
    ensures CutOff(Step(s, a))
  {
    match a
    case ClientReceives(p, f) => ClientCutOff(s, p, f, file);
    case _ =>
  }

  // The client has returned without success.
  predicate Over(s: Sys) {
    s.client.phase == Refused || s.client.phase == Exited
  }

  lemma {:induction false} CannotFinish(trace: seq<Sys>, acts: seq<Action>, file: seq<Byte>, i: nat)
    requires IsPath(trace, acts) && i < |trace| && Safe(trace[0], file) && (CutOff(trace[0]) || Over(trace[0]))
    ensures CutOff(trace[i]) || Over(trace[i])
  {
    if i == 0 {
    } else {
      var j := i - 1;
      CannotFinish(trace, acts, file, j);
      PathSafe(trace, acts, file, j);
      if CutOff(trace[j]) {
        StepCutOff(trace[j], acts[j], file);
      }
    }
  }

  lemma {:induction false} LastArrives(s: Sys, file: seq<Byte>)
    requires Safe(s, file) && s.client.phase == Running && BlockCount(file) < NUMBERS
    requires s.server.block == BlockCount(file) && DataPacket(file, BlockCount(file)) in s.toClient && s.client.num + 1 == BlockCount(file)
    ensures CanFinish(s)
  {
    var T := BlockCount(file);
    var a := ClientReceives(DataPacket(file, T), NoFault);
    ReceiveData(s.client, file, T, NoFault);
    ClientTakes(s.client, Step(s, a).client, Receive(s.client, a.p, NoFault).1, T, file, T);
    assert IsPath([s], []);
    var trace, acts := ExtendPath([s], [], a);
    assert trace[|acts|] == Step(s, a) && trace[|acts|].client.phase == Finished;
  }

  // From which reachable states success can still be reached: while the server is sending,
  // those that are not stalled; once it has given up or ended the transfer, those in which its
  // last DATA packet carries the final block and is still in flight.
  ghost predicate Open(s: Sys) {
    s.client.phase == Finished || (s.client.phase == Running &&
      if s.server.closed
      then s.server.block == BlockCount(s.server.file) && DataPacket(s.server.file, s.server.block) in s.toClient
      else !Stalled(s))
  }

  lemma {:induction false} CanFinishIff(trace: seq<Sys>, acts: seq<Action>, request: Packet, file: seq<Byte>, i: nat)
    requires IsRun(trace, acts, request, file) && i < |trace| && BlockCount(file) < NUMBERS
    ensures CanFinish(trace[i]) <==> Open(trace[i])
  {
    var s := trace[i];
    RunSafe(trace, acts, request, file, i);
    if s.client.phase == Finished {
      assert IsPath([s], []) && [s][0] == s;
    } else if s.client.phase == Running && !s.server.closed {
      StallIff(trace, acts, request, file, i);
    } else if Open(s) {
      LastArrives(s, file);
    } else {
      assert CutOff(s) || Over(s);
      forall trace': seq<Sys>, acts': seq<Action> | IsPath(trace', acts') && trace'[0] == s
        ensures trace'[|acts'|].client.phase != Finished
      {
        CannotFinish(trace', acts', file, |acts'|);
      }
    }
  }

  // ----- Witnesses -----

  // Stalls do happen: after the first of several blocks has been written, the loss of its
  // acknowledgement leaves a client that runs, a server that has not given up, and no success.
  lemma {:induction false} LostAckStalls(s: Sys, request: Packet, file: seq<Byte>) returns (trace: seq<Sys>, acts: seq<Action>)
    requires Init(s, request, file) && |file| >= 512
    ensures IsRun(trace, acts, request, file) && trace[0] == s
    ensures acts == [ServerReceives(request), ClientReceives(DataPacket(file, 1), NoFault), LoseToServer(Ack(1))]
    ensures var t := trace[3]; t.client.phase == Running && !t.server.closed && t.client.out == file[..512] && !CanFinish(t)
  {
    var s1 := Step(s, ServerReceives(request));
    var s2 := AfterFirstBlock(s, request, file);
    trace, acts := [s], [];
    trace, acts := ExtendPath(trace, acts, ServerReceives(request));
    trace, acts := ExtendPath(trace, acts, ClientReceives(DataPacket(file, 1), NoFault));
    AckLost(s2, file);
    trace, acts := ExtendPath(trace, acts, LoseToServer(Ack(1)));
  }

  lemma {:induction false} AckLost(s: Sys, file: seq<Byte>)
    requires Safe(s, file) && s.server.block == s.client.num == 1 && s.toServer == multiset{Ack(1)} && s.client.phase == Running
    ensures Enabled(s, LoseToServer(Ack(1))) && !CanFinish(Step(s, LoseToServer(Ack(1))))
  {
    StepSafe(s, LoseToServer(Ack(1)), file);
    StalledCannotFinish(Step(s, LoseToServer(Ack(1))), file);
  }

  lemma {:induction false} AfterFirstBlock(s: Sys, request: Packet, file: seq<Byte>) returns (t: Sys)
    requires Init(s, request, file) && |file| >= 512
    ensures Enabled(s, ServerReceives(request))
    ensures var s1 := Step(s, ServerReceives(request)); var a := ClientReceives(DataPacket(file, 1), NoFault);
      Enabled(s1, a) && t == Step(s1, a)
    ensures t.client.phase == Running && t.client.num == 1 && t.client.out == file[..512]
    ensures t.server == Server(file, 1, false) && t.toServer == multiset{Ack(1)} && Safe(t, file)
  {
    var s1 := Step(s, ServerReceives(request));
    InitSafe(s, request, file);
    StepSafe(s, ServerReceives(request), file);
    t := TakeFirst(s1, file);
  }

  lemma {:induction false} TakeFirst(s: Sys, file: seq<Byte>) returns (t: Sys)
    requires Safe(s, file) && s.client.phase == Running && !s.client.flags && s.client.num == 0 && s.client.out == []
    requires s.server == Server(file, 1, false) && |file| >= 512
    requires s.toServer == multiset{} && s.toClient == multiset{DataPacket(file, 1)}
    ensures var a := ClientReceives(DataPacket(file, 1), NoFault); Enabled(s, a) && t == Step(s, a)
    ensures t.client.phase == Running && t.client.num == 1 && t.client.out == file[..512]
    ensures t.server == s.server && t.toServer == multiset{Ack(1)} && Safe(t, file)
  {
    ReceiveData(s.client, file, 1, NoFault);
    assert Block(file, 1) == file[..512];
    t := Step(s, ClientReceives(DataPacket(file, 1), NoFault));
    ClientStepSafe(s, DataPacket(file, 1), NoFault, file);
  }

  // The loss of the DATA packet itself does no such harm.
  lemma {:induction false} LostDataRecovers(s: Sys, request: Packet, file: seq<Byte>) returns (trace: seq<Sys>, acts: seq<Action>)
    requires Init(s, request, file) && BlockCount(file) < NUMBERS
    ensures IsRun(trace, acts, request, file) && trace[0] == s
    ensures acts == [ServerReceives(request), LoseToClient(DataPacket(file, 1))]
    ensures trace[2].toClient == trace[2].toServer == multiset{} && CanFinish(trace[2])
  {
    var s1 := Step(s, ServerReceives(request));
    var s2 := Step(s1, LoseToClient(DataPacket(file, 1)));
    trace, acts := [s, s1, s2], [ServerReceives(request), LoseToClient(DataPacket(file, 1))];
    StallIff(trace, acts, request, file, 2);
  }

  // The exact bound: from the start, success can be reached if and only if the file needs at
  // most 65535 blocks.
  lemma {:induction false} DownloadableIff(s: Sys, request: Packet, file: seq<Byte>)
    requires Init(s, request, file)
    ensures CanFinish(s) <==> |file| / 512 + 1 <= 65535
  {
    if BlockCount(file) < NUMBERS {
      InitSafe(s, request, file);
      assert request in s.toServer;
      Finish([s], [], file);
    }
    forall trace: seq<Sys>, acts: seq<Action> |
      IsPath(trace, acts) && trace[0] == s && trace[|acts|].client.phase == Finished
      ensures BlockCount(file) < NUMBERS
    {
      CompletionBound(trace, acts, request, file, |acts|);
    }
  }
}
