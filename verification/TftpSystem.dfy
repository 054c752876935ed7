/** The download client, one RFC 1350 server and a network that loses, duplicates, delays
    and reorders packets, as a state machine. */
module TftpSystem {
  import opened Basics
  import opened TftpPackets
  import opened TftpDownload

  // block is the true index of the block in flight (0 before the request arrives).
  datatype Server = Server(file: seq<Byte>, block: nat, closed: bool)

  // accepted counts the acknowledgements the client has sent.
  datatype Sys = Sys(client: Client, server: Server,
                     toServer: multiset<Packet>, toClient: multiset<Packet>, accepted: nat)

  datatype Action =
    | ClientReceives(p: Packet, fault: Fault)
    | ServerReceives(p: Packet)
    | ServerResends
    | ServerAborts(message: Packet)
    | LoseToServer(p: Packet)
    | LoseToClient(p: Packet)
    | CopyToServer(p: Packet)
    | CopyToClient(p: Packet)

  // Sections 2, 4, 5 and 6: a request opens the transfer with block 1; the acknowledgement
  // of the block in flight moves to the next one, or ends the transfer after the last.
  function ServerStep(srv: Server, p: Packet): (r: (Server, Option<Packet>))
  {
    if srv.closed then (srv, None)
    else if srv.block == 0 && IsRequest(p) then
      (srv.(block := 1), Some(DataPacket(srv.file, 1)))
    else if 1 <= srv.block && IsAck(p) && Number(p) == srv.block % NUMBERS then
      if srv.block < BlockCount(srv.file) then
        (srv.(block := srv.block + 1), Some(DataPacket(srv.file, srv.block + 1)))
      else (srv.(closed := true), None)
    else (srv, None)
  }

  function Add(m: multiset<Packet>, p: Option<Packet>): multiset<Packet> {
    if p.Some? then m + multiset{p.value} else m
  }

  ghost predicate Init(s: Sys, request: Packet, file: seq<Byte>) {
    && Fresh(s.client)
    && s.server == Server(file, 0, false)
    && IsRequest(request)
    && s.toServer == multiset{request}
    && s.toClient == multiset{}
    && s.accepted == 0
  }

  predicate Enabled(s: Sys, a: Action) {
    match a
    case ClientReceives(p, _) => p in s.toClient && |s.client.text| == TEXT_SIZE
    case ServerReceives(p) => p in s.toServer
    case ServerResends => !s.server.closed && 1 <= s.server.block <= BlockCount(s.server.file)
    case ServerAborts(m) => !s.server.closed && IsError(m)
    case LoseToServer(p) => p in s.toServer
    case LoseToClient(p) => p in s.toClient
    case CopyToServer(p) => p in s.toServer
    case CopyToClient(p) => p in s.toClient
  }

  function Step(s: Sys, a: Action): Sys
    requires Enabled(s, a)
  {
    match a
    case ClientReceives(p, f) =>
      var (c, reply) := Receive(s.client, p, f);
      Sys(c, s.server, Add(s.toServer, reply), s.toClient - multiset{p},
          s.accepted + if reply.Some? then 1 else 0)
    case ServerReceives(p) =>
      var (srv, reply) := ServerStep(s.server, p);
      Sys(s.client, srv, s.toServer - multiset{p}, Add(s.toClient, reply), s.accepted)
    case ServerResends => s.(toClient := s.toClient + multiset{DataPacket(s.server.file, s.server.block)})
    case ServerAborts(m) => s.(toClient := s.toClient + multiset{m}, server := s.server.(closed := true))
    case LoseToServer(p) => s.(toServer := s.toServer - multiset{p})
    case LoseToClient(p) => s.(toClient := s.toClient - multiset{p})
    case CopyToServer(p) => s.(toServer := s.toServer + multiset{p})
    case CopyToClient(p) => s.(toClient := s.toClient + multiset{p})
  }

  ghost predicate IsPath(trace: seq<Sys>, acts: seq<Action>) {
    && |trace| == |acts| + 1
    && forall i :: 0 <= i < |acts| ==> Enabled(trace[i], acts[i]) && trace[i + 1] == Step(trace[i], acts[i])
  }

  ghost predicate IsRun(trace: seq<Sys>, acts: seq<Action>, request: Packet, file: seq<Byte>) {
    IsPath(trace, acts) && Init(trace[0], request, file)
  }

  // ----- Safety, over every network -----

  ghost predicate IsData(file: seq<Byte>, p: Packet, low: int, high: int) {
    exists i {:trigger DataPacket(file, i)} :: low <= i <= high && i <= BlockCount(file) && 1 <= i && p == DataPacket(file, i)
  }

  ghost predicate AcksUpTo(p: Packet, top: int) {
    exists j {:trigger Ack(j)} :: 1 <= j <= top && j < NUMBERS && p == Ack(j)
  }

  // The number of full or final blocks the client has taken.
  function Taken(c: Client): int {
    if c.phase == Finished then c.num + 1 else c.num
  }

  // The client's part of the invariant, against the server's block in flight.
  ghost predicate SafeClient(c: Client, accepted: nat, block: nat, file: seq<Byte>) {
    && |c.text| == TEXT_SIZE
    && block <= BlockCount(file)
    && 0 <= c.num < BlockCount(file) && c.num < NUMBERS
    && c.num <= block <= c.num + 1
    && (!c.flags ==> c.num == 0 && c.phase != Finished)
    && (c.phase != Exited ==> c.out == Prefix(file, Taken(c)) && accepted == Taken(c))
    && c.out <= file
    && (c.phase == Finished ==> c.num + 1 == BlockCount(file) < NUMBERS && c.out == file)
  }

  ghost predicate FromServer(m: multiset<Packet>, file: seq<Byte>, block: int) {
    forall p :: p in m ==> IsError(p) || IsData(file, p, 1, block)
  }

  ghost predicate FromClient(m: multiset<Packet>, top: int) {
    forall p :: p in m ==> IsRequest(p) || AcksUpTo(p, top)
  }

  ghost predicate Safe(s: Sys, file: seq<Byte>) {
    && s.server.file == file
    && SafeClient(s.client, s.accepted, s.server.block, file)
    && FromServer(s.toClient, file, s.server.block)
    && FromClient(s.toServer, Taken(s.client))
  }

  lemma {:induction false} InitSafe(s: Sys, request: Packet, file: seq<Byte>)
    requires Init(s, request, file)
    ensures Safe(s, file)
  {}

  // The block-number filter, with an int counter against a 16-bit field: a packet whose true
  // index is at most num + 1 passes exactly when its index is num + 1 and fits 16 bits.
  lemma {:induction false} FilterExact(num: int, i: int)
    requires 1 <= i <= num + 1
    ensures i % NUMBERS == num + 1 <==> i == num + 1 < NUMBERS
  {}

  // Nothing but the text buffer changes, and the loop may have been left.
  ghost predicate NothingTaken(c: Client, c': Client, reply: Option<Packet>) {
    && c'.num == c.num && c'.flags == c.flags && c'.out == c.out && |c'.text| == TEXT_SIZE
    && (c'.phase == c.phase || c'.phase == Refused || c'.phase == Exited)
    && (c.phase != Running ==> c'.phase == c.phase)
    && reply == None
  }

  lemma {:induction false} ReceiveNothing(c: Client, p: Packet, f: Fault)
    requires |c.text| == TEXT_SIZE && |p| >= 4
    requires c.phase != Running || f == RecvFault || IsError(p) || (p[1] == 3 && !c.flags && f == OpenFault)
    ensures NothingTaken(c, Receive(c, p, f).0, Receive(c, p, f).1)
  {
    assert Overlay(c.text, p)[1] == p[1];
  }

  // The invariant survives a DATA packet, whatever its index and whichever call fails.
  lemma {:induction false} TakeSafe(c: Client, c': Client, reply: Option<Packet>, accepted: nat, block: nat, file: seq<Byte>, i: int, f: Fault)
    requires SafeClient(c, accepted, block, file) && c.phase == Running
    requires 1 <= i <= block && Takes(c, c', reply, file, i, f)
    ensures SafeClient(c', accepted + if reply.Some? then 1 else 0, block, file)
    ensures Taken(c) <= Taken(c')
    ensures reply == None || (1 <= Taken(c') < NUMBERS && reply == Some(Ack(Taken(c'))))
  {
    FilterExact(c.num, i);
    if i == c.num + 1 < NUMBERS {
      NextSafe(c, c', reply, accepted, block, file, f);
    }
  }

  // The packet of the next block is taken.
  lemma {:induction false} NextSafe(c: Client, c': Client, reply: Option<Packet>, accepted: nat, block: nat, file: seq<Byte>, f: Fault)
    requires SafeClient(c, accepted, block, file) && c.phase == Running
    requires c.num + 1 <= block && c.num + 1 < NUMBERS && Takes(c, c', reply, file, c.num + 1, f)
    ensures SafeClient(c', accepted + if reply.Some? then 1 else 0, block, file)
    ensures Taken(c) <= Taken(c')
    ensures reply == None || (1 <= Taken(c') < NUMBERS && reply == Some(Ack(Taken(c'))))
  {
    PrefixGrows(file, c.num);
  }

  lemma {:induction false} ReceiveSafe(c: Client, accepted: nat, block: nat, p: Packet, f: Fault, file: seq<Byte>)
    requires SafeClient(c, accepted, block, file)
    requires IsError(p) || IsData(file, p, 1, block)
    ensures var (c', reply) := Receive(c, p, f);
      && SafeClient(c', accepted + if reply.Some? then 1 else 0, block, file)
      && Taken(c) <= Taken(c')
      && (reply == None || (1 <= Taken(c') < NUMBERS && reply == Some(Ack(Taken(c')))))
  {
    if IsData(file, p, 1, block) && c.phase == Running && f != RecvFault && (c.flags || f != OpenFault) {
      var i :| 1 <= i <= block && p == DataPacket(file, i);
      ReceiveData(c, file, i, f);
      TakeSafe(c, Receive(c, p, f).0, Receive(c, p, f).1, accepted, block, file, i, f);
    } else {
      ReceiveNothing(c, p, f);
    }
  }

  lemma {:induction false} ClientStepSafe(s: Sys, p: Packet, f: Fault, file: seq<Byte>)
    requires Safe(s, file) && p in s.toClient
    ensures Safe(Step(s, ClientReceives(p, f)), file)
  {
    ReceiveSafe(s.client, s.accepted, s.server.block, p, f, file);
    var (c', reply) := Receive(s.client, p, f);
    forall q | q in Add(s.toServer, reply) ensures IsRequest(q) || AcksUpTo(q, Taken(c')) {
      if q in s.toServer && !IsRequest(q) {
        var j :| 1 <= j <= Taken(s.client) && j < NUMBERS && q == Ack(j);
      }
    }
  }

  lemma {:induction false} AckNumber(j: int)
    requires 0 <= j < NUMBERS
    ensures Number(Ack(j)) == j && IsAck(Ack(j)) && !IsRequest(Ack(j))
  {}

  // The server only leaves a block that the client has taken.
  lemma {:induction false} ServerReplySafe(srv: Server, p: Packet, top: int)
    requires srv.block <= BlockCount(srv.file) && 0 <= top && srv.block <= top + 1 <= NUMBERS
    requires IsRequest(p) || AcksUpTo(p, top)
    ensures var (srv', reply) := ServerStep(srv, p);
      && srv'.file == srv.file && srv.block <= srv'.block <= BlockCount(srv.file)
      && srv'.block <= top + 1
      && (reply == None || (1 <= srv'.block && reply == Some(DataPacket(srv.file, srv'.block))))
  {
    if !IsRequest(p) {
      var j :| 1 <= j <= top && j < NUMBERS && p == Ack(j);
      AckNumber(j);
    }
  }

  lemma {:induction false} ServerStepSafe(s: Sys, p: Packet, file: seq<Byte>)
    requires Safe(s, file) && p in s.toServer
    ensures Safe(Step(s, ServerReceives(p)), file)
  {
    var c := s.client;
    ServerReplySafe(s.server, p, Taken(c));
    var (srv', reply) := ServerStep(s.server, p);
    forall q | q in Add(s.toClient, reply) ensures IsError(q) || IsData(file, q, 1, srv'.block) {
      if q in s.toClient && !IsError(q) {
        var i :| 1 <= i <= s.server.block && q == DataPacket(file, i);
      }
    }
  }

  lemma {:induction false} StepSafe(s: Sys, a: Action, file: seq<Byte>)
    requires Safe(s, file) && Enabled(s, a)
    ensures Safe(Step(s, a), file)
  {
    match a
    case ClientReceives(p, f) => ClientStepSafe(s, p, f, file);
    case ServerReceives(p) => ServerStepSafe(s, p, file);
    case ServerResends =>
      assert IsData(file, DataPacket(file, s.server.block), 1, s.server.block);
    case _ =>
  }

  lemma {:induction false} PathSafe(trace: seq<Sys>, acts: seq<Action>, file: seq<Byte>, i: nat)
    requires IsPath(trace, acts) && i < |trace| && Safe(trace[0], file)
    ensures Safe(trace[i], file)
  {
    if i == 0 {
    } else {
      PathSafe(trace, acts, file, i - 1);
      StepSafe(trace[i - 1], acts[i - 1], file);
    }
  }

  lemma {:induction false} RunSafe(trace: seq<Sys>, acts: seq<Action>, request: Packet, file: seq<Byte>, i: nat)
    requires IsRun(trace, acts, request, file) && i < |trace|
    ensures Safe(trace[i], file)
  {
    InitSafe(trace[0], request, file);
    PathSafe(trace, acts, file, i);
  }

  // Main safety result: in every reachable state of every run the output is blocks 1..num of
  // the server's file and nothing else, and a successful return means the whole file. A system
  // call that fails may end the client in between, with a prefix of the file still.
  lemma {:induction false} DownloadSafety(trace: seq<Sys>, acts: seq<Action>, request: Packet, file: seq<Byte>, i: nat)
    requires IsRun(trace, acts, request, file) && i < |trace|
    ensures var c := trace[i].client;
      && 0 <= c.num
      && (c.phase == Running || c.phase == Refused ==> c.out == Prefix(file, c.num))
      && (c.phase == Finished ==> c.out == file)
      && c.out <= file
    ensures forall p :: p in trace[i].toClient ==> IsError(p) || IsData(file, p, 1, trace[i].client.num + 1)
  {
    RunSafe(trace, acts, request, file, i);
    var s := trace[i];
    forall p | p in s.toClient && !IsError(p) ensures IsData(file, p, 1, s.client.num + 1) {
      var j :| 1 <= j <= s.server.block && p == DataPacket(file, j);
    }
  }

  // An error packet ends the transfer: a client that was running when it arrived has returned in
  // every continuation, has sent nothing since and has written nothing since.
  lemma {:induction false} ErrorEnds(trace: seq<Sys>, acts: seq<Action>, i: nat, j: nat)
    requires IsPath(trace, acts) && i < j < |trace|
    requires acts[i].ClientReceives? && IsError(acts[i].p) && acts[i].fault != RecvFault && trace[i].client.phase == Running
    ensures var c, c' := trace[i].client, trace[j].client;
      && c'.phase == Refused && c'.num == c.num && c'.flags == c.flags && c'.out == c.out
      && trace[j].accepted == trace[i].accepted
  {
    if j == i + 1 {
      PassExact(trace[i].client, acts[i].p, acts[i].fault);
    } else {
      ErrorEnds(trace, acts, i, j - 1);
    }
  }

  // The 16-bit field decides a bound: no run over any network reports success on a file that
  // needs more than 65535 blocks, and a success comes after exactly one acceptance per block.
  lemma {:induction false} CompletionBound(trace: seq<Sys>, acts: seq<Action>, request: Packet, file: seq<Byte>, i: nat)
    requires IsRun(trace, acts, request, file) && i < |trace|
    requires trace[i].client.phase == Finished
    ensures BlockCount(file) < NUMBERS
    ensures trace[i].accepted == BlockCount(file)
  {
    RunSafe(trace, acts, request, file, i);
  }
}
