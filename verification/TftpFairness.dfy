/** Completion of the download in infinite runs, under fairness: without loss, and with DATA
    packets lost and sent again. */
module TftpFairness {
  import opened Basics
  import opened TftpPackets
  import opened TftpDownload
  import opened TftpSystem
  import opened TftpProgress

  // Nothing fails, and of the packets in flight only those to the client may be lost.
  predicate Harmless(a: Action) {
    LossFree(a) || a.LoseToClient?
  }

  // ----- One step -----

  // Success can still be reached, and the client is sent nothing but DATA packets.
  ghost predicate Alive(s: Sys, file: seq<Byte>) {
    Recoverable(s, file) && OnlyData(s.toClient, file, s.server.block)
  }

  lemma {:induction false} InitAlive(s: Sys, request: Packet, file: seq<Byte>)
    requires Init(s, request, file)
    ensures Alive(s, file)
  {
    InitSafe(s, request, file);
    assert request in s.toServer;
  }

  lemma {:induction false} ClientAlive(s: Sys, p: Packet, file: seq<Byte>)
    requires Alive(s, file) && BlockCount(file) < NUMBERS && p in s.toClient
    ensures Alive(Step(s, ClientReceives(p, NoFault)), file)
  {
    var s' := Step(s, ClientReceives(p, NoFault));
    ClientStepSafe(s, p, NoFault, file);
    if s.client.phase == Running {
      var i :| 1 <= i <= s.server.block && p == DataPacket(file, i);
      ReceiveData(s.client, file, i, NoFault);
      TakesGoing(s, s', p, Receive(s.client, p, NoFault).1, file, i);
    }
  }

  ghost predicate Going(s: Sys) {
    s.client.phase == Finished || (s.client.phase == Running && !s.server.closed && !Stalled(s))
  }

  lemma {:induction false} TakesGoing(s: Sys, s': Sys, p: Packet, reply: Option<Packet>, file: seq<Byte>, i: int)
    requires Going(s) && s.client.phase == Running && s.server.file == file
    requires 1 <= i <= s.server.block <= BlockCount(file) < NUMBERS && s.server.block <= s.client.num + 1
    requires p == DataPacket(file, i) && Takes(s.client, s'.client, reply, file, i, NoFault)
    requires s'.server == s.server && s'.toServer == Add(s.toServer, reply)
    ensures Going(s')
  {
    ClientTakes(s.client, s'.client, reply, s.server.block, file, i);
    if i == s.client.num + 1 {
      assert Ack(Taken(s'.client)) in s'.toServer;
    }
  }

  lemma {:induction false} ServerAlive(s: Sys, p: Packet, file: seq<Byte>)
    requires Alive(s, file) && BlockCount(file) < NUMBERS && p in s.toServer
    ensures Alive(Step(s, ServerReceives(p)), file)
  {
    var s' := Step(s, ServerReceives(p));
    var reply := ServerStep(s.server, p).1;
    ServerStepSafe(s, p, file);
    ServerReplySafe(s.server, p, Taken(s.client));
    OnlyDataKept(s, s'.server, reply, file);
    ServerAnswers(s.server, p, Taken(s.client));
    if s.client.phase == Running && reply == None {
      UnansweredAlive(s, s', p, file);
    }
  }

  lemma {:induction false} UnansweredAlive(s: Sys, s': Sys, p: Packet, file: seq<Byte>)
    requires Alive(s, file) && Safe(s', file) && p in s.toServer && s.client.phase == Running
    requires s'.client == s.client && s'.toServer == s.toServer - multiset{p} && s'.server.block == s.server.block
    requires BlockCount(file) < NUMBERS && (s'.server.closed ==> s.server.closed || p == Ack(BlockCount(file)))
    requires s.server.closed
      || !((s.server.block == 0 && IsRequest(p)) || (1 <= s.server.block < BlockCount(file) && p == Ack(s.server.block)))
    ensures Recoverable(s', file)
  {
    if !IsRequest(p) {
      var j :| 1 <= j <= s.client.num && p == Ack(j);
      AckNumber(j);
      AckNumber(BlockCount(file));
    }
  }

  lemma {:induction false} StepAlive(s: Sys, a: Action, file: seq<Byte>)
    requires Alive(s, file) && BlockCount(file) < NUMBERS && Enabled(s, a) && Harmless(a)
    ensures Alive(Step(s, a), file)
  {
    match a
    case ClientReceives(p, _) => ClientAlive(s, p, file);
    case ServerReceives(p) => ServerAlive(s, p, file);
    case _ => OtherAlive(s, a, file);
  }

  lemma {:induction false} OtherAlive(s: Sys, a: Action, file: seq<Byte>)
    requires Alive(s, file) && Enabled(s, a) && Harmless(a) && !IsDelivery(a)
    ensures Alive(Step(s, a), file)
  {
    StepSafe(s, a, file);
    if a.ServerResends? {
      assert IsData(file, DataPacket(file, s.server.block), 1, s.server.block);
    }
  }

  // The blocks that the server has not sent and those that the client has not taken.
  function Distance(s: Sys): int {
    (BlockCount(s.server.file) - s.server.block) + (BlockCount(s.server.file) - Taken(s.client))
  }

  ghost predicate Behind(s: Sys, t: Sys) {
    s.server.file == t.server.file && s.server.block <= t.server.block && Taken(s.client) <= Taken(t.client)
  }

  lemma {:induction false} Forward(s: Sys, a: Action, file: seq<Byte>)
    requires Safe(s, file) && Enabled(s, a)
    ensures Behind(s, Step(s, a))
  {
    match a
    case ClientReceives(p, f) => ReceiveSafe(s.client, s.accepted, s.server.block, p, f, file);
    case ServerReceives(p) => ServerReplySafe(s.server, p, Taken(s.client));
    case _ =>
  }

  // The delivery a carries the transfer on from where client and server stand.
  ghost predicate CarriesOn(s: Sys, a: Action) {
    var k := s.server.block;
    match a
    case ClientReceives(p, f) => f == NoFault && 1 <= k == s.client.num + 1 && k <= BlockCount(s.server.file) && p == DataPacket(s.server.file, k)
    case ServerReceives(p) => k == s.client.num < NUMBERS && if k == 0 then IsRequest(p) else p == Ack(k)
    case _ => false
  }

  lemma {:induction false} CarriedOn(s: Sys, a: Action, file: seq<Byte>)
    requires Safe(s, file) && BlockCount(file) < NUMBERS && s.client.phase == Running && !s.server.closed
    requires Enabled(s, a) && CarriesOn(s, a)
    ensures Distance(Step(s, a)) < Distance(s)
  {
    var k := s.server.block;
    match a
    case ClientReceives(p, _) =>
      ReceiveData(s.client, file, k, NoFault);
      ClientTakes(s.client, Step(s, a).client, Receive(s.client, p, NoFault).1, k, file, k);
    case ServerReceives(p) =>
      if k > 0 { AckNumber(k); }
      ServerAnswers(s.server, p, Taken(s.client));
  }

  lemma {:induction false} StillCarries(s: Sys, t: Sys, a: Action)
    requires s.server.file == t.server.file && s.server.block == t.server.block && s.client.num == t.client.num && CarriesOn(s, a)
    ensures CarriesOn(t, a)
  {}

  // The packet that was needed is still needed when it arrives, or the transfer has moved on.
  lemma {:induction false} Nearer(s: Sys, t: Sys, u: Sys, a: Action, file: seq<Byte>)
    requires Safe(t, file) && BlockCount(file) < NUMBERS && Behind(s, t)
    requires t.client.phase == Finished || (t.client.phase == Running && !t.server.closed)
    requires s.client.phase == Running && CarriesOn(s, a) && Enabled(t, a) && u == Step(t, a)
    ensures t.client.phase == Finished || Distance(u) < Distance(s)
  {
    if t.client.phase == Finished {
    } else if s.server.block == t.server.block && s.client.num == t.client.num {
      StillCarries(s, t, a);
      CarriedOn(t, a, file);
    } else {
      Forward(t, a, file);
      Closer(s, t, u);
    }
  }

  lemma {:induction false} Closer(s: Sys, t: Sys, u: Sys)
    requires Behind(s, t) && Behind(t, u) && s.client.phase == t.client.phase == Running
    requires s.server.block != t.server.block || s.client.num != t.client.num
    ensures Distance(u) < Distance(s)
  {}

  // ----- Infinite runs -----

  ghost predicate Moves(trace: nat -> Sys, acts: nat -> Action, i: nat) {
    Enabled(trace(i), acts(i)) && Harmless(acts(i)) && trace(i + 1) == Step(trace(i), acts(i))
  }

  ghost predicate Endless(trace: nat -> Sys, acts: nat -> Action, request: Packet, file: seq<Byte>) {
    Init(trace(0), request, file) && forall i: nat :: Moves(trace, acts, i)
  }

  lemma {:induction false} AliveOn(trace: nat -> Sys, acts: nat -> Action, file: seq<Byte>, j: nat)
    requires Moves(trace, acts, j) && Alive(trace(j), file) && BlockCount(file) < NUMBERS
    ensures Alive(trace(j + 1), file)
  {
    StepAlive(trace(j), acts(j), file);
  }

  lemma {:induction false} AliveAt(trace: nat -> Sys, acts: nat -> Action, request: Packet, file: seq<Byte>, i: nat)
    requires Endless(trace, acts, request, file) && BlockCount(file) < NUMBERS
    ensures Alive(trace(i), file)
  {
    if i == 0 {
      InitAlive(trace(0), request, file);
    } else {
      var j: nat := i - 1;
      AliveAt(trace, acts, request, file, j);
      AliveOn(trace, acts, file, j);
    }
  }

  lemma {:induction false} ForwardOne(trace: nat -> Sys, acts: nat -> Action, request: Packet, file: seq<Byte>, k: nat)
    requires Endless(trace, acts, request, file) && BlockCount(file) < NUMBERS
    ensures Behind(trace(k), trace(k + 1))
  {
    assert Moves(trace, acts, k);
    AliveAt(trace, acts, request, file, k);
    Forward(trace(k), acts(k), file);
  }

  lemma {:induction false} ForwardTo(trace: nat -> Sys, acts: nat -> Action, request: Packet, file: seq<Byte>, i: nat, j: nat)
    requires Endless(trace, acts, request, file) && BlockCount(file) < NUMBERS && i <= j
    ensures Behind(trace(i), trace(j))
    decreases j
  {
    if i == j {
    } else {
      var k: nat := j - 1;
      ForwardTo(trace, acts, request, file, i, k);
      ForwardOne(trace, acts, request, file, k);
    }
  }

  // From state i on a state nearer the end comes, or success.
  ghost predicate Nears(trace: nat -> Sys, i: nat, n: nat) {
    n >= i && (trace(n).client.phase == Finished || Distance(trace(n)) < Distance(trace(i)))
  }

  // The delivery of what is needed brings the run nearer the end.
  lemma {:induction false} NeededArrives(trace: nat -> Sys, acts: nat -> Action, request: Packet, file: seq<Byte>, i: nat, j: nat) returns (n: nat)
    requires Endless(trace, acts, request, file) && BlockCount(file) < NUMBERS && i <= j
    requires trace(i).client.phase == Running && CarriesOn(trace(i), acts(j))
    ensures Nears(trace, i, n)
  {
    AliveAt(trace, acts, request, file, j);
    ForwardTo(trace, acts, request, file, i, j);
    assert Moves(trace, acts, j);
    Nearer(trace(i), trace(j), trace(j + 1), acts(j), file);
    n := if trace(j).client.phase == Finished then j else j + 1;
  }

  lemma {:induction false} AliveDistance(s: Sys, file: seq<Byte>)
    requires Alive(s, file)
    ensures Distance(s) >= 0 && (s.client.phase == Finished || s.client.phase == Running)
    ensures s.client.phase == Finished ==> s.client.out == file && s.accepted == BlockCount(file)
  {}

  ghost predicate Succeeds(s: Sys, file: seq<Byte>) {
    s.client.phase == Finished && s.client.out == file && s.accepted == BlockCount(file)
  }

  // ----- Without loss -----

  ghost predicate Lossless(acts: nat -> Action, i: nat) {
    LossFree(acts(i))
  }

  // Each packet in flight before step i is delivered some time.
  ghost predicate Delivers(trace: nat -> Sys, acts: nat -> Action, i: nat) {
    && (forall p :: p in trace(i).toClient ==> exists j: nat :: j >= i && acts(j) == ClientReceives(p, NoFault))
    && DeliversToServer(trace, acts, i)
  }

  ghost predicate DeliversToServer(trace: nat -> Sys, acts: nat -> Action, i: nat) {
    forall p :: p in trace(i).toServer ==> exists j: nat :: j >= i && acts(j) == ServerReceives(p)
  }

  // Nothing is lost and everything is delivered; there may be new copies and retransmissions
  // for ever.
  ghost predicate FairRun(trace: nat -> Sys, acts: nat -> Action, request: Packet, file: seq<Byte>) {
    && Endless(trace, acts, request, file)
    && (forall i: nat :: Lossless(acts, i))
    && (forall i: nat :: Delivers(trace, acts, i))
  }

  lemma {:induction false} LiveOn(trace: nat -> Sys, acts: nat -> Action, file: seq<Byte>, j: nat)
    requires Moves(trace, acts, j) && Lossless(acts, j) && Live(trace(j), file) && BlockCount(file) < NUMBERS
    ensures Live(trace(j + 1), file)
  {
    match acts(j)
    case ClientReceives(p, _) => ClientLive(trace(j), p, file);
    case ServerReceives(p) => ServerLive(trace(j), p, file);
    case _ => ExtraLive(trace(j), acts(j), file);
  }

  lemma {:induction false} LiveNext(trace: nat -> Sys, acts: nat -> Action, request: Packet, file: seq<Byte>, i: nat, j: nat)
    requires FairRun(trace, acts, request, file) && BlockCount(file) < NUMBERS && i == j + 1 && Live(trace(j), file)
    ensures Live(trace(i), file)
  {
    assert Moves(trace, acts, j) && Lossless(acts, j);
    LiveOn(trace, acts, file, j);
  }

  lemma {:induction false} LiveAt(trace: nat -> Sys, acts: nat -> Action, request: Packet, file: seq<Byte>, i: nat)
    requires FairRun(trace, acts, request, file) && BlockCount(file) < NUMBERS
    ensures Live(trace(i), file)
  {
    if i == 0 {
      InitLive(trace(0), request, file);
    } else {
      var j: nat := i - 1;
      LiveAt(trace, acts, request, file, j);
      LiveNext(trace, acts, request, file, i, j);
    }
  }

  lemma {:induction false} FairNext(trace: nat -> Sys, acts: nat -> Action, request: Packet, file: seq<Byte>, i: nat) returns (n: nat)
    requires FairRun(trace, acts, request, file) && BlockCount(file) < NUMBERS && trace(i).client.phase == Running
    ensures Nears(trace, i, n)
  {
    LiveAt(trace, acts, request, file, i);
    var j := Carrier(trace, acts, file, i);
    n := NeededArrives(trace, acts, request, file, i, j);
  }

  lemma {:induction false} Carrier(trace: nat -> Sys, acts: nat -> Action, file: seq<Byte>, i: nat) returns (j: nat)
    requires Live(trace(i), file) && trace(i).client.phase == Running && Delivers(trace, acts, i)
    ensures j >= i && CarriesOn(trace(i), acts(j))
  {
    var s := trace(i);
    var k := s.server.block;
    if k == s.client.num + 1 {
      j :| j >= i && acts(j) == ClientReceives(DataPacket(file, k), NoFault);
    } else {
      var p :| p in s.toServer && if k == 0 then IsRequest(p) else p == Ack(k);
      j :| j >= i && acts(j) == ServerReceives(p);
    }
  }

  // Every such run reaches success, with the whole file after one acceptance per block,
  // whatever number of duplicates is in flight all the time.
  lemma {:induction false} FairCompletes(trace: nat -> Sys, acts: nat -> Action, request: Packet, file: seq<Byte>, i: nat) returns (n: nat)
    requires FairRun(trace, acts, request, file) && BlockCount(file) < NUMBERS
    ensures n >= i && Succeeds(trace(n), file)
    decreases Distance(trace(i))
  {
    AliveAt(trace, acts, request, file, i);
    AliveDistance(trace(i), file);
    n := i;
    if trace(i).client.phase == Running {
      n := FairNext(trace, acts, request, file, i);
      AliveAt(trace, acts, request, file, n);
      AliveDistance(trace(n), file);
      if trace(n).client.phase == Running {
        n := FairCompletes(trace, acts, request, file, n);
      }
    }
  }

  // ----- With DATA packets lost again and again -----

  // A server that stays at a block sends it again some time.
  ghost predicate Resends(trace: nat -> Sys, acts: nat -> Action, i: nat) {
    exists j: nat :: j >= i && (acts(j) == ServerResends || trace(j).server != trace(i).server)
  }

  ghost predicate InFlightAgain(trace: nat -> Sys, i: nat, p: Packet) {
    exists j: nat :: j >= i && p in trace(j).toClient
  }

  // A packet that is in flight to the client again and again gets through some time.
  ghost predicate GetsThrough(trace: nat -> Sys, acts: nat -> Action, i: nat, p: Packet) {
    (forall k: nat :: k >= i ==> InFlightAgain(trace, k, p)) ==>
      exists j: nat :: j >= i && acts(j) == ClientReceives(p, NoFault)
  }

  // Any number of DATA packets may be lost, infinitely many among them; what the client sends
  // is not.
  ghost predicate LossyRun(trace: nat -> Sys, acts: nat -> Action, request: Packet, file: seq<Byte>) {
    && Endless(trace, acts, request, file)
    && (forall i: nat :: DeliversToServer(trace, acts, i))
    && (forall i: nat :: trace(i).server.block > 0 && !trace(i).server.closed ==> Resends(trace, acts, i))
    && (forall i: nat, p :: GetsThrough(trace, acts, i, p))
  }

  lemma {:induction false} LossyNext(trace: nat -> Sys, acts: nat -> Action, request: Packet, file: seq<Byte>, i: nat) returns (n: nat)
    requires LossyRun(trace, acts, request, file) && BlockCount(file) < NUMBERS && trace(i).client.phase == Running
    ensures Nears(trace, i, n)
  {
    var s := trace(i);
    AliveAt(trace, acts, request, file, i);
    if s.server.block == s.client.num {
      var j := ServerCarrier(trace, acts, file, i);
      n := NeededArrives(trace, acts, request, file, i, j);
    } else {
      n := DataNext(trace, acts, request, file, i);
    }
  }

  lemma {:induction false} ServerCarrier(trace: nat -> Sys, acts: nat -> Action, file: seq<Byte>, i: nat) returns (j: nat)
    requires Alive(trace(i), file) && trace(i).client.phase == Running && trace(i).server.block == trace(i).client.num
    requires DeliversToServer(trace, acts, i)
    ensures j >= i && CarriesOn(trace(i), acts(j))
  {
    var s := trace(i);
    var p :| p in s.toServer && if s.server.block == 0 then IsRequest(p) else p == Ack(s.server.block);
    j :| j >= i && acts(j) == ServerReceives(p);
  }

  // The client waits for the block in flight.
  lemma {:induction false} DataNext(trace: nat -> Sys, acts: nat -> Action, request: Packet, file: seq<Byte>, i: nat) returns (n: nat)
    requires LossyRun(trace, acts, request, file) && BlockCount(file) < NUMBERS && trace(i).client.phase == Running
    requires 1 <= trace(i).server.block <= BlockCount(file) && trace(i).server.block == trace(i).client.num + 1
    requires trace(i).server.file == file
    ensures Nears(trace, i, n)
  {
    var p := DataPacket(file, trace(i).server.block);
    if exists j: nat :: j >= i && acts(j) == ClientReceives(p, NoFault) {
      var j: nat :| j >= i && acts(j) == ClientReceives(p, NoFault);
      n := NeededArrives(trace, acts, request, file, i, j);
    } else {
      assert GetsThrough(trace, acts, i, p);
      var k: nat :| k >= i && !InFlightAgain(trace, k, p);
      n := ServerMoves(trace, acts, request, file, i, k);
    }
  }

  // If the packet is not in flight any more, the server has gone on, or will do so rather than
  // send it again.
  lemma {:induction false} ServerMoves(trace: nat -> Sys, acts: nat -> Action, request: Packet, file: seq<Byte>, i: nat, k: nat) returns (n: nat)
    requires LossyRun(trace, acts, request, file) && BlockCount(file) < NUMBERS && trace(i).client.phase == Running && i <= k
    requires 1 <= trace(i).server.block <= BlockCount(file) && trace(i).server.file == file
    requires !InFlightAgain(trace, k, DataPacket(file, trace(i).server.block))
    ensures Nears(trace, i, n)
  {
    ForwardTo(trace, acts, request, file, i, k);
    AliveAt(trace, acts, request, file, k);
    if trace(k).client.phase == Finished {
      n := k;
    } else {
      assert Resends(trace, acts, k);
      var j: nat :| j >= k && (acts(j) == ServerResends || trace(j).server != trace(k).server);
      ForwardTo(trace, acts, request, file, k, j);
      AliveAt(trace, acts, request, file, j);
      n := j;
      if acts(j) == ServerResends && trace(j).server.block == trace(i).server.block {
        assert Moves(trace, acts, j);
        Resent(trace(j), trace(j + 1), file);
        assert false;
      } else {
        MovedOn(trace(i), trace(k), trace(j), file);
      }
    }
  }

  lemma {:induction false} Resent(s: Sys, t: Sys, file: seq<Byte>)
    requires Enabled(s, ServerResends) && t == Step(s, ServerResends) && s.server.file == file
    ensures DataPacket(file, s.server.block) in t.toClient
  {}

  lemma {:induction false} MovedOn(s: Sys, t: Sys, u: Sys, file: seq<Byte>)
    requires Alive(t, file) && Alive(u, file) && Behind(s, t) && Behind(t, u)
    requires s.client.phase == t.client.phase == Running
    requires u.server.block != s.server.block || u.server != t.server
    ensures u.client.phase == Finished || Distance(u) < Distance(s)
  {}

  // Lost DATA packets delay the transfer, however many there are: under this fairness every run
  // reaches success.
  lemma {:induction false} LossyCompletes(trace: nat -> Sys, acts: nat -> Action, request: Packet, file: seq<Byte>, i: nat) returns (n: nat)
    requires LossyRun(trace, acts, request, file) && BlockCount(file) < NUMBERS
    ensures n >= i && Succeeds(trace(n), file)
    decreases Distance(trace(i))
  {
    AliveAt(trace, acts, request, file, i);
    AliveDistance(trace(i), file);
    n := i;
    if trace(i).client.phase == Running {
      n := LossyNext(trace, acts, request, file, i);
      AliveAt(trace, acts, request, file, n);
      AliveDistance(trace(n), file);
      if trace(n).client.phase == Running {
        n := LossyCompletes(trace, acts, request, file, n);
      }
    }
  }
}
