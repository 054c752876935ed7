/** The upload loop of old_tftp/newtftp: a 16-bit block counter, one DATA packet at a time,
    against an RFC 1350 receiver. */
module TftpUpload {
  import opened Basics
  import opened TftpPackets

  const BUF_SIZE := 516

  // What the receive call of one round delivered leads to.
  datatype Judgement = Continue | Mismatch | ErrorPacket

  // What the system calls of one round do: the reply that recvfrom delivers, or the call that fails.
  datatype Event = Reply(datagram: Packet) | ReadFails | SendFails | RecvFails

  // Blocked: the loop still waits for a reply. Rejected: the loop was never entered. The source
  // returns 0 for Uploaded, WrongAck and Refused alike, and -1 for Rejected and Failed.
  datatype Result = Uploaded | WrongAck | Refused | Failed | Rejected | Blocked

  // Byte i of a datagram in the zeroed buffer.
  function At(d: Packet, i: nat): Byte {
    if i < |d| then d[i] else 0
  }

  function Opcode(d: Packet): int {
    256 * (At(d, 0) as int) + At(d, 1) as int
  }

  function BlockNumber(d: Packet): int {
    256 * (At(d, 2) as int) + At(d, 3) as int
  }

  function Judge(reply: Packet, blockNum: int): Judgement {
    if Opcode(reply) == 4 then if BlockNumber(reply) == blockNum then Continue else Mismatch
    else if Opcode(reply) == 5 then ErrorPacket
    else Continue
  }

  // The rounds in which the loop sends anything.
  function Chunks(file: seq<Byte>): (n: nat)
    ensures n <= BlockCount(file)
    ensures n == BlockCount(file) <==> |file| % 512 != 0
    ensures 512 * (n - 1) < |file| <= 512 * n
  {
    (|file| + 511) / 512
  }

  // The file offset after k reads.
  function Offset(file: seq<Byte>, k: nat): nat {
    if 512 * k <= |file| then 512 * k else |file|
  }

  // From k answered packets on: how many packets are sent in all, and how the loop ends.
  function Rounds(file: seq<Byte>, k: nat, events: seq<Event>): (r: (nat, Result))
    decreases |file| - 512 * k
  {
    if k < |events| && events[k] == ReadFails then (k, Failed)
    else if 512 * k >= |file| then (k, Uploaded)
    else if |events| <= k then (k + 1, Blocked)
    else match events[k]
      case SendFails => (k, Failed)
      case RecvFails => (k + 1, Failed)
      case Reply(d) =>
        (match Judge(d, (k + 1) % NUMBERS)
         case Continue => Rounds(file, k + 1, events)
         case Mismatch => (k + 1, WrongAck)
         case ErrorPacket => (k + 1, Refused))
  }

  // The first n DATA packets of a file.
  function Packets(file: seq<Byte>, n: nat): (ps: seq<Packet>)
    requires n <= BlockCount(file)
    ensures |ps| == n
    ensures forall i :: 0 <= i < n ==> ps[i] == DataPacket(file, i + 1)
  {
    if n == 0 then [] else Packets(file, n - 1) + [DataPacket(file, n)]
  }

  method Bzero(buf: array<Byte>)
    modifies buf
    ensures forall i :: 0 <= i < buf.Length ==> buf[i] == 0
  {
    for i := 0 to buf.Length
      invariant forall j :: 0 <= j < i ==> buf[j] == 0
    {
      buf[i] := 0;
    }
  }

  // recvfrom into the buffer just zeroed.
  method Receive(buf: array<Byte>, d: Packet)
    requires buf.Length == BUF_SIZE
    modifies buf
    ensures forall j :: 0 <= j < BUF_SIZE ==> buf[j] == At(d, j)
  {
    Bzero(buf);
    var n := if |d| <= BUF_SIZE then |d| else BUF_SIZE;
    for i := 0 to n
      invariant forall j :: 0 <= j < BUF_SIZE ==> buf[j] == if j < i then d[j] else 0
    {
      buf[i] := d[i];
    }
  }

  // read(fd, buf + 4, 512) at file offset pos.
  method Read(buf: array<Byte>, file: seq<Byte>, pos: nat) returns (res: nat)
    requires buf.Length == BUF_SIZE && pos <= |file|
    modifies buf
    ensures res == if |file| - pos <= 512 then |file| - pos else 512
    ensures buf[4..4 + res] == file[pos..pos + res]
    ensures buf[..4] == old(buf[..4])
  {
    res := if |file| - pos <= 512 then |file| - pos else 512;
    for i := 0 to res
      invariant buf[4..4 + i] == file[pos..pos + i]
      invariant buf[..4] == old(buf[..4])
    {
      buf[4 + i] := file[pos + i];
      assert buf[4..4 + i + 1] == buf[4..4 + i] + [buf[4 + i]];
    }
  }

  // The packet of one round, put together in the zeroed buffer; res is -1 if read fails.
  method Compose(buf: array<Byte>, file: seq<Byte>, k: nat, blockNum: int, pos: nat, readFails: bool) returns (res: int, p: Packet)
    requires buf.Length == BUF_SIZE && k <= Chunks(file) && blockNum == (k + 1) % NUMBERS
    requires pos == Offset(file, k)
    modifies buf
    ensures res == -1 <==> readFails
    ensures !readFails ==> 0 <= res && pos + res == Offset(file, k + 1)
    ensures res > 0 <==> k < Chunks(file) && !readFails
    ensures res > 0 ==> p == DataPacket(file, k + 1)
  {
    Bzero(buf);
    buf[1] := 3;
    buf[2], buf[3] := blockNum / 256, blockNum % 256;
    assert buf[..4] == Header(3, blockNum);
    if readFails {
      return -1, [];
    }
    res := Read(buf, file, pos);
    p := buf[..res + 4];
    assert p == buf[..4] + buf[4..res + 4];
  }

  // The receive call of one round and the test of what it brought.
  method Check(buf: array<Byte>, d: Packet, blockNum: int) returns (j: Judgement)
    requires buf.Length == BUF_SIZE
    modifies buf
    ensures j == Judge(d, blockNum)
  {
    Receive(buf, d);
    var opcode := 256 * (buf[0] as int) + buf[1] as int;
    if opcode == 4 {
      if blockNum != Number(buf[..]) {
        return Mismatch;
      }
    } else if opcode == 5 {
      return ErrorPacket;
    }
    return Continue;
  }

  // block_num++ on an unsigned short that counts k packets.
  function Next(blockNum: int, ghost k: nat): (n: int)
    requires blockNum == k % NUMBERS
    ensures n == (k + 1) % NUMBERS
  {
    if blockNum == NUMBERS - 1 then 0 else blockNum + 1
  }

  // The while(1) loop of upload(): events[k] belongs to round k, which sends packet k + 1.
  method SendAll(file: seq<Byte>, buf: array<Byte>, events: seq<Event>) returns (sent: seq<Packet>, result: Result)
    requires buf.Length == BUF_SIZE
    modifies buf
    ensures (|sent|, result) == Rounds(file, 0, events)
    ensures |sent| <= BlockCount(file) && sent == Packets(file, |sent|)
  {
    sent := [];
    var blockNum, pos, k := 0, 0, 0;
    while true
      invariant 0 <= k <= Chunks(file) && |sent| == k && sent == Packets(file, k)
      invariant pos == Offset(file, k)
      invariant blockNum == k % NUMBERS
      invariant Rounds(file, 0, events) == Rounds(file, k, events)
      decreases Chunks(file) - k
    {
      blockNum := Next(blockNum, k);
      var res, packet := Compose(buf, file, k, blockNum, pos, k < |events| && events[k] == ReadFails);
      if res == 0 {
        return sent, Uploaded;
      } else if res == -1 {
        return sent, Failed;
      }
      pos := pos + res;
      if k < |events| && events[k] == SendFails {
        return sent, Failed;
      }
      sent := sent + [packet];
      assert k + 1 <= Chunks(file) && sent == Packets(file, k + 1);
      if |events| <= k {
        return sent, Blocked;
      }
      if events[k] == RecvFails {
        return sent, Failed;
      }
      var verdict := Check(buf, events[k].datagram, blockNum);
      if verdict == Mismatch {
        return sent, WrongAck;
      } else if verdict == ErrorPacket {
        return sent, Refused;
      }
      k := k + 1;
    }
  }

  // upload(): whether the write request can be sent, what answers it (None if recvfrom fails,
  // which the source does not act on), and whether the file can be opened.
  method Upload(file: seq<Byte>, canSend: bool, first: Option<Packet>, canOpen: bool, events: seq<Event>)
    returns (sent: seq<Packet>, result: Result)
    ensures
      if canSend && first.Some? && Opcode(first.value) == 4 && BlockNumber(first.value) == 0 && canOpen
      then |sent| <= BlockCount(file) && sent == Packets(file, |sent|) && (|sent|, result) == Rounds(file, 0, events)
      else sent == [] && result == Rejected
  {
    if !canSend {
      return [], Rejected;
    }
    var buf := new Byte[BUF_SIZE];
    Bzero(buf);
    if first.Some? {
      Receive(buf, first.value);
    }
    var opcode := 256 * (buf[0] as int) + buf[1] as int;
    if opcode != 4 || Number(buf[..]) != 0 {
      return [], Rejected;
    }
    if !canOpen {
      return [], Rejected;
    }
    sent, result := SendAll(file, buf, events);
  }

  // ----- The receiver of RFC 1350, sections 2, 5 and 6 -----

  // ended: a block shorter than 512 bytes has been received.
  datatype Receiver = Receiver(count: nat, data: seq<Byte>, ended: bool)

  const IDLE := Receiver(0, [], false)

  // The next DATA block is stored and acknowledged; a repeat of the last one is only
  // acknowledged again; anything else gets an error packet.
  function Answer(r: Receiver, p: Packet): (a: (Receiver, Packet))
  {
    if |p| < 4 || |p| > 516 || p[0] != 0 || p[1] != 3 then (r, Header(5, 4))
    else if !r.ended && Number(p) == (r.count + 1) % NUMBERS then
      (Receiver(r.count + 1, r.data + p[4..], |p| < 516), Ack(Number(p)))
    else if 1 <= r.count && Number(p) == r.count % NUMBERS then (r, Ack(Number(p)))
    else (r, Header(5, 4))
  }

  function Repeated(r: Receiver, p: Packet, m: nat): Receiver {
    if m == 0 then r else Answer(Repeated(r, p, m - 1), p).0
  }

  // The receiver after the first |copies| DATA packets of an upload over a link that keeps their
  // order, where packet j + 1 has arrived copies[j] times before any later one: not at all if
  // it was lost, repeatedly if it was duplicated.
  function After(file: seq<Byte>, copies: seq<nat>): (r: Receiver)
    requires |copies| <= BlockCount(file)
    decreases |copies|
  {
    if copies == [] then IDLE
    else
      var k := |copies| - 1;
      Repeated(After(file, copies[..k]), DataPacket(file, k + 1), copies[k])
  }

  function Once(n: nat): seq<nat> {
    seq(n, _ => 1)
  }

  // ----- Arbitrary replies -----

  // Nothing that happens in rounds k, k + 1, ... makes the client stop early.
  predicate AllAccepted(file: seq<Byte>, k: nat, events: seq<Event>) {
    && Chunks(file) <= |events|
    && (forall j :: k <= j < Chunks(file) ==> events[j].Reply? && Judge(events[j].datagram, (j + 1) % NUMBERS) == Continue)
    && (Chunks(file) < |events| ==> events[Chunks(file)] != ReadFails)
  }

  // Whatever happens: each packet but the last is answered before the next is sent, success is
  // reported exactly when every chunk was sent and nothing made the client stop, and otherwise
  // it waits for the reply to its last packet, or that reply was the wrong one, or a call failed.
  lemma {:induction false} UploadOutcome(file: seq<Byte>, k: nat, events: seq<Event>)
    requires k <= Chunks(file) && k <= |events|
    ensures var (n, result) := Rounds(file, k, events);
      && k <= n <= Chunks(file) && n <= |events| + 1
      && (result == Uploaded <==> AllAccepted(file, k, events))
      && (result == Uploaded ==> n == Chunks(file))
      && (result == Blocked <==> n == |events| + 1)
      && (result == WrongAck ==> 1 <= n <= |events| && events[n - 1].Reply? && Judge(events[n - 1].datagram, n % NUMBERS) == Mismatch)
      && (result == Refused ==> 1 <= n <= |events| && events[n - 1].Reply? && Judge(events[n - 1].datagram, n % NUMBERS) == ErrorPacket)
      && (result == Failed ==>
           || (n < |events| && (events[n] == ReadFails || events[n] == SendFails))
           || (1 <= n <= |events| && events[n - 1] == RecvFails))
      && result != Rejected
    decreases |file| - 512 * k
  {
    if k == Chunks(file) || k == |events| || !events[k].Reply? || Judge(events[k].datagram, (k + 1) % NUMBERS) != Continue {
    } else {
      UploadOutcome(file, k + 1, events);
    }
  }

  // How a reply is judged, by its bytes; those it does not have count as 0.
  lemma {:induction false} JudgeExact(d: Packet, n: int)
    requires 0 <= n < NUMBERS
    ensures var opcode := if |d| >= 2 && d[0] == 0 then d[1] else 0;
      var number := 256 * (if |d| > 2 then d[2] as int else 0) + if |d| > 3 then d[3] as int else 0;
      Judge(d, n) == if opcode == 5 then ErrorPacket else if opcode == 4 && number != n then Mismatch else Continue
  {}

  // Which reply stops the loop: an ACK of another block for WrongAck, an error for Refused.
  lemma {:induction false} StoppedBy(file: seq<Byte>, events: seq<Event>)
    ensures var (n, result) := Rounds(file, 0, events);
      && (result == WrongAck || result == Refused ==> 1 <= n <= |events| && events[n - 1].Reply?)
      && (result == WrongAck ==> Opcode(events[n - 1].datagram) == 4 && BlockNumber(events[n - 1].datagram) != n % NUMBERS)
      && (result == Refused ==> Opcode(events[n - 1].datagram) == 5)
  {
    UploadOutcome(file, 0, events);
  }

  // Every chunk is answered by a datagram with the opcode of an ACK.
  predicate OnlyAcks(file: seq<Byte>, events: seq<Event>) {
    && Chunks(file) <= |events|
    && forall j :: 0 <= j < Chunks(file) ==> events[j].Reply? && Opcode(events[j].datagram) == 4
  }

  // Every chunk is answered by an ACK with its own number.
  predicate RightAcks(file: seq<Byte>, events: seq<Event>) {
    OnlyAcks(file, events) && forall j :: 0 <= j < Chunks(file) ==> BlockNumber(events[j].datagram) == (j + 1) % NUMBERS
  }

  // When a reported success means that every chunk was acknowledged: the client does check the
  // number of an ACK, but takes a reply of any opcode but 4 and 5 for one.
  lemma {:induction false} AcknowledgedIff(file: seq<Byte>, events: seq<Event>)
    requires Rounds(file, 0, events).1 == Uploaded
    ensures RightAcks(file, events) <==> OnlyAcks(file, events)
  {
    UploadOutcome(file, 0, events);
  }

  // ----- What the receiver has -----

  // The receiver stores the block it waits for, and answers it with its number.
  lemma {:induction false} AnswerNext(r: Receiver, file: seq<Byte>, k: nat)
    requires k < BlockCount(file) && r == Receiver(k, Prefix(file, k), false)
    ensures Answer(r, DataPacket(file, k + 1)) ==
      (Receiver(k + 1, Prefix(file, k + 1), k + 1 == BlockCount(file)), Ack((k + 1) % NUMBERS))
  {
    var p := DataPacket(file, k + 1);
    assert p[4..] == Block(file, k + 1);
    PrefixGrows(file, k);
  }

  // A repeat changes nothing: the receiver only acknowledges, or refuses, again.
  lemma {:induction false} RepeatedOnce(r: Receiver, p: Packet, m: nat)
    requires m > 0
    ensures Repeated(r, p, m) == Answer(r, p).0
  {
    if m == 1 {
      assert Repeated(r, p, 0) == r;
    } else {
      RepeatedOnce(r, p, m - 1);
      AnswerTwice(r, p);
    }
  }

  lemma {:induction false} AnswerTwice(r: Receiver, p: Packet)
    ensures Answer(Answer(r, p).0, p).0 == Answer(r, p).0
  {}

  lemma {:induction false} AfterStep(file: seq<Byte>, copies: seq<nat>, k: nat)
    requires |copies| == k + 1 <= BlockCount(file)
    ensures After(file, copies) ==
      if copies[k] == 0 then After(file, copies[..k]) else Answer(After(file, copies[..k]), DataPacket(file, k + 1)).0
  {
    if copies[k] > 0 {
      RepeatedOnce(After(file, copies[..k]), DataPacket(file, k + 1), copies[k]);
    }
  }

  ghost predicate NoneLost(copies: seq<nat>) {
    forall j :: 0 <= j < |copies| ==> copies[j] > 0
  }

  // While nothing is lost the receiver holds the blocks sent so far, however often they came,
  // and has seen the end of the transfer only if the last one was short.
  lemma {:induction false} ReceiverHolds(file: seq<Byte>, copies: seq<nat>)
    requires |copies| <= BlockCount(file) && NoneLost(copies)
    ensures After(file, copies) == Receiver(|copies|, Prefix(file, |copies|), |copies| == BlockCount(file))
    decreases |copies|
  {
    if copies == [] {
    } else {
      var k := |copies| - 1;
      ReceiverHolds(file, copies[..k]);
      AfterStep(file, copies, k);
      AnswerNext(After(file, copies[..k]), file, k);
    }
  }

  // One packet adds at most its own block.
  lemma {:induction false} AnswerAdds(r: Receiver, file: seq<Byte>, n: int)
    requires 1 <= n <= BlockCount(file)
    ensures var r' := Answer(r, DataPacket(file, n)).0;
      r'.count <= r.count + 1 && |r'.data| <= |r.data| + |Block(file, n)|
  {}

  lemma {:induction false} BlockAdds(file: seq<Byte>, k: nat)
    requires k < BlockCount(file)
    ensures |Prefix(file, k + 1)| == |Prefix(file, k)| + |Block(file, k + 1)|
    ensures k < Chunks(file) ==> |Block(file, k + 1)| > 0
  {}

  // The receiver has at most the first n blocks' worth, and less if a packet was lost.
  ghost predicate Lags(file: seq<Byte>, n: nat, r: Receiver, lost: bool) {
    && r.count <= n && |r.data| <= |Prefix(file, n)|
    && (lost ==> r.count < n && |r.data| < |Prefix(file, n)|)
  }

  // Over a link that keeps order each lost packet leaves the receiver a block behind for good,
  // even though block numbers wrap and a later packet may be taken in the place of the lost one.
  lemma {:induction false} Behind(file: seq<Byte>, copies: seq<nat>)
    requires |copies| <= Chunks(file)
    ensures Lags(file, |copies|, After(file, copies), !NoneLost(copies))
    decreases |copies|
  {
    if copies == [] {
    } else {
      var k := |copies| - 1;
      var before := copies[..k];
      Behind(file, before);
      AfterStep(file, copies, k);
      BehindStep(file, k, After(file, before), After(file, copies), copies[k] == 0, !NoneLost(before));
      LostBefore(copies, k);
    }
  }

  lemma {:induction false} LostBefore(copies: seq<nat>, k: nat)
    requires |copies| == k + 1
    ensures NoneLost(copies) <==> copies[k] > 0 && NoneLost(copies[..k])
  {}

  lemma {:induction false} BehindStep(file: seq<Byte>, k: nat, r: Receiver, r': Receiver, lost: bool, lostBefore: bool)
    requires k < Chunks(file) && Lags(file, k, r, lostBefore)
    requires r' == if lost then r else Answer(r, DataPacket(file, k + 1)).0
    ensures Lags(file, k + 1, r', lost || lostBefore)
  {
    AnswerAdds(r, file, k + 1);
    BlockAdds(file, k);
  }

  // Once every chunk has been sent over such a link, the receiver has the file if and only if no
  // packet was lost, whatever the length of the file.
  lemma {:induction false} LossIff(file: seq<Byte>, copies: seq<nat>)
    requires |copies| == Chunks(file)
    ensures After(file, copies).data == file <==> NoneLost(copies)
  {
    Behind(file, copies);
    if NoneLost(copies) {
      ReceiverHolds(file, copies);
    }
  }

  // ----- A reliable lock-step link -----

  // The reply to each packet is the receiver's answer to it, and no call fails.
  ghost predicate LockStep(file: seq<Byte>, events: seq<Event>) {
    && (forall k :: 0 <= k < |events| ==> events[k].Reply?)
    && forall k :: 0 <= k < Chunks(file) && k < |events| ==>
      events[k].datagram == Answer(After(file, Once(k)), DataPacket(file, k + 1)).1
  }

  lemma {:induction false} JudgeAck(n: int)
    requires 0 <= n < NUMBERS
    ensures Judge(Ack(n), n) == Continue && Opcode(Ack(n)) == 4 && BlockNumber(Ack(n)) == n
  {}

  lemma {:induction false} LinkAccepts(file: seq<Byte>, events: seq<Event>, k: nat)
    requires LockStep(file, events) && k < Chunks(file) && k < |events|
    ensures Judge(events[k].datagram, (k + 1) % NUMBERS) == Continue
  {
    ReceiverHolds(file, Once(k));
    AnswerNext(After(file, Once(k)), file, k);
    JudgeAck((k + 1) % NUMBERS);
  }

  lemma {:induction false} LockStepOutcome(file: seq<Byte>, events: seq<Event>)
    requires LockStep(file, events)
    ensures var (n, result) := Rounds(file, 0, events);
      && n <= Chunks(file) && n <= |events| + 1
      && result == (if |events| < Chunks(file) then Blocked else Uploaded)
      && (result == Uploaded ==> n == Chunks(file))
  {
    var (n, result) := Rounds(file, 0, events);
    UploadOutcome(file, 0, events);
    forall j | 0 <= j < Chunks(file) && j < |events| ensures Judge(events[j].datagram, (j + 1) % NUMBERS) == Continue {
      LinkAccepts(file, events, j);
    }
    if 1 <= n <= |events| {
      LinkAccepts(file, events, n - 1);
    }
  }

  // Over a reliable lock-step link the upload cannot go wrong: the k-th DATA packet carries
  // number k modulo 65536, after each packet the receiver's bytes are that many blocks of the
  // file, and success is reported once every chunk is answered, when they are the whole file.
  // But EOF ends the loop without an empty DATA packet, so the receiver has seen the
  // terminating short block if and only if the length is not a multiple of 512.
  lemma {:induction false} LockStepUpload(file: seq<Byte>, events: seq<Event>)
    requires LockStep(file, events)
    ensures var (n, result) := Rounds(file, 0, events);
      && n <= Chunks(file) && n <= |events| + 1
      && (forall j :: 0 <= j < n ==> |Packets(file, n)[j]| >= 4 && Number(Packets(file, n)[j]) == (j + 1) % 65536)
      && After(file, Once(n)).data == Prefix(file, n)
      && result == (if |events| < Chunks(file) then Blocked else Uploaded)
      && (result == Uploaded ==> After(file, Once(n)).data == file)
      && (result == Uploaded ==> (After(file, Once(n)).ended <==> |file| % 512 != 0))
  {
    var (n, result) := Rounds(file, 0, events);
    LockStepOutcome(file, events);
    ReceiverHolds(file, Once(n));
  }

  // ----- Replies of other kinds -----

  // With replies of any kind success means nothing: any datagram that is neither an ACK nor an error
  // will do in place of every acknowledgement, and the receiver has not got a single packet.
  lemma {:induction false} StrayReplyCountsAsAck(file: seq<Byte>, stray: Packet, events: seq<Event>, copies: seq<nat>)
    requires |file| > 0 && Opcode(stray) != 4 && Opcode(stray) != 5
    requires |events| == |copies| == Chunks(file)
    requires forall j :: 0 <= j < |events| ==> events[j] == Reply(stray) && copies[j] == 0
    ensures Rounds(file, 0, events) == (Chunks(file), Uploaded)
    ensures After(file, copies) == IDLE && IDLE.data != file
  {
    UploadOutcome(file, 0, events);
    NothingArrives(file, copies);
  }

  lemma {:induction false} NothingArrives(file: seq<Byte>, copies: seq<nat>)
    requires |copies| <= BlockCount(file) && forall j :: 0 <= j < |copies| ==> copies[j] == 0
    ensures After(file, copies) == IDLE
    decreases |copies|
  {
    if copies == [] {
    } else {
      NothingArrives(file, copies[..|copies| - 1]);
      AfterStep(file, copies, |copies| - 1);
    }
  }
}
