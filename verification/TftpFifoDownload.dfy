/** The download loop of old_tftp/newtftp, which writes every DATA packet it receives: exact
    on a link that delivers each packet once and in order, and only there. */
module TftpFifoDownload {
  import opened Basics
  import opened TftpPackets
  import opened TftpUpload

  // Which system call of the current pass fails.
  datatype Fault = NoFault | RecvFault | WriteFault | SendFault

  datatype Arrival = Arrival(datagram: Packet, fault: Fault)

  // Waiting: the loop still wants packets. Broken: the source returns -1, and 0 otherwise,
  // Silent (recvfrom failed) and ErrorReply included.
  datatype Outcome = Waiting | Complete | ErrorReply | Silent | Broken

  // One pass of the loop: what is written, what is sent, and how it ends.
  function Receive1(a: Arrival): (r: (seq<Byte>, Option<Packet>, Outcome))
  {
    var d := a.datagram;
    if a.fault == RecvFault then ([], None, Silent)
    else if Opcode(d) == 3 then
      if a.fault == WriteFault || |d| < 4 then ([], None, Broken)
      else
        var data := if |d| <= BUF_SIZE then d[4..] else d[4..BUF_SIZE];
        if a.fault == SendFault then (data, None, Broken)
        else (data, Some([0, 4, d[2], d[3]]), if |data| < 512 then Complete else Waiting)
    else if Opcode(d) == 5 then ([], None, ErrorReply)
    else ([], None, Waiting)
  }

  // The whole loop: the bytes written and the packets sent from arrival i on, and the end.
  function Written(ds: seq<Arrival>, i: nat): (r: (seq<Byte>, seq<Packet>, Outcome))
    requires i <= |ds|
    decreases |ds| - i
  {
    if i == |ds| then ([], [], Waiting)
    else
      var (data, reply, outcome) := Receive1(ds[i]);
      var acks := if reply.Some? then [reply.value] else [];
      if outcome != Waiting then (data, acks, outcome)
      else
        var (rest, more, result) := Written(ds, i + 1);
        (data + rest, acks + more, result)
  }

  // One pass of the loop body.
  method HandleDatagram(buf: array<Byte>, d: Packet, fault: Fault) returns (data: seq<Byte>, reply: Option<Packet>, outcome: Outcome)
    requires buf.Length == BUF_SIZE
    modifies buf
    ensures (data, reply, outcome) == Receive1(Arrival(d, fault))
  {
    if fault == RecvFault {
      return [], None, Silent;
    }
    var res := if |d| <= BUF_SIZE then |d| else BUF_SIZE;
    TftpUpload.Receive(buf, d);
    var opcode := 256 * (buf[0] as int) + buf[1] as int;
    if opcode == 3 {
      if fault == WriteFault || res < 4 {
        return [], None, Broken;
      }
      data := buf[4..res];
      assert data == Receive1(Arrival(d, fault)).0;
      if fault == SendFault {
        return data, None, Broken;
      }
      return data, Some([0, 4, buf[2], buf[3]]), if res - 4 < 512 then Complete else Waiting;
    } else if opcode == 5 {
      return [], None, ErrorReply;
    }
    return [], None, Waiting;
  }

  // out and acks, and what the arrivals from i on still add to them, are the whole result.
  ghost predicate Ahead(ds: seq<Arrival>, i: nat, out: seq<Byte>, acks: seq<Packet>, outcome: Outcome)
    requires i <= |ds|
  {
    Written(ds, 0) ==
      if outcome == Waiting then (out + Written(ds, i).0, acks + Written(ds, i).1, Written(ds, i).2)
      else (out, acks, outcome)
  }

  lemma {:induction false} AheadStep(ds: seq<Arrival>, i: nat, out: seq<Byte>, acks: seq<Packet>)
    requires i < |ds| && Ahead(ds, i, out, acks, Waiting)
    ensures var (data, reply, outcome) := Receive1(ds[i]);
      Ahead(ds, i + 1, out + data, acks + if reply.Some? then [reply.value] else [], outcome)
  {
    var (data, reply, outcome) := Receive1(ds[i]);
    var (rest, more, result) := Written(ds, i + 1);
    var ack := if reply.Some? then [reply.value] else [];
    assert out + (data + rest) == (out + data) + rest;
    assert acks + (ack + more) == (acks + ack) + more;
  }

  // download(): whether the read request can be sent and the file opened, and what arrives then.
  method Download(canSend: bool, canOpen: bool, ds: seq<Arrival>) returns (out: seq<Byte>, acks: seq<Packet>, outcome: Outcome)
    ensures (out, acks, outcome) == if canSend && canOpen then Written(ds, 0) else ([], [], Broken)
  {
    if !canSend || !canOpen {
      return [], [], Broken;
    }
    var buf := new Byte[BUF_SIZE];
    out, acks, outcome := [], [], Waiting;
    var i := 0;
    ghost var w := Written(ds, 0);
    assert [] + w.0 == w.0 && [] + w.1 == w.1;
    while i < |ds| && outcome == Waiting
      invariant 0 <= i <= |ds| && Ahead(ds, i, out, acks, outcome)
    {
      AheadStep(ds, i, out, acks);
      var data, reply;
      data, reply, outcome := HandleDatagram(buf, ds[i].datagram, ds[i].fault);
      out, acks := out + data, acks + if reply.Some? then [reply.value] else [];
      i := i + 1;
    }
    assert out + [] == out && acks + [] == acks;
  }

  // What a lock-step server sends over a link that keeps order but may repeat packets: the
  // true indices start at 1, repeat or move up by one, and end with the first copy of the last.
  ghost predicate InOrder(idx: seq<int>, last: int) {
    && |idx| > 0 && idx[0] == 1 && idx[|idx| - 1] == last
    && (forall i :: 0 <= i < |idx| - 1 ==> 1 <= idx[i] < last && (idx[i + 1] == idx[i] || idx[i + 1] == idx[i] + 1))
  }

  ghost predicate Carries(ds: seq<Arrival>, file: seq<Byte>, idx: seq<int>) {
    && |ds| == |idx|
    && InOrder(idx, BlockCount(file))
    && forall i :: 0 <= i < |idx| ==> 1 <= idx[i] <= BlockCount(file) && ds[i] == Arrival(DataPacket(file, idx[i]), NoFault)
  }

  lemma {:induction false} ReceiveBlock(file: seq<Byte>, k: int)
    requires 1 <= k <= BlockCount(file)
    ensures Receive1(Arrival(DataPacket(file, k), NoFault)).0 == Block(file, k)
    ensures Receive1(Arrival(DataPacket(file, k), NoFault)).2 == if k < BlockCount(file) then Waiting else Complete
  {
    var p := DataPacket(file, k);
    assert p[4..] == Block(file, k);
  }

  // What one pass does, by the bytes of the datagram: which failure or packet ends the loop and
  // how, what is written, and that DATA packets and nothing else are answered, each by the ACK
  // of its own block number.
  lemma {:induction false} PassExact(a: Arrival)
    ensures var (data, reply, outcome) := Receive1(a); var d := a.datagram;
      var isData := |d| >= 2 && d[0] == 0 && d[1] == 3;
      && (a.fault == RecvFault ==> outcome == Silent && data == [] && reply == None)
      && (a.fault != RecvFault && !isData ==>
           data == [] && reply == None && outcome == if |d| >= 2 && d[0] == 0 && d[1] == 5 then ErrorReply else Waiting)
      && (a.fault != RecvFault && isData && (a.fault == WriteFault || |d| < 4) ==> outcome == Broken && data == [] && reply == None)
      && (a.fault == SendFault && isData && |d| >= 4 ==> outcome == Broken && reply == None)
      && (a.fault == NoFault && isData && |d| >= 4 ==>
           reply.Some? && IsAck(reply.value) && Number(reply.value) == 256 * (d[2] as int) + d[3] as int
           && outcome == if |d| < 516 then Complete else Waiting)
      && ((a.fault == NoFault || a.fault == SendFault) && isData && |d| >= 4 ==> data == d[4..if |d| <= 516 then |d| else 516])
  {}

  lemma {:induction false} AckOfBlock(file: seq<Byte>, k: int)
    requires 1 <= k <= BlockCount(file)
    ensures Receive1(Arrival(DataPacket(file, k), NoFault)).1 == Some(Ack(k % NUMBERS))
  {
    var p := DataPacket(file, k);
    assert 256 * (p[2] as int) + p[3] as int == Number(p) == k % NUMBERS;
    assert [0, 4, p[2], p[3]] == Ack(k % NUMBERS);
  }

  function AcksOf(idx: seq<int>, i: nat): (acks: seq<Packet>)
    requires i <= |idx|
    ensures |acks| == |idx| - i && forall k :: 0 <= k < |acks| ==> acks[k] == Ack(idx[i + k] % NUMBERS)
  {
    seq(|idx| - i, k requires 0 <= k < |idx| - i => Ack(idx[i + k] % NUMBERS))
  }

  lemma {:induction false} FirstAck(idx: seq<int>, i: nat)
    requires i < |idx|
    ensures AcksOf(idx, i) == [Ack(idx[i] % NUMBERS)] + AcksOf(idx, i + 1)
  {}

  // The answers to the datagrams from i on are the ACKs of their blocks, one each and in order.
  lemma {:induction false} AcksInOrder(ds: seq<Arrival>, file: seq<Byte>, idx: seq<int>, i: nat)
    requires Carries(ds, file, idx) && i < |ds|
    ensures Written(ds, i).1 == AcksOf(idx, i)
    decreases |ds| - i
  {
    ReceiveBlock(file, idx[i]);
    AckOfBlock(file, idx[i]);
    FirstAck(idx, i);
    if i == |ds| - 1 {
      assert Written(ds, i).1 == [Ack(idx[i] % NUMBERS)];
    } else {
      AcksInOrder(ds, file, idx, i + 1);
    }
  }

  // From datagram i on, 512 bytes are written for each but the last.
  lemma {:induction false} WrittenLength(ds: seq<Arrival>, file: seq<Byte>, idx: seq<int>, i: nat)
    requires Carries(ds, file, idx) && i < |ds|
    ensures Written(ds, i).2 == Complete
    ensures |Written(ds, i).0| == 512 * (|ds| - 1 - i) + (|file| - 512 * (BlockCount(file) - 1))
    decreases |ds| - i
  {
    ReceiveBlock(file, idx[i]);
    if i == |ds| - 1 {
    } else {
      WrittenLength(ds, file, idx, i + 1);
    }
  }

  // From datagram i on, while each is the block after the one before, everything from the first
  // of them on is written: datagram i is block i + 1 - late after late repeats before it.
  lemma {:induction false} WrittenOnce(ds: seq<Arrival>, file: seq<Byte>, idx: seq<int>, i: nat, late: nat)
    requires Carries(ds, file, idx) && late <= i < |ds|
    requires forall j :: i <= j < |idx| ==> idx[j] == j + 1 - late
    ensures Written(ds, i).0 == file[512 * (i - late)..]
    decreases |ds| - i
  {
    var n := i + 1;
    ReceiveBlock(file, n - late);
    assert idx[i] == n - late && idx[|idx| - 1] == |idx| - late == BlockCount(file);
    if n == |ds| {
    } else {
      WrittenOnce(ds, file, idx, n, late);
      BlockThenRest(file, n - late);
    }
  }

  lemma {:induction false} BlockThenRest(file: seq<Byte>, n: nat)
    requires 1 <= n < BlockCount(file)
    ensures Block(file, n) + file[512 * n..] == file[512 * (n - 1)..]
  {}

  lemma {:induction false} IndexBound(idx: seq<int>, last: int, i: nat)
    requires InOrder(idx, last) && i < |idx|
    ensures idx[i] <= i + 1
    ensures idx[i] == i + 1 ==> forall j :: 0 <= j <= i ==> idx[j] == j + 1
  {
    if i == 0 {
    } else {
      IndexBound(idx, last, i - 1);
    }
  }

  ghost predicate Repeats(idx: seq<int>) {
    exists i :: 0 <= i < |idx| - 1 && idx[i + 1] == idx[i]
  }

  // Without repeats, and only then, there are as many datagrams as blocks.
  lemma {:induction false} LengthIff(idx: seq<int>, last: int)
    requires InOrder(idx, last)
    ensures |idx| == last <==> !Repeats(idx)
    ensures !Repeats(idx) ==> forall j :: 0 <= j < |idx| ==> idx[j] == j + 1
  {
    IndexBound(idx, last, |idx| - 1);
    if !Repeats(idx) {
      NoRepeat(idx, last, |idx| - 1);
    }
  }

  // The download is exact if and only if no full block was delivered twice; each repeat adds
  // 512 bytes to the file, and the client reports success all the same.
  lemma {:induction false} ExactIffNoRepeat(ds: seq<Arrival>, file: seq<Byte>, idx: seq<int>)
    requires Carries(ds, file, idx)
    ensures Written(ds, 0).2 == Complete
    ensures |Written(ds, 0).0| == |file| + 512 * (|ds| - BlockCount(file))
    ensures Written(ds, 0).0 == file <==> !Repeats(idx)
  {
    WrittenLength(ds, file, idx, 0);
    LengthIff(idx, BlockCount(file));
    if !Repeats(idx) {
      WrittenOnce(ds, file, idx, 0, 0);
    }
  }

  lemma {:induction false} NoRepeat(idx: seq<int>, last: int, i: nat)
    requires InOrder(idx, last) && i < |idx|
    requires !Repeats(idx)
    ensures forall j :: 0 <= j <= i ==> idx[j] == j + 1
  {
    if i == 0 {
    } else {
      NoRepeat(idx, last, i - 1);
      assert idx[i - 1 + 1] != idx[i - 1];
    }
  }

  // A repeat does happen on a link that keeps order: here the first block of any file that has
  // a second one comes twice, and its bytes are in the downloaded file twice.
  lemma {:induction false} RepeatedBlock(file: seq<Byte>) returns (ds: seq<Arrival>, idx: seq<int>)
    requires |file| >= 512
    ensures Carries(ds, file, idx) && Repeats(idx) && |ds| == BlockCount(file) + 1
    ensures Written(ds, 0).2 == Complete && Written(ds, 0).0 == file[..512] + file != file
  {
    var n := BlockCount(file) + 1;
    idx := seq(n, i => if i == 0 then 1 else i);
    ds := seq(n, i requires 0 <= i < n => Arrival(DataPacket(file, if i == 0 then 1 else i), NoFault));
    assert idx[0 + 1] == idx[0];
    WrittenOnce(ds, file, idx, 1, 1);
    FirstTwice(file, ds);
    WrittenLength(ds, file, idx, 0);
  }

  lemma {:induction false} FirstTwice(file: seq<Byte>, ds: seq<Arrival>)
    requires |file| >= 512 && |ds| > 1 && ds[0] == Arrival(DataPacket(file, 1), NoFault)
    ensures Written(ds, 0).0 == file[..512] + Written(ds, 1).0
  {
    ReceiveBlock(file, 1);
    assert Block(file, 1) == file[..512];
  }
}
