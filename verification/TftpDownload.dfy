/** The download client of old_tftp/tftp: one blocking receive loop that filters DATA
    packets by block number, writes them out and acknowledges them. */
module TftpDownload {
  import opened Basics
  import opened TftpPackets

  const TEXT_SIZE := 1024

  // Finished and Refused are the two returns of the loop; Exited is exit(1).
  datatype Phase = Running | Finished | Refused | Exited

  // Which system call of the current iteration fails.
  datatype Fault = NoFault | RecvFault | OpenFault | WriteFault | SendFault

  // num and flags are the locals of that name; out is what has been written to the file.
  datatype Client = Client(num: int, flags: bool, text: seq<Byte>, out: seq<Byte>, phase: Phase)

  ghost predicate Fresh(c: Client) {
    c.num == 0 && !c.flags && |c.text| == TEXT_SIZE && c.out == [] && c.phase == Running
  }

  // recvfrom into the text buffer: longer datagrams are cut, shorter ones leave old bytes.
  function Overlay(text: seq<Byte>, d: Packet): (r: seq<Byte>)
    requires |text| == TEXT_SIZE
    ensures |r| == TEXT_SIZE
    ensures forall i :: 0 <= i < TEXT_SIZE ==> r[i] == if i < |d| then d[i] else text[i]
  {
    if |d| <= TEXT_SIZE then d + text[|d|..] else d[..TEXT_SIZE]
  }

  function Received(d: Packet): int {
    if |d| <= TEXT_SIZE then |d| else TEXT_SIZE
  }

  // One iteration of the receive loop: the new state and the packet sent, if any.
  function Receive(c: Client, d: Packet, f: Fault): (r: (Client, Option<Packet>))
    requires |c.text| == TEXT_SIZE
    ensures |r.0.text| == TEXT_SIZE
  {
    if c.phase != Running then (c, None)
    else if f == RecvFault then (c.(phase := Exited), None)
    else
      var text := Overlay(c.text, d);
      var c1 := c.(text := text);
      if text[1] == 5 then (c1.(phase := Refused), None)
      else if text[1] != 3 then (c1, None)
      else if !c.flags && f == OpenFault then (c1.(phase := Exited), None)
      else Store(c1.(flags := true), Received(d), f)
  }

  // The block filter: a full block moves num, a short one ends the transfer.
  function Store(c: Client, bytes: int, f: Fault): (r: (Client, Option<Packet>))
    requires |c.text| == TEXT_SIZE && bytes <= TEXT_SIZE
    ensures |r.0.text| == TEXT_SIZE
  {
    var n := Number(c.text);
    if n != c.num + 1 || bytes > 516 then (c, None)
    else
      var c1 := if bytes == 516 then c.(num := n) else c;
      if f == WriteFault || bytes < 4 then (c1.(phase := Exited), None)
      else
        var c2 := c1.(out := c.out + c.text[4..bytes], text := c.text[1 := 4]);
        if f == SendFault then (c2.(phase := Exited), None)
        else (c2.(phase := if bytes == 516 then Running else Finished), Some(c2.text[..4]))
  }

  datatype Arrival = Arrival(datagram: Packet, fault: Fault)

  function ReceiveAll(c: Client, arrivals: seq<Arrival>): (r: (Client, seq<Packet>))
    requires |c.text| == TEXT_SIZE
    ensures |r.0.text| == TEXT_SIZE
    decreases |arrivals|
  {
    if arrivals == [] then (c, [])
    else
      var n := |arrivals| - 1;
      var (c1, sent) := ReceiveAll(c, arrivals[..n]);
      var (c2, reply) := Receive(c1, arrivals[n].datagram, arrivals[n].fault);
      (c2, if reply.Some? then sent + [reply.value] else sent)
  }

  // The client as the program runs it: the locals of start_download and its reused buffer.
  class DownloadClient {
    var num: int
    var flags: bool
    var text: array<Byte>
    var out: seq<Byte>
    var phase: Phase

    ghost predicate Valid()
      reads this
    {
      text.Length == TEXT_SIZE
    }

    ghost function View(): (c: Client)
      requires Valid()
      reads this, text
      ensures |c.text| == TEXT_SIZE
    {
      Client(num, flags, text[..], out, phase)
    }

    constructor (request: Packet)
      requires |request| <= TEXT_SIZE
      ensures Valid() && fresh(text) && Fresh(View())
      ensures request <= View().text
    {
      num, flags, out, phase := 0, false, [], Running;
      var t := new Byte[TEXT_SIZE](i requires 0 <= i < TEXT_SIZE => if i < |request| then request[i] else 0);
      text := t;
    }

    // recvfrom(sockfd, text, sizeof(text), ...)
    method Fill(d: Packet) returns (bytes: int)
      requires Valid()
      modifies text
      ensures text[..] == Overlay(old(text[..]), d) && bytes == Received(d)
    {
      bytes := if |d| <= TEXT_SIZE then |d| else TEXT_SIZE;
      for i := 0 to bytes
        invariant forall j :: 0 <= j < TEXT_SIZE ==> text[j] == if j < i then d[j] else old(text[j])
      {
        text[i] := d[i];
      }
    }

    // One pass of the loop body.
    method HandleDatagram(d: Packet, fault: Fault) returns (reply: Option<Packet>)
      requires Valid()
      modifies this, text
      ensures Valid() && text == old(text)
      ensures (View(), reply) == Receive(old(View()), d, fault)
    {
      reply := None;
      if phase != Running { return; }
      if fault == RecvFault { phase := Exited; return; }
      var bytes := Fill(d);
      if text[1] == 5 {
        phase := Refused;
      } else if text[1] == 3 {
        if !flags {
          if fault == OpenFault { phase := Exited; return; }
          flags := true;
        }
        reply := StoreBlock(bytes, fault);
      }
    }

    // The two branches for the block that is wanted: a full one, and a short one.
    method StoreBlock(bytes: int, fault: Fault) returns (reply: Option<Packet>)
      requires Valid() && bytes <= TEXT_SIZE && phase == Running
      modifies this, text
      ensures Valid() && text == old(text)
      ensures (View(), reply) == Store(old(View()), bytes, fault)
    {
      reply := None;
      var n := Number(text[..]);
      if n == num + 1 && bytes == 516 {
        num := n;
        if fault == WriteFault { phase := Exited; return; }
        out := out + text[4..bytes];
        text[1] := 4;
        if fault == SendFault { phase := Exited; return; }
        reply := Some(text[..4]);
      } else if n == num + 1 && bytes < 516 {
        if fault == WriteFault || bytes < 4 { phase := Exited; return; }
        out := out + text[4..bytes];
        text[1] := 4;
        if fault == SendFault { phase := Exited; return; }
        reply := Some(text[..4]);
        phase := Finished;
      }
    }

    // The while(1) loop over everything that arrives.
    method StartDownload(arrivals: seq<Arrival>) returns (sent: seq<Packet>)
      requires Valid()
      modifies this, text
      ensures Valid()
      ensures (View(), sent) == ReceiveAll(old(View()), arrivals)
    {
      sent := [];
      for i := 0 to |arrivals|
        invariant Valid() && text == old(text)
        invariant (View(), sent) == ReceiveAll(old(View()), arrivals[..i])
      {
        assert arrivals[..i + 1][..i] == arrivals[..i];
        var reply := HandleDatagram(arrivals[i].datagram, arrivals[i].fault);
        if reply.Some? {
          sent := sent + [reply.value];
        }
      }
      assert arrivals[..|arrivals|] == arrivals;
    }
  }

  // What one pass makes of any datagram with a whole header, byte by byte of the datagram: a
  // failing recvfrom or open ends the program, an error packet ends the loop, other opcodes have
  // no effect, and of DATA only a packet of at most 512 bytes with number num + 1 has one.
  lemma {:induction false} PassExact(c: Client, d: Packet, f: Fault)
    requires |c.text| == TEXT_SIZE && c.phase == Running && |d| >= 4
    ensures var (c', reply) := Receive(c, d, f);
      var failed := f == RecvFault || (d[1] == 3 && !c.flags && f == OpenFault);
      var wanted := !failed && d[1] == 3 && 256 * (d[2] as int) + d[3] as int == c.num + 1 && |d| <= 516;
      && c'.flags == (c.flags || (!failed && d[1] == 3))
      && (failed ==> c'.phase == Exited)
      && (!failed && d[1] == 5 ==> c'.phase == Refused)
      && (!failed && d[1] != 5 && !wanted ==> c'.phase == Running)
      && (!wanted ==> c'.num == c.num && c'.out == c.out && reply == None)
      && (wanted ==>
           && c'.num == (if |d| == 516 then c.num + 1 else c.num)
           && c'.out == (if f == WriteFault then c.out else c.out + d[4..])
           && c'.phase == (if f == WriteFault || f == SendFault then Exited else if |d| == 516 then Running else Finished)
           && reply == (if c'.phase == Exited then None else Some([d[0], 4, d[2], d[3]])))
  {
    if f != RecvFault {
      var t := Overlay(c.text, d);
      assert t[1] == d[1] && Number(t) == 256 * (d[2] as int) + d[3] as int;
      if |d| <= 516 {
        assert t[4..|d|] == d[4..];
        assert t[1 := 4][..4] == [d[0], 4, d[2], d[3]];
      }
    }
  }

  // What a running client makes of the DATA packet of true index i: only the packet numbered
  // num + 1 has any effect, and its block is written and its number acknowledged.
  ghost predicate Takes(c: Client, c': Client, reply: Option<Packet>, file: seq<Byte>, i: int, f: Fault)
    requires 1 <= i <= BlockCount(file)
  {
    && |c'.text| == TEXT_SIZE
    && c'.flags
    && if i % NUMBERS != c.num + 1 then
         c'.num == c.num && c'.out == c.out && c'.phase == c.phase && reply == None
       else
         && c'.num == (if i < BlockCount(file) then c.num + 1 else c.num)
         && c'.out == (if f == WriteFault then c.out else c.out + Block(file, i))
         && c'.phase == (if f == WriteFault || f == SendFault then Exited
                         else if i < BlockCount(file) then Running else Finished)
         && reply == (if c'.phase == Exited then None else Some(Ack(i % NUMBERS)))
  }

  lemma {:induction false} ReceiveData(c: Client, file: seq<Byte>, i: int, f: Fault)
    requires |c.text| == TEXT_SIZE && c.phase == Running
    requires 1 <= i <= BlockCount(file) && f != RecvFault
    requires c.flags || f != OpenFault
    ensures var (c', reply) := Receive(c, DataPacket(file, i), f); Takes(c, c', reply, file, i, f)
  {
    var p := DataPacket(file, i);
    var t := Overlay(c.text, p);
    assert t[..|p|] == p;
    assert t[1] == 3 && Number(t) == Number(p) == i % NUMBERS;
    assert p[4..] == Block(file, i);
    assert t[4..|p|] == t[..|p|][4..] == Block(file, i);
    assert t[1 := 4][..4] == Ack(i % NUMBERS);
  }
}
