/** The upload over a network that loses, duplicates, delays and reorders packets in both
    directions, to an RFC 1350 receiver whose own datagrams are the only replies. */
module TftpUploadNetwork {
  import opened Basics
  import opened Runs
  import opened TftpPackets
  import opened TftpUpload

  // events are the replies that the client has had, arrivals the DATA packets that have come to
  // the receiver, and answers all datagrams it has ever sent.
  datatype Link = Link(file: seq<Byte>, events: seq<Event>, receiver: Receiver, arrivals: seq<int>, answers: set<Packet>)

  // Each packet ever sent may arrive at any later time, any number of times, or not at all.
  datatype Action = ArriveData(k: int) | ArriveReply(d: Packet)

  // The DATA packets that the client has sent, and how its loop stands.
  function Sent(l: Link): nat {
    Rounds(l.file, 0, l.events).0
  }

  function Outcome(l: Link): Result {
    Rounds(l.file, 0, l.events).1
  }

  predicate Enabled(l: Link, a: Action) {
    match a
    case ArriveData(k) => 1 <= k <= Sent(l) && k <= BlockCount(l.file)
    case ArriveReply(d) => d in l.answers && Outcome(l) == Blocked
  }

  function Step(l: Link, a: Action): Link
    requires Enabled(l, a)
  {
    match a
    case ArriveData(k) =>
      var (r, d) := Answer(l.receiver, DataPacket(l.file, k));
      l.(receiver := r, arrivals := l.arrivals + [k], answers := l.answers + {d})
    case ArriveReply(d) => l.(events := l.events + [Reply(d)])
  }

  ghost predicate Next(l: Link, a: Action, m: Link) {
    Enabled(l, a) && m == Step(l, a)
  }

  // The client has had ACK 0 for its request; if the network has kept a copy of that, it is the
  // first of the answers.
  function Start(file: seq<Byte>, keptZero: bool): Link {
    Link(file, [], IDLE, [], if keptZero then {Ack(0)} else {})
  }

  ghost predicate Reached(file: seq<Byte>, keptZero: bool, l: Link) {
    Reaches(Next, Start(file, keptZero), l)
  }

  // ----- Files short enough -----

  // No two packets have the same number, and none has that of the block after the last.
  predicate Short(file: seq<Byte>) {
    |file| < 512 * NUMBERS
  }

  ghost predicate Stored(file: seq<Byte>, r: Receiver) {
    r.count <= Chunks(file) && r.data == Prefix(file, r.count) && (r.ended <==> r.count == BlockCount(file))
  }

  // An answer: an error, the ACK of a block that has been stored, or that of the request.
  ghost predicate IsAnswer(d: Packet, count: nat, keptZero: bool) {
    d == Header(5, 4) || (keptZero && d == Ack(0)) || exists i :: 1 <= i <= count && d == Ack(i % NUMBERS)
  }

  // The length of the longest run 1, 2, ... that the arrivals contain in that order.
  function InTurn(ks: seq<int>): nat {
    if ks == [] then 0
    else
      var c := InTurn(ks[..|ks| - 1]);
      if ks[|ks| - 1] == c + 1 then c + 1 else c
  }

  ghost predicate Inv(l: Link, keptZero: bool) {
    && Short(l.file)
    && Stored(l.file, l.receiver)
    && l.receiver.count == InTurn(l.arrivals)
    && (forall d :: d in l.answers ==> IsAnswer(d, l.receiver.count, keptZero))
    && (forall j :: 0 <= j < |l.events| ==> l.events[j].Reply? && l.events[j].datagram in l.answers)
  }

  lemma {:induction false} SameNumber(a: int, b: int)
    requires 1 <= a <= NUMBERS && 1 <= b <= NUMBERS && a % NUMBERS == b % NUMBERS
    ensures a == b
  {}

  // Packet k is stored if and only if it is the next one, and acknowledged only once stored.
  lemma {:induction false} ArrivalExact(file: seq<Byte>, r: Receiver, k: int)
    requires Short(file) && Stored(file, r) && 1 <= k <= Chunks(file)
    ensures var (r', d) := Answer(r, DataPacket(file, k));
      && Stored(file, r')
      && r'.count == (if k == r.count + 1 then r.count + 1 else r.count)
      && (d == Header(5, 4) || (k <= r'.count && d == Ack(k % NUMBERS)))
  {
    if k == r.count + 1 {
      AnswerNext(r, file, r.count);
    } else {
      AnswerOther(file, r, k);
    }
  }

  lemma {:induction false} AnswerOther(file: seq<Byte>, r: Receiver, k: int)
    requires Short(file) && Stored(file, r) && 1 <= k <= Chunks(file) && k != r.count + 1
    ensures Answer(r, DataPacket(file, k)) == (r, if k == r.count then Ack(k % NUMBERS) else Header(5, 4))
  {
    var p := DataPacket(file, k);
    assert Number(p) == k % NUMBERS;
    if !r.ended && k % NUMBERS == (r.count + 1) % NUMBERS {
      SameNumber(k, r.count + 1);
    }
    if 1 <= r.count && k % NUMBERS == r.count % NUMBERS {
      SameNumber(k, r.count);
    }
  }

  lemma {:induction false} DataInv(l: Link, k: int, keptZero: bool)
    requires Inv(l, keptZero) && Enabled(l, ArriveData(k))
    ensures Inv(Step(l, ArriveData(k)), keptZero)
  {
    var l' := Step(l, ArriveData(k));
    SentBound(l);
    ArrivalExact(l.file, l.receiver, k);
    assert l'.arrivals[..|l.arrivals|] == l.arrivals;
    forall d | d in l'.answers ensures IsAnswer(d, l'.receiver.count, keptZero) {
      if d in l.answers {
        MoreStored(d, l.receiver.count, l'.receiver.count, keptZero);
      }
    }
  }

  lemma {:induction false} MoreStored(d: Packet, c: nat, c': nat, keptZero: bool)
    requires IsAnswer(d, c, keptZero) && c <= c'
    ensures IsAnswer(d, c', keptZero)
  {}

  lemma {:induction false} SentBound(l: Link)
    ensures Sent(l) <= Chunks(l.file)
  {
    UploadOutcome(l.file, 0, l.events);
  }

  lemma {:induction false} StepInv(l: Link, a: Action, keptZero: bool)
    requires Inv(l, keptZero) && Enabled(l, a)
    ensures Inv(Step(l, a), keptZero)
  {
    if a.ArriveData? {
      DataInv(l, a.k, keptZero);
    }
  }

  lemma {:induction false} ReachedInv(file: seq<Byte>, keptZero: bool, l: Link)
    requires Reached(file, keptZero, l) && Short(file)
    ensures Inv(l, keptZero) && l.file == file
  {
    var trace: seq<Link>, acts: seq<Action> :| IsPath(Next, trace, acts) && trace[0] == Start(file, keptZero) && trace[|acts|] == l;
    PathInv(trace, acts, file, keptZero, |acts|);
  }

  lemma {:induction false} PathInv(trace: seq<Link>, acts: seq<Action>, file: seq<Byte>, keptZero: bool, i: nat)
    requires IsPath(Next, trace, acts) && i < |trace| && trace[0] == Start(file, keptZero) && Short(file)
    ensures Inv(trace[i], keptZero) && trace[i].file == file
  {
    if i == 0 {
      assert Stored(file, IDLE);
    } else {
      var j := i - 1;
      PathInv(trace, acts, file, keptZero, j);
      assert Next(trace[j], acts[j], trace[j + 1]);
      StepInv(trace[j], acts[j], keptZero);
    }
  }

  // The reply that ends a successful upload acknowledges the last chunk, and all are stored.
  lemma {:induction false} SuccessStored(l: Link, keptZero: bool)
    requires Inv(l, keptZero) && Outcome(l) == Uploaded && (keptZero ==> Chunks(l.file) < NUMBERS)
    ensures l.receiver.count == Chunks(l.file) && l.receiver.data == l.file
  {
    var last := Chunks(l.file);
    UploadOutcome(l.file, 0, l.events);
    if last > 0 {
      LastStored(l.events[last - 1].datagram, last, l.receiver.count, keptZero);
    }
  }

  lemma {:induction false} LastStored(d: Packet, last: nat, count: nat, keptZero: bool)
    requires 1 <= last <= NUMBERS && count <= last && IsAnswer(d, count, keptZero) && (keptZero ==> last < NUMBERS)
    requires Judge(d, last % NUMBERS) == Continue
    ensures count == last
  {
    assert Opcode(Header(5, 4)) == 5;
    JudgeAck(0);
    if d != Header(5, 4) && d != Ack(0) {
      var i :| 1 <= i <= count && d == Ack(i % NUMBERS);
      JudgeAck(i % NUMBERS);
      SameNumber(i, last);
    } else if d == Ack(0) {
      assert last == NUMBERS;
      var i :| 1 <= i <= count && d == Ack(i % NUMBERS);
      JudgeAck(i % NUMBERS);
      SameNumber(i, last);
    }
  }

  // ----- Which arrivals give the file -----

  // pos picks out n arrivals, in order, that are packets 1, 2, ..., n.
  ghost predicate Picks(ks: seq<int>, pos: seq<nat>, n: nat) {
    && |pos| == n
    && (forall i :: 0 <= i < n ==> pos[i] < |ks| && ks[pos[i]] == i + 1)
    && (forall i, j :: 0 <= i < j < n ==> pos[i] < pos[j])
  }

  lemma {:induction false} PicksExist(ks: seq<int>) returns (pos: seq<nat>)
    ensures Picks(ks, pos, InTurn(ks))
  {
    if ks == [] {
      pos := [];
    } else {
      var k := |ks| - 1;
      pos := PicksExist(ks[..k]);
      PicksLonger(ks, k, pos, InTurn(ks[..k]));
      if ks[k] == InTurn(ks[..k]) + 1 {
        pos := pos + [k];
      }
    }
  }

  lemma {:induction false} PicksLonger(ks: seq<int>, k: nat, pos: seq<nat>, n: nat)
    requires k <= |ks| && |pos| == n
    ensures Picks(ks[..k], pos, n) <==> Picks(ks, pos, n) && forall i :: 0 <= i < n ==> pos[i] < k
  {
    assert forall i :: 0 <= i < n && pos[i] < k ==> ks[..k][pos[i]] == ks[pos[i]];
  }

  lemma {:induction false} PicksBound(ks: seq<int>, pos: seq<nat>, n: nat)
    requires Picks(ks, pos, n)
    ensures n <= InTurn(ks)
  {
    if n == 0 {
    } else {
      assert pos[n - 1] < |ks|;
      var k := |ks| - 1;
      if pos[n - 1] == k {
        var before := pos[..n - 1];
        assert forall i :: 0 <= i < n - 1 ==> before[i] == pos[i] < pos[n - 1];
        PicksLonger(ks, k, before, n - 1);
        PicksBound(ks[..k], before, n - 1);
      } else {
        assert forall i :: 0 <= i < n ==> pos[i] <= pos[n - 1];
        PicksLonger(ks, k, pos, n);
        PicksBound(ks[..k], pos, n);
      }
    }
  }

  // Over any network the receiver has the file if and only if the DATA packets have arrived in
  // order at some time, whatever else arrived before, between and after.
  lemma {:induction false} ArrivedIff(file: seq<Byte>, keptZero: bool, l: Link)
    requires Reached(file, keptZero, l) && Short(file)
    ensures l.receiver.data == file <==> exists pos: seq<nat> :: Picks(l.arrivals, pos, Chunks(file))
  {
    ReachedInv(file, keptZero, l);
    var pos := PicksExist(l.arrivals);
    if exists pos: seq<nat> :: Picks(l.arrivals, pos, Chunks(file)) {
      var pos: seq<nat> :| Picks(l.arrivals, pos, Chunks(file));
      PicksBound(l.arrivals, pos, Chunks(file));
    }
    PrefixIsFile(file, l.receiver.count);
  }

  lemma {:induction false} PrefixIsFile(file: seq<Byte>, n: nat)
    requires n <= Chunks(file)
    ensures Prefix(file, n) == file <==> n == Chunks(file)
  {}

  // ----- Longer files -----

  function Acks(n: nat): (events: seq<Event>)
    ensures |events| == n && forall j :: 0 <= j < n ==> events[j] == Reply(Ack((j + 1) % NUMBERS))
  {
    seq(n, j requires 0 <= j => Reply(Ack((j + 1) % NUMBERS)))
  }

  lemma {:induction false} AcksOutcome(file: seq<Byte>, n: nat)
    requires n <= Chunks(file)
    ensures Rounds(file, 0, Acks(n)) == if n < Chunks(file) then (n + 1, Blocked) else (n, Uploaded)
  {
    UploadOutcome(file, 0, Acks(n));
    forall j | 0 <= j < n ensures Judge(Acks(n)[j].datagram, (j + 1) % NUMBERS) == Continue {
      JudgeAck((j + 1) % NUMBERS);
    }
  }

  ghost predicate Acked(l: Link, n: nat) {
    forall i :: 1 <= i <= n ==> Ack(i % NUMBERS) in l.answers
  }

  // The first n packets and their ACKs arrive in turn.
  lemma {:induction false} InOrder(file: seq<Byte>, keptZero: bool, n: nat) returns (l: Link)
    requires n <= Chunks(file)
    ensures Reached(file, keptZero, l) && l.file == file && l.events == Acks(n)
    ensures l.receiver == Receiver(n, Prefix(file, n), n == BlockCount(file))
    ensures Acked(l, n) && (keptZero ==> Ack(0) in l.answers)
  {
    if n == 0 {
      l := Start(file, keptZero);
      ReachesSelf<Link, Action>(Next, l);
    } else {
      l := InOrder(file, keptZero, n - 1);
      l := OneMore(file, keptZero, n, l);
    }
  }

  lemma {:induction false} OneMore(file: seq<Byte>, keptZero: bool, n: nat, l: Link) returns (u: Link)
    requires 1 <= n <= Chunks(file)
    requires Reached(file, keptZero, l) && l.file == file && l.events == Acks(n - 1)
    requires l.receiver == Receiver(n - 1, Prefix(file, n - 1), false)
    requires Acked(l, n - 1) && (keptZero ==> Ack(0) in l.answers)
    ensures Reached(file, keptZero, u) && u.file == file && u.events == Acks(n)
    ensures u.receiver == Receiver(n, Prefix(file, n), n == BlockCount(file))
    ensures Acked(u, n) && (keptZero ==> Ack(0) in u.answers)
  {
    var k := n - 1;
    AcksOutcome(file, k);
    AnswerNext(l.receiver, file, k);
    var m := Step(l, ArriveData(n));
    ReachesStep(Next, Start(file, keptZero), l, ArriveData(n), m);
    AckedMore(l, m, k);
    u := OldReply(file, keptZero, n, m);
    AckedMore(m, u, k);
  }

  lemma {:induction false} AckedMore(l: Link, m: Link, k: nat)
    requires Acked(l, k) && l.answers <= m.answers && Ack((k + 1) % NUMBERS) in m.answers
    ensures Acked(m, k + 1)
  {}

  lemma {:induction false} OldReply(file: seq<Byte>, keptZero: bool, n: nat, l: Link) returns (u: Link)
    requires 1 <= n <= Chunks(file) && Reached(file, keptZero, l) && l.file == file && l.events == Acks(n - 1)
    requires Ack(n % NUMBERS) in l.answers
    ensures Reached(file, keptZero, u) && u == l.(events := Acks(n))
  {
    AcksOutcome(file, n - 1);
    var a := ArriveReply(Ack(n % NUMBERS));
    u := Step(l, a);
    ReachesStep(Next, Start(file, keptZero), l, a, u);
    assert u.events == Acks(n);
  }

  // From there on ACKs that the network has kept can stand in for the others.
  lemma {:induction false} OldAcks(file: seq<Byte>, keptZero: bool, n: nat, l: Link) returns (u: Link)
    requires n <= Chunks(file) && Reached(file, keptZero, l) && l.file == file && l.events == Acks(n)
    requires forall j :: 0 <= j < NUMBERS ==> Ack(j) in l.answers
    ensures Reached(file, keptZero, u) && u == l.(events := Acks(Chunks(file)))
    decreases Chunks(file) - n
  {
    if n == Chunks(file) {
      u := l;
    } else {
      u := OldReply(file, keptZero, n + 1, l);
      u := OldAcks(file, keptZero, n + 1, u);
    }
  }

  lemma {:induction false} AllNumbers(l: Link, n: nat, keptZero: bool)
    requires n == (if keptZero then NUMBERS - 1 else NUMBERS) && Acked(l, n) && (keptZero ==> Ack(0) in l.answers)
    ensures forall j :: 0 <= j < NUMBERS ==> Ack(j) in l.answers
  {
    forall j | 0 <= j < NUMBERS ensures Ack(j) in l.answers {
      if j > 0 {
        assert Ack(j % NUMBERS) in l.answers;
      } else if !keptZero {
        assert Ack(NUMBERS % NUMBERS) in l.answers;
      }
    }
  }

  // All numbers are acknowledged once 65535 packets are, if ACK 0 is there, and 65536 otherwise.
  lemma {:induction false} TailLost(file: seq<Byte>, keptZero: bool, n: nat) returns (l: Link)
    requires n == (if keptZero then NUMBERS - 1 else NUMBERS) && n < Chunks(file)
    ensures Reached(file, keptZero, l) && Outcome(l) == Uploaded && l.receiver.data != file
  {
    l := InOrder(file, keptZero, n);
    AllNumbers(l, n, keptZero);
    l := OldAcks(file, keptZero, n, l);
    AcksOutcome(file, Chunks(file));
    PrefixIsFile(file, n);
  }

  // Of exactly 65536 full blocks all arrive in order; but then the receiver waits for number 1
  // again, and takes a late copy of the first packet for the block after the last.
  lemma {:induction false} LateDuplicate(file: seq<Byte>, keptZero: bool) returns (l: Link)
    requires |file| == 512 * NUMBERS
    ensures Reached(file, keptZero, l) && Outcome(l) == Uploaded && l.receiver.data == file + Block(file, 1)
  {
    var n := NUMBERS;
    var m := InOrder(file, keptZero, n);
    AcksOutcome(file, n);
    l := Step(m, ArriveData(1));
    ReachesStep(Next, Start(file, keptZero), m, ArriveData(1), l);
    FirstAgain(file, m.receiver);
  }

  lemma {:induction false} FirstAgain(file: seq<Byte>, r: Receiver)
    requires |file| == 512 * NUMBERS && r == Receiver(NUMBERS, file, false)
    ensures Answer(r, DataPacket(file, 1)).0.data == file + Block(file, 1)
  {
    assert DataPacket(file, 1)[4..] == Block(file, 1);
  }

  // The files that an upload always gets across when it reports success.
  predicate Safe(file: seq<Byte>, keptZero: bool) {
    if keptZero then |file| <= 512 * 65535 else |file| < 512 * 65536
  }

  lemma {:induction false} NotSafe(file: seq<Byte>, keptZero: bool) returns (l: Link)
    requires !Safe(file, keptZero)
    ensures Reached(file, keptZero, l) && Outcome(l) == Uploaded && l.receiver.data != file
  {
    if !keptZero && |file| == 512 * NUMBERS {
      l := LateDuplicate(file, keptZero);
    } else {
      l := TailLost(file, keptZero, if keptZero then NUMBERS - 1 else NUMBERS);
    }
  }

  // The exact bound. When all replies are the receiver's own datagrams, a reported success always
  // means that the receiver has the file if and only if the file is shorter than 65536 blocks; and
  // if the network may keep a copy of the ACK of the request, if and only if it needs at most
  // 65535 packets.
  lemma {:induction false} SuccessMeansStoredIff(file: seq<Byte>, keptZero: bool)
    ensures (forall l :: Reached(file, keptZero, l) && Outcome(l) == Uploaded ==> l.receiver.data == file)
      <==> if keptZero then |file| <= 512 * 65535 else |file| < 512 * 65536
  {
    if Safe(file, keptZero) {
      forall l | Reached(file, keptZero, l) && Outcome(l) == Uploaded ensures l.receiver.data == file {
        ReachedInv(file, keptZero, l);
        SuccessStored(l, keptZero);
      }
    } else {
      var l := NotSafe(file, keptZero);
    }
  }
}
