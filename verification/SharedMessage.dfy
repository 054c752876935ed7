/** The producer and the consumer of one message buffer in shared memory: the producer copies
    a line and posts a counting semaphore, the consumer waits and prints. Copy and print go
    byte by byte, and nothing keeps them apart. */
module SharedMessage {
  import opened Basics
  import opened Runs

  const BUFFER_SIZE := 1024
  const PAGE_SIZE := 4096

  type Message = m: seq<Byte> | |m| == BUFFER_SIZE witness seq(BUFFER_SIZE, _ => 0)

  // What fgets leaves in the buffer: the terminating 0 is somewhere in it.
  predicate IsMessage(m: Message) {
    exists k :: 0 <= k < BUFFER_SIZE && m[k] == 0
  }

  // printf("%s"): the bytes before the first 0.
  function CString(m: seq<Byte>): (r: seq<Byte>) {
    if m == [] || m[0] == 0 then [] else [m[0]] + CString(m[1..])
  }

  datatype Producer = AtGets | Copying(next: nat) | AtV

  // message is the number of the newest message of which any byte was in memory when the print's
  // wait succeeded; quiet says that all of it was then, and that no byte has been copied since.
  datatype Consumer = AtP | Printing(next: nat, text: seq<Byte>, quiet: bool, message: nat)

  datatype Print = Print(text: seq<Byte>, quiet: bool, message: nat)

  // messages and prints record history: everything fgets has returned, and all output.
  datatype Sys = Sys(memory: seq<Byte>, sem: nat, producer: Producer, consumer: Consumer,
                     messages: seq<Message>, posts: nat, prints: seq<Print>)

  datatype Action = Gets(line: Message) | Copy | Post | Wait | PrintByte

  // The semaphores have been initialised by both sides and nothing has been posted since. The
  // segment may hold anything from before in the part that messages are copied to.
  ghost predicate Init(s: Sys) {
    && |s.memory| == PAGE_SIZE && (forall k :: BUFFER_SIZE <= k < PAGE_SIZE ==> s.memory[k] == 0)
    && s.sem == 0 && s.producer == AtGets && s.consumer == AtP
    && s.messages == [] && s.posts == 0 && s.prints == []
  }

  predicate Enabled(s: Sys, a: Action) {
    match a
    case Gets(line) => s.producer == AtGets && IsMessage(line)
    case Copy => s.producer.Copying? && s.producer.next < BUFFER_SIZE <= |s.memory| && |s.messages| > 0
    case Post => s.producer == AtV
    case Wait => s.consumer == AtP && s.sem > 0
    case PrintByte => s.consumer.Printing? && s.consumer.next < |s.memory|
  }

  // The number of messages of which any byte has been copied.
  function Begun(s: Sys): nat {
    if s.producer == Copying(0) && s.messages != [] then |s.messages| - 1 else |s.messages|
  }

  predicate InMidCopy(s: Sys) {
    s.producer.Copying? && s.producer.next > 0
  }

  function Step(s: Sys, a: Action): Sys
    requires Enabled(s, a)
  {
    match a
    case Gets(line) => s.(producer := Copying(0), messages := s.messages + [line])
    case Copy =>
      var k := s.producer.next;
      s.(memory := s.memory[k := s.messages[|s.messages| - 1][k]],
         producer := if k + 1 == BUFFER_SIZE then AtV else Copying(k + 1),
         consumer := if s.consumer.Printing? then s.consumer.(quiet := false) else s.consumer)
    case Post => s.(producer := AtGets, sem := s.sem + 1, posts := s.posts + 1)
    case Wait => s.(sem := s.sem - 1, consumer := Printing(0, [], !InMidCopy(s), Begun(s)))
    case PrintByte =>
      var c := s.consumer;
      if s.memory[c.next] == 0 then
        s.(consumer := AtP, prints := s.prints + [Print(c.text, c.quiet, c.message)])
      else s.(consumer := c.(next := c.next + 1, text := c.text + [s.memory[c.next]]))
  }

  ghost predicate Next(s: Sys, a: Action, t: Sys) {
    Enabled(s, a) && t == Step(s, a)
  }

  ghost predicate IsRun(trace: seq<Sys>, acts: seq<Action>) {
    IsPath(Next, trace, acts) && Init(trace[0])
  }

  // The first n bytes of the memory are those of message number m.
  ghost predicate Copied(s: Sys, m: int, n: nat) {
    n <= BUFFER_SIZE && 1 <= m <= |s.messages| && |s.memory| == PAGE_SIZE
    && forall k :: 0 <= k < n ==> s.memory[k] == s.messages[m - 1][k]
  }

  ghost predicate MemoryInv(s: Sys)
  {
    && |s.memory| == PAGE_SIZE && (forall k :: BUFFER_SIZE <= k < PAGE_SIZE ==> s.memory[k] == 0)
    && (s.producer.Copying? ==> s.producer.next < BUFFER_SIZE)
    && (if InMidCopy(s) then Copied(s, |s.messages|, s.producer.next)
        else Begun(s) > 0 ==> Copied(s, Begun(s), BUFFER_SIZE))
  }

  ghost predicate CountInv(s: Sys) {
    && s.posts == s.sem + |s.prints| + One(s.consumer.Printing?)
    && |s.messages| == s.posts + One(s.producer != AtGets)
  }

  // A quiet print has so far shown the message it began with, which is no older than the one
  // whose post it consumed.
  ghost predicate PrintingInv(s: Sys)
  {
    match s.consumer
    case AtP => true
    case Printing(n, text, quiet, message) =>
      && n <= BUFFER_SIZE && |s.memory| == PAGE_SIZE
      && |s.prints| < message <= |s.messages|
      && (quiet ==>
          && message == Begun(s) && !InMidCopy(s)
          && text == s.messages[message - 1][..n] && 0 !in text
          && (forall k :: 0 <= k < BUFFER_SIZE ==> s.memory[k] == s.messages[message - 1][k]))
  }

  ghost predicate PrintsInv(s: Sys) {
    forall j :: 0 <= j < |s.prints| ==>
      && j < s.prints[j].message <= |s.messages|
      && (s.prints[j].quiet ==> s.prints[j].text == CString(s.messages[s.prints[j].message - 1]))
  }

  // While the producer is idle and no post is left, the consumer's last wait came after the
  // last post, and its print has been or is being made in quiet.
  ghost predicate RestInv(s: Sys) {
    s.producer == AtGets && s.sem == 0 && s.posts > 0 ==>
      match s.consumer
      case AtP => |s.prints| > 0 && s.prints[|s.prints| - 1].quiet && s.prints[|s.prints| - 1].message == s.posts
      case Printing(_, _, quiet, message) => quiet && message == s.posts
  }

  ghost predicate Inv(s: Sys) {
    && (forall j :: 0 <= j < |s.messages| ==> IsMessage(s.messages[j]))
    && MemoryInv(s) && CountInv(s) && PrintingInv(s) && PrintsInv(s) && RestInv(s)
  }

  lemma {:induction false} CStringPrefix(m: seq<Byte>, n: nat)
    requires n < |m| && m[n] == 0 && 0 !in m[..n]
    ensures CString(m) == m[..n]
  {
    if n == 0 {
    } else {
      assert m[0] == m[..n][0];
      assert m[1..][..n - 1] == m[..n][1..];
      CStringPrefix(m[1..], n - 1);
      assert m[..n] == [m[0]] + m[1..][..n - 1];
    }
  }

  lemma {:induction false} NotAtEnd(m: Message, n: nat)
    requires IsMessage(m) && n <= BUFFER_SIZE && 0 !in m[..n]
    ensures n < BUFFER_SIZE
  {
    var k :| 0 <= k < BUFFER_SIZE && m[k] == 0;
    assert forall j :: 0 <= j < n ==> m[..n][j] == m[j];
  }

  lemma {:induction false} PrintByteInv(s: Sys)
    requires Inv(s) && Enabled(s, PrintByte)
    ensures Inv(Step(s, PrintByte))
  {
    if s.consumer.quiet {
      QuietByte(s.memory, s.messages[s.consumer.message - 1], s.consumer.next);
    }
    if s.memory[s.consumer.next] == 0 {
      LastByteInv(s);
    } else {
      NextByteInv(s);
    }
  }

  lemma {:induction false} LastByteInv(s: Sys)
    requires Inv(s) && Enabled(s, PrintByte) && s.memory[s.consumer.next] == 0
    requires s.consumer.quiet ==> s.consumer.text == CString(s.messages[s.consumer.message - 1])
    ensures Inv(Step(s, PrintByte))
  {}

  lemma {:induction false} NextByteInv(s: Sys)
    requires Inv(s) && Enabled(s, PrintByte) && s.memory[s.consumer.next] != 0
    requires s.consumer.quiet ==> s.consumer.next < BUFFER_SIZE
    ensures Inv(Step(s, PrintByte))
  {}

  // One byte of a message that is in the memory, all bytes before it printed.
  lemma {:induction false} QuietByte(memory: seq<Byte>, m: Message, n: nat)
    requires IsMessage(m) && |memory| >= BUFFER_SIZE && n <= BUFFER_SIZE && 0 !in m[..n]
    requires forall k :: 0 <= k < BUFFER_SIZE ==> memory[k] == m[k]
    ensures n < BUFFER_SIZE
    ensures if memory[n] == 0 then CString(m) == m[..n]
      else m[..n + 1] == m[..n] + [memory[n]] && 0 !in m[..n + 1]
  {
    NotAtEnd(m, n);
    if m[n] == 0 {
      CStringPrefix(m, n);
    } else {
      assert m[..n + 1] == m[..n] + [m[n]];
    }
  }

  lemma {:induction false} StepInv(s: Sys, a: Action)
    requires Inv(s) && Enabled(s, a)
    ensures Inv(Step(s, a))
  {
    match a
    case PrintByte => PrintByteInv(s);
    case Wait => WaitInv(s);
    case Copy => CopyInv(s);
    case _ =>
  }

  lemma {:induction false} WaitInv(s: Sys)
    requires Inv(s) && Enabled(s, Wait)
    ensures Inv(Step(s, Wait))
  {}

  lemma {:induction false} CopyInv(s: Sys)
    requires Inv(s) && Enabled(s, Copy)
    ensures Inv(Step(s, Copy))
  {}

  lemma {:induction false} RunInv(trace: seq<Sys>, acts: seq<Action>, i: nat)
    requires IsRun(trace, acts) && i < |trace|
    ensures Inv(trace[i])
  {
    if i == 0 {
    } else {
      var j := i - 1;
      RunInv(trace, acts, j);
      assert Next(trace[j], acts[j], trace[j + 1]);
      StepInv(trace[j], acts[j]);
    }
  }

  // In every run prints never outnumber posts, and the j-th print, unless it began in the middle
  // of a copy or a byte was copied before it ended, shows one whole message: the j-th or, when
  // that has been overwritten, a later one.
  lemma {:induction false} PrintsFollowPosts(trace: seq<Sys>, acts: seq<Action>, i: nat)
    requires IsRun(trace, acts) && i < |trace|
    ensures var s := trace[i];
      && |s.prints| <= s.posts <= |s.messages|
      && forall j :: 0 <= j < |s.prints| ==>
           && j + 1 <= s.prints[j].message <= |s.messages|
           && (s.prints[j].quiet ==> s.prints[j].text == CString(s.messages[s.prints[j].message - 1]))
  {
    RunInv(trace, acts, i);
  }

  // Coalesced notification: whenever the producer is between messages and the consumer waits
  // with the semaphore at zero, the last print shows the last message.
  lemma {:induction false} LastPrintIsLastMessage(trace: seq<Sys>, acts: seq<Action>, i: nat)
    requires IsRun(trace, acts) && i < |trace|
    requires trace[i].producer == AtGets && trace[i].consumer == AtP && trace[i].sem == 0 && trace[i].messages != []
    ensures var s := trace[i];
      |s.prints| == |s.messages| && s.prints[|s.prints| - 1].text == CString(s.messages[|s.messages| - 1])
  {
    RunInv(trace, acts, i);
  }

  // ----- Which runs print every message -----

  // Print j was made of message j + 1, whole and undisturbed.
  ghost predicate InTurn(s: Sys, j: nat)
    requires j < |s.prints|
  {
    s.prints[j].quiet && s.prints[j].message == j + 1
  }

  ghost predicate AllInTurn(s: Sys) {
    forall j: nat :: j < |s.prints| ==> InTurn(s, j)
  }

  // The consumer has shown all that has been posted and is waiting.
  predicate Idle(s: Sys) {
    s.sem == 0 && s.consumer == AtP
  }

  // Every print so far is in turn, the one under way will be, and the next can be.
  ghost predicate Faithful(s: Sys) {
    && AllInTurn(s)
    && (s.consumer.Printing? ==> s.consumer.quiet && s.consumer.message == |s.prints| + 1)
    && (s.consumer == AtP ==> Begun(s) <= |s.prints| + 1)
  }

  // A copy made while the consumer is idle keeps it so, as do all other steps.
  lemma {:induction false} StaysFaithful(s: Sys, a: Action)
    requires Inv(s) && Enabled(s, a) && Faithful(s) && (a.Copy? ==> Idle(s))
    requires s.producer == AtV || InMidCopy(s) ==> Idle(s)
    ensures var t := Step(s, a); Faithful(t) && (t.producer == AtV || InMidCopy(t) ==> Idle(t))
  {
    var t := Step(s, a);
    forall j: nat | j < |t.prints| ensures InTurn(t, j) {
      if j < |s.prints| {
        assert InTurn(s, j);
      }
    }
  }

  // A copy made at any other time spoils a print, and nothing mends that.
  lemma {:induction false} Spoils(s: Sys, a: Action)
    requires Inv(s) && Enabled(s, a) && (!Faithful(s) || (a.Copy? && !Idle(s)))
    ensures !Faithful(Step(s, a))
  {
    var t := Step(s, a);
    if !AllInTurn(s) {
      var j: nat :| j < |s.prints| && !InTurn(s, j);
      assert !InTurn(t, j);
    } else if |t.prints| > |s.prints| {
      assert !InTurn(t, |s.prints|);
    }
  }

  lemma {:induction false} FaithfulIff(trace: seq<Sys>, acts: seq<Action>, i: nat)
    requires IsRun(trace, acts) && i < |trace|
    ensures Faithful(trace[i]) <==> forall k :: 0 <= k < i && acts[k].Copy? ==> Idle(trace[k])
    ensures Faithful(trace[i]) && (trace[i].producer == AtV || InMidCopy(trace[i])) ==> Idle(trace[i])
  {
    if i == 0 {
    } else {
      var j := i - 1;
      FaithfulIff(trace, acts, j);
      RunInv(trace, acts, j);
      assert Next(trace[j], acts[j], trace[j + 1]);
      if Faithful(trace[j]) && (acts[j].Copy? ==> Idle(trace[j])) {
        StaysFaithful(trace[j], acts[j]);
      } else {
        Spoils(trace[j], acts[j]);
      }
    }
  }

  // The exact condition. When a run has come to rest, every message has been printed, whole and
  // in turn, if and only if each byte was copied while the consumer had printed all that was
  // posted and was waiting: nothing in the program makes the producer wait for that.
  lemma {:induction false} EachPrintedIff(trace: seq<Sys>, acts: seq<Action>)
    requires IsRun(trace, acts) && trace[|acts|].producer == AtGets && Idle(trace[|acts|])
    ensures AllInTurn(trace[|acts|]) <==> forall k :: 0 <= k < |acts| && acts[k].Copy? ==> Idle(trace[k])
    ensures AllInTurn(trace[|acts|]) ==>
      var s := trace[|acts|];
      |s.prints| == |s.messages| && forall j :: 0 <= j < |s.prints| ==> s.prints[j].text == CString(s.messages[j])
  {
    var s := trace[|acts|];
    RunInv(trace, acts, |acts|);
    FaithfulIff(trace, acts, |acts|);
    if AllInTurn(s) {
      forall j: nat | j < |s.prints| ensures s.prints[j].text == CString(s.messages[j]) {
        assert InTurn(s, j);
      }
    }
  }

  // ----- Intermediate messages can be lost -----

  // The producer copies the rest of its message and posts it, while the consumer waits.
  lemma {:induction false} ReachPosted(s: Sys, t: Sys, n: nat) returns (u: Sys)
    requires Reaches(Next, s, t) && Inv(t) && t.producer == Copying(n) && t.consumer == AtP && n < BUFFER_SIZE
    ensures Reaches(Next, s, u) && Inv(u) && u.producer == AtGets && u.consumer == AtP
    ensures u.sem == t.sem + 1 && u.prints == t.prints && u.messages == t.messages
    decreases BUFFER_SIZE - n
  {
    u := Step(t, Copy);
    StepInv(t, Copy);
    ReachesStep(Next, s, t, Copy, Step(t, Copy));
    if n + 1 < BUFFER_SIZE {
      u := ReachPosted(s, u, n + 1);
    } else {
      var v := u;
      StepInv(v, Post);
      ReachesStep(Next, s, v, Post, Step(v, Post));
      u := Step(v, Post);
    }
  }

  // One byte of a quiet print: either the whole message has now been printed, or it goes on.
  lemma {:induction false} PrintOn(t: Sys) returns (u: Sys)
    requires Inv(t) && t.producer == AtGets && t.consumer.Printing? && t.consumer.quiet
    ensures Enabled(t, PrintByte) && u == Step(t, PrintByte) && Inv(u) && t.consumer.next < BUFFER_SIZE
    ensures u.producer == AtGets && u.sem == t.sem && u.messages == t.messages
    ensures if u.consumer == AtP
      then u.prints == t.prints + [Print(CString(t.messages[t.consumer.message - 1]), true, t.consumer.message)]
      else u.prints == t.prints && u.consumer.quiet && u.consumer.message == t.consumer.message && u.consumer.next == t.consumer.next + 1
  {
    NotAtEnd(t.messages[t.consumer.message - 1], t.consumer.next);
    u := Step(t, PrintByte);
    StepInv(t, PrintByte);
    if u.consumer == AtP {
      assert u.prints[|t.prints|].quiet;
    }
  }

  // The consumer prints to the end, while the producer does nothing.
  lemma {:induction false} ReachPrinted(s: Sys, t: Sys) returns (u: Sys)
    requires Reaches(Next, s, t) && Inv(t) && t.producer == AtGets && t.consumer.Printing? && t.consumer.quiet
    ensures Reaches(Next, s, u) && Inv(u) && u.producer == AtGets && u.consumer == AtP
    ensures u.sem == t.sem && u.messages == t.messages
    ensures u.prints == t.prints + [Print(CString(t.messages[t.consumer.message - 1]), true, t.consumer.message)]
    decreases BUFFER_SIZE - t.consumer.next
  {
    var printed := Print(CString(t.messages[t.consumer.message - 1]), true, t.consumer.message);
    var v := PrintOn(t);
    ReachesStep(Next, s, t, PrintByte, Step(t, PrintByte));
    if v.consumer == AtP {
      u := v;
    } else {
      u := ReachPrinted(s, v);
    }
    assert u.prints == t.prints + [printed];
  }

  lemma {:induction false} ReachMessage(s: Sys, t: Sys, m: Message) returns (u: Sys)
    requires Reaches(Next, s, t) && Inv(t) && t.producer == AtGets && t.consumer == AtP && IsMessage(m)
    ensures Reaches(Next, s, u) && Inv(u) && u.producer == AtGets && u.consumer == AtP
    ensures u.sem == t.sem + 1 && u.prints == t.prints && u.messages == t.messages + [m]
  {
    StepInv(t, Gets(m));
    ReachesStep(Next, s, t, Gets(m), Step(t, Gets(m)));
    u := ReachPosted(s, Step(t, Gets(m)), 0);
  }

  lemma {:induction false} ReachPrint(s: Sys, t: Sys) returns (u: Sys)
    requires Reaches(Next, s, t) && Inv(t) && t.producer == AtGets && t.consumer == AtP && t.sem > 0
    ensures Reaches(Next, s, u) && Inv(u) && u.producer == AtGets && u.consumer == AtP
    ensures |t.messages| > 0 && u.sem == t.sem - 1 && u.messages == t.messages
    ensures u.prints == t.prints + [Print(CString(t.messages[|t.messages| - 1]), true, |t.messages|)]
  {
    StepInv(t, Wait);
    ReachesStep(Next, s, t, Wait, Step(t, Wait));
    u := ReachPrinted(s, Step(t, Wait));
  }

  // Any two messages can be posted so that the consumer prints the second one twice and never
  // the first: posts are counted, messages are not queued.
  lemma {:induction false} FirstMessageLost(s: Sys, first: Message, second: Message) returns (u: Sys)
    requires Init(s) && IsMessage(first) && IsMessage(second)
    ensures Reaches(Next, s, u) && u.messages == [first, second] && |u.prints| == 2
    ensures u.prints[0].text == u.prints[1].text == CString(second)
  {
    ReachesSelf(Next, s);
    u := ReachMessage(s, s, first);
    u := ReachMessage(s, u, second);
    u := ReachPrint(s, u);
    u := ReachPrint(s, u);
  }
}
