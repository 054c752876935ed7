/** What msgHandler sends for a line of chat: nothing, a notice to the sender, the line to one
    member of a snapshot of the descriptor set, or the line to all of them. */
module ChatMessages {
  import opened Basics
  import opened ChatServer
  import opened ChatFds

  // One call of send, or of write to the terminal.
  datatype Send = Send(fd: int, text: string)

  const NO_TARGET := "No such target\n"

  predicate IsBlank(c: char) {
    c == ' ' || c == '\r' || c == '\n'
  }

  predicate AllBlank(msg: string) {
    forall i :: 0 <= i < |msg| ==> IsBlank(msg[i])
  }

  function Trim(msg: string): (t: string)
    ensures t == [] || t[0] != ' '
    ensures t == [] ==> AllBlank(msg)
  {
    if msg == [] || msg[0] != ' ' then msg else Trim(msg[1..])
  }

  function ColonIn(s: string): (k: nat)
    ensures k <= |s| && (k < |s| ==> s[k] == ':') && ':' !in s[..k]
  {
    if s == [] || s[0] == ':' then 0 else 1 + ColonIn(s[1..])
  }

  // ----- atoi -----

  predicate IsSpace(c: char) {
    c == ' ' || '\t' <= c <= '\r'
  }

  predicate IsDigit(c: char) {
    '0' <= c <= '9'
  }

  function Digits(s: string, acc: nat): nat {
    if s == [] || !IsDigit(s[0]) then acc else Digits(s[1..], acc * 10 + (s[0] - '0') as nat)
  }

  function Atoi(s: string): int {
    if s == [] then 0
    else if IsSpace(s[0]) then Atoi(s[1..])
    else if s[0] == '-' then 0 - Digits(s[1..], 0)
    else if s[0] == '+' then Digits(s[1..], 0)
    else Digits(s, 0)
  }

  function Decimal(n: nat): (s: string)
    ensures |s| > 0 && forall i :: 0 <= i < |s| ==> IsDigit(s[i])
  {
    var d := ('0' as int + n % 10) as char;
    if n < 10 then [d] else Decimal(n / 10) + [d]
  }

  lemma {:induction false} DigitsOfDecimal(n: nat, rest: string)
    ensures Digits(Decimal(n) + rest, 0) == Digits(rest, n)
  {
    var d := ('0' as int + n % 10) as char;
    if n < 10 {
      assert (Decimal(n) + rest)[1..] == rest;
    } else {
      assert Decimal(n) + rest == Decimal(n / 10) + ([d] + rest);
      DigitsOfDecimal(n / 10, [d] + rest);
      assert ([d] + rest)[1..] == rest;
    }
  }

  // ----- Messages -----

  // %03d
  function Padded(n: nat): (s: string)
    ensures |s| >= 3 && forall i :: 0 <= i < |s| ==> IsDigit(s[i])
  {
    var d := Decimal(n);
    if |d| == 1 then "00" + d else if |d| == 2 then "0" + d else d
  }

  // What sendMsgToTarget makes of a message from descriptor src.
  function Message(src: nat, msg: string): string {
    "client" + Padded(src) + " : " + msg + "\n"
  }

  lemma {:induction false} DigitsOfPadded(n: nat, rest: string)
    ensures Digits(Padded(n) + rest, 0) == Digits(rest, n)
  {
    var d := Decimal(n);
    DigitsOfDecimal(n, rest);
    if |d| == 1 {
      assert ("00" + d + rest)[1..] == "0" + d + rest;
      assert ("0" + d + rest)[1..] == d + rest;
    } else if |d| == 2 {
      assert ("0" + d + rest)[1..] == d + rest;
    }
  }

  lemma {:induction false} MessageParts(src: nat, msg: string)
    ensures var m, k := Message(src, msg), 6 + |Padded(src)|;
      && 6 < k < |m| - 3 && m[k + 3..|m| - 1] == msg && Digits(m[6..], 0) == src
  {
    var rest := " : " + msg + "\n";
    assert Message(src, msg)[6..] == Padded(src) + rest;
    DigitsOfPadded(src, rest);
  }

  // A message tells its reader who sent it and what was said.
  lemma {:induction false} MessageReadsBack(src: nat, msg: string, src': nat, msg': string)
    ensures Message(src, msg) == Message(src', msg') <==> src == src' && msg == msg'
  {
    MessageParts(src, msg);
    MessageParts(src', msg');
  }

  // The text, character by character, for the descriptors that there can be.
  lemma {:induction false} MessageText(src: nat, msg: string)
    requires src < 1000
    ensures Message(src, msg) ==
      "client" + [('0' as int + src / 100) as char, ('0' as int + src / 10 % 10) as char, ('0' as int + src % 10) as char] + " : " + msg + "\n"
  {
    var d := ('0' as int + src % 10) as char;
    if src < 10 {
      assert Decimal(src) == [d];
    } else {
      TwoDigits(src / 10);
      assert Decimal(src) == Decimal(src / 10) + [d];
    }
  }

  lemma {:induction false} TwoDigits(n: nat)
    requires n < 100
    ensures Decimal(n) == if n < 10 then [('0' as int + n) as char] else [('0' as int + n / 10) as char, ('0' as int + n % 10) as char]
  {
    if n >= 10 {
      assert Decimal(n / 10) == [('0' as int + n / 10) as char];
    }
  }

  // atoi skips white space and heeds a sign.
  lemma {:induction false} AtoiSigned(n: nat, rest: string)
    ensures var s := Decimal(n) + rest;
      && Atoi("-" + s) == 0 - Digits(rest, n) && Atoi("+" + s) == Digits(rest, n) && Atoi(s) == Digits(rest, n)
      && Atoi(" " + s) == Atoi(s) && Atoi("\t" + s) == Atoi(s)
  {
    var s := Decimal(n) + rest;
    DigitsOfDecimal(n, rest);
    assert s[0] == Decimal(n)[0];
    assert ("-" + s)[1..] == s && ("+" + s)[1..] == s && (" " + s)[1..] == s && ("\t" + s)[1..] == s;
  }

  // msgBroadcast sends to each of these in turn.
  function ToEach(fds: seq<int>, text: string): (sends: seq<Send>)
    ensures |sends| == |fds| && forall i :: 0 <= i < |fds| ==> sends[i] == Send(fds[i], text)
  {
    seq(|fds|, i requires 0 <= i < |fds| => Send(fds[i], text))
  }

  // What a line from src leads to when fds is the set; None if the scan for a colon runs out
  // of the string.
  function Handled(fds: set<int>, src: nat, msg: string): Option<seq<Send>> {
    var t := Trim(msg);
    if AllBlank(msg) then Some([])
    else if t[0] != '/' then Some(ToEach(Ascending(fds, FD_SETSIZE), Message(src, msg)))
    else if ColonIn(t) == |t| then None
    else if Atoi(t[1..]) !in fds then Some([Send(src, NO_TARGET)])
    else Some([Send(Atoi(t[1..]), Message(src, t[ColonIn(t) + 1..]))])
  }

  // The three pointer loops of msgHandler.
  method SkipBlanks(msg: string) returns (p: nat)
    ensures p <= |msg| && (p == |msg| <==> AllBlank(msg))
  {
    p := 0;
    while p < |msg| && (msg[p] == ' ' || msg[p] == '\r' || msg[p] == '\n')
      invariant p <= |msg| && forall i :: 0 <= i < p ==> IsBlank(msg[i])
    {
      p := p + 1;
    }
  }

  method SkipSpaces(msg: string) returns (p: nat)
    ensures p <= |msg| && Trim(msg) == msg[p..]
  {
    p := 0;
    while p < |msg| && msg[p] == ' '
      invariant p <= |msg| && Trim(msg) == Trim(msg[p..])
    {
      p := p + 1;
    }
  }

  method FindColon(s: string) returns (p: nat)
    ensures p == ColonIn(s)
  {
    p := 0;
    while p < |s| && s[p] != ':'
      invariant p <= |s| && ColonIn(s) == p + ColonIn(s[p..])
    {
      p := p + 1;
    }
  }

  method MsgBroadcast(all: FdSet, src: nat, msg: string) returns (sends: seq<Send>)
    requires all.Valid()
    ensures sends == ToEach(Ascending(all.Members(), FD_SETSIZE), Message(src, msg))
  {
    var copy := all.CopyFds();
    ghost var fds := all.Members();
    sends := [];
    for i := 0 to FD_SETSIZE
      invariant sends == ToEach(Ascending(fds, i), Message(src, msg))
    {
      if copy[i] {
        sends := sends + [Send(i, Message(src, msg))];
      }
    }
  }

  method MsgHandler(all: FdSet, src: nat, msg: string) returns (sends: Option<seq<Send>>)
    requires all.Valid()
    ensures sends == Handled(all.Members(), src, msg)
  {
    var p := SkipBlanks(msg);
    if p == |msg| {
      return Some([]);
    }
    p := SkipSpaces(msg);
    var t := msg[p..];
    if t[0] == '/' {
      var copy := all.CopyFds();
      var colon := FindColon(t);
      if colon == |t| {
        return None;
      }
      var target := Atoi(t[1..]);
      if !(IsDescriptor(target) && copy[target]) {
        return Some([Send(src, NO_TARGET)]);
      }
      return Some([Send(target, Message(src, t[colon + 1..]))]);
    } else {
      var all := MsgBroadcast(all, src, msg);
      return Some(all);
    }
  }

  function Spaces(k: nat): string {
    if k == 0 then "" else " " + Spaces(k - 1)
  }

  lemma {:induction false} TrimSpaces(k: nat, t: string)
    requires t != [] && t[0] != ' '
    ensures Trim(Spaces(k) + t) == t && !(AllBlank(Spaces(k) + t) && !IsBlank(t[0]))
  {
    if k == 0 {
    } else {
      assert (Spaces(k) + t)[1..] == Spaces(k - 1) + t;
      TrimSpaces(k - 1, t);
    }
    assert (Spaces(k) + t)[|Spaces(k)|] == t[0];
  }

  lemma {:induction false} ColonAfter(a: string, b: string)
    requires ':' !in a
    ensures ColonIn(a + ":" + b) == |a|
  {
    if a == [] {
    } else {
      assert (a + ":" + b)[1..] == a[1..] + ":" + b;
      ColonAfter(a[1..], b);
    }
  }

  // A line of blanks and line ends sends nothing at all.
  lemma {:induction false} BlankSendsNothing(fds: set<int>, src: nat, msg: string)
    requires forall i :: 0 <= i < |msg| ==> msg[i] == ' ' || msg[i] == '\r' || msg[i] == '\n'
    ensures Handled(fds, src, msg) == Some([])
  {}

  // When the sender, and nobody else, gets the notice: the line is a direct message whose number
  // is not in the set. When nothing can be said: it is one without a colon.
  lemma {:induction false} NoticeIff(fds: set<int>, src: nat, msg: string)
    requires exists i :: 0 <= i < |msg| && msg[i] != ' ' && msg[i] != '\r' && msg[i] != '\n'
    ensures var t := Trim(msg);
      && t != []
      && (Handled(fds, src, msg) == Some([Send(src, "No such target\n")]) <==> t[0] == '/' && ':' in t && Atoi(t[1..]) !in fds)
      && (Handled(fds, src, msg) == None <==> t[0] == '/' && ':' !in t)
  {
    var t := Trim(msg);
    assert !AllBlank(msg);
    assert t[..|t|] == t;
    assert ColonIn(t) < |t| <==> ':' in t;
    if t[0] != '/' {
      var sends := ToEach(Ascending(fds, FD_SETSIZE), Message(src, msg));
      assert |sends| == 1 ==> sends[0].text[0] == 'c';
    } else if ':' in t && Atoi(t[1..]) in fds {
      assert Message(src, t[ColonIn(t) + 1..])[0] == 'c';
    }
  }

  // A line addressed to descriptor n in decimal reaches exactly n, with everything after the
  // first colon as its text, if n is in the snapshot; else the sender, and nobody else, is told.
  lemma {:induction false} DirectRoundTrip(fds: set<int>, src: nat, k: nat, n: nat, text: string)
    ensures Handled(fds, src, Spaces(k) + "/" + Decimal(n) + ":" + text)
      == Some([if n in fds then Send(n, Message(src, text)) else Send(src, "No such target\n")])
  {
    var t := "/" + Decimal(n) + ":" + text;
    assert Spaces(k) + "/" + Decimal(n) + ":" + text == Spaces(k) + t;
    TrimSpaces(k, t);
    AddressRead(n, text);
  }

  lemma {:induction false} AddressRead(n: nat, text: string)
    ensures var t := "/" + Decimal(n) + ":" + text;
      ColonIn(t) < |t| && Atoi(t[1..]) == n && t[ColonIn(t) + 1..] == text
  {
    var head := "/" + Decimal(n);
    var t := head + ":" + text;
    assert forall i :: 0 <= i < |head| ==> head[i] != ':';
    ColonAfter(head, text);
    assert t[1..] == Decimal(n) + (":" + text);
    assert t[1..][0] == Decimal(n)[0];
    DigitsOfDecimal(n, ":" + text);
    assert t[|head| + 1..] == text;
  }

  // A line that is not blank and does not begin with a slash reaches each member of the
  // snapshot once, unchanged, and nobody else.
  lemma {:induction false} BroadcastRoundTrip(fds: set<int>, src: nat, msg: string)
    requires !AllBlank(msg) && Trim(msg)[0] != '/'
    ensures Handled(fds, src, msg).Some?
    ensures var sends := Handled(fds, src, msg).value;
      && (forall i, j :: 0 <= i < j < |sends| ==> sends[i].fd < sends[j].fd)
      && (forall fd :: Send(fd, Message(src, msg)) in sends <==> IsDescriptor(fd) && fd in fds)
      && (forall s :: s in sends ==> s.text == Message(src, msg))
  {
    var targets, text := Ascending(fds, FD_SETSIZE), Message(src, msg);
    var sends := ToEach(targets, text);
    AscendingExact(fds, FD_SETSIZE);
    forall fd ensures Send(fd, text) in sends <==> fd in targets {
      if fd in targets {
        var i :| 0 <= i < |targets| && targets[i] == fd;
        assert sends[i] == Send(fd, text);
      }
      if Send(fd, text) in sends {
        var i :| 0 <= i < |sends| && sends[i] == Send(fd, text);
        assert targets[i] == fd;
      }
    }
  }

  // Whatever the line, nothing is ever sent to anybody outside the snapshot but the notice to
  // the sender, and nobody gets more than one message.
  lemma {:induction false} SentToMembers(fds: set<int>, src: nat, msg: string)
    requires Handled(fds, src, msg).Some?
    ensures var sends := Handled(fds, src, msg).value;
      && (forall s :: s in sends ==> s.fd in fds || s == Send(src, "No such target\n"))
      && (forall i, j :: 0 <= i < j < |sends| ==> sends[i].fd != sends[j].fd)
  {
    AscendingExact(fds, FD_SETSIZE);
    if !AllBlank(msg) && Trim(msg)[0] != '/' {
      BroadcastRoundTrip(fds, src, msg);
      forall s | s in Handled(fds, src, msg).value ensures s.fd in fds {
        assert Send(s.fd, Message(src, msg)) == s;
      }
    }
  }
}
