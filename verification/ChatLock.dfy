/** Why the calls on the shared descriptor set count as single steps: any number of threads,
    each of whose calls locks the mutex, works on the words of the set one access at a time, and
    unlocks it again. */
module ChatLock {
  import opened Basics
  import opened ChatServer

  const WORD := 64
  const WORDS := FD_SETSIZE / WORD

  datatype Call = Add(fd: int) | Del(fd: int) | Copy

  // The descriptors whose bits are set in one word.
  type Word = set<int>

  // What a thread does next: reg is the word it has loaded, words the part it has copied.
  datatype Pc = Idle | AtLoad(call: Call) | AtStore(call: Call, reg: Word) | Copying(words: seq<Word>) | AtUnlock(call: Call, words: seq<Word>)

  // A call that has returned; for Copy, copied is what it has copied.
  datatype Done = Done(call: Call, copied: set<int>)

  datatype Sys = Sys(words: seq<Word>, owner: Option<nat>, threads: seq<Pc>, log: seq<Done>)

  datatype Action = Lock(t: nat, call: Call) | Go(t: nat)

  ghost function Union(words: seq<Word>): set<int> {
    set w, fd | 0 <= w < |words| && fd in words[w] :: fd
  }

  predicate IsCall(c: Call) {
    c.Copy? || 0 <= c.fd < FD_SETSIZE
  }

  ghost predicate Init(s: Sys) {
    && |s.words| == WORDS && (forall w :: 0 <= w < WORDS ==> s.words[w] == {})
    && s.owner == None && (forall t :: 0 <= t < |s.threads| ==> s.threads[t] == Idle) && s.log == []
  }

  predicate Enabled(s: Sys, a: Action) {
    match a
    case Lock(t, c) => t < |s.threads| && s.threads[t] == Idle && s.owner == None && IsCall(c)
    case Go(t) => t < |s.threads| && |s.words| == WORDS && match s.threads[t]
      case Idle => false
      case AtLoad(c) => !c.Copy? && IsCall(c)
      case AtStore(c, _) => !c.Copy? && IsCall(c)
      case Copying(ws) => |ws| < WORDS
      case AtUnlock(_, _) => true
  }

  function Apply(c: Call, fds: set<int>): set<int> {
    match c case Add(fd) => fds + {fd} case Del(fd) => fds - {fd} case Copy => fds
  }

  ghost function Step(s: Sys, a: Action): Sys
    requires Enabled(s, a)
  {
    match a
    case Lock(t, c) => s.(owner := Some(t), threads := s.threads[t := if c.Copy? then Copying([]) else AtLoad(c)])
    case Go(t) =>
      match s.threads[t]
      case AtLoad(c) => s.(threads := s.threads[t := AtStore(c, s.words[c.fd / WORD])])
      case AtStore(c, reg) => s.(words := s.words[c.fd / WORD := Apply(c, reg)], threads := s.threads[t := AtUnlock(c, [])])
      case Copying(ws) =>
        var more := ws + [s.words[|ws|]];
        s.(threads := s.threads[t := if |more| == WORDS then AtUnlock(Copy, more) else Copying(more)])
      case AtUnlock(c, ws) => s.(owner := None, threads := s.threads[t := Idle], log := s.log + [Done(c, Union(ws))])
  }

  ghost predicate IsRun(trace: seq<Sys>, acts: seq<Action>) {
    && |trace| == |acts| + 1
    && Init(trace[0])
    && forall i :: 0 <= i < |acts| ==> Enabled(trace[i], acts[i]) && trace[i + 1] == Step(trace[i], acts[i])
  }

  // The set after calls that happen one at a time.
  function After(log: seq<Done>): set<int> {
    if log == [] then {} else Apply(log[|log| - 1].call, After(log[..|log| - 1]))
  }

  // Each bit is in its own word.
  ghost predicate InPlace(words: seq<Word>) {
    |words| == WORDS && forall w, fd :: 0 <= w < WORDS && fd in words[w] ==> fd / WORD == w
  }

  ghost predicate CopiesRight(log: seq<Done>) {
    forall k :: 0 <= k < |log| && log[k].call.Copy? ==> log[k].copied == After(log[..k])
  }

  // What the owner of the mutex has done so far to a set that began as fds.
  ghost predicate Underway(words: seq<Word>, pc: Pc, fds: set<int>)
    requires |words| == WORDS
  {
    match pc
    case Idle => false
    case AtLoad(c) => !c.Copy? && IsCall(c) && Union(words) == fds
    case AtStore(c, reg) => !c.Copy? && IsCall(c) && Union(words) == fds && reg == words[c.fd / WORD]
    case Copying(ws) => |ws| < WORDS && ws == words[..|ws|] && Union(words) == fds
    case AtUnlock(c, ws) => Union(words) == Apply(c, fds) && (c.Copy? ==> ws == words)
  }

  ghost predicate Inv(s: Sys) {
    && InPlace(s.words) && CopiesRight(s.log)
    && (forall t :: 0 <= t < |s.threads| && s.threads[t] != Idle ==> s.owner == Some(t))
    && (match s.owner
        case None => Union(s.words) == After(s.log)
        case Some(t) => t < |s.threads| && Underway(s.words, s.threads[t], After(s.log)))
  }

  lemma {:induction false} InWord(words: seq<Word>, fd: int)
    requires InPlace(words)
    ensures fd in Union(words) <==> 0 <= fd / WORD < WORDS && fd in words[fd / WORD]
  {}

  // The store of one word changes one member.
  lemma {:induction false} StoreExact(words: seq<Word>, c: Call)
    requires InPlace(words) && IsCall(c) && !c.Copy?
    ensures var words' := words[c.fd / WORD := Apply(c, words[c.fd / WORD])];
      InPlace(words') && Union(words') == Apply(c, Union(words))
  {
    var w := c.fd / WORD;
    var words' := words[w := Apply(c, words[w])];
    forall fd ensures fd in Union(words') <==> fd in Apply(c, Union(words)) {
      InWord(words, fd);
      InWord(words', fd);
    }
  }

  // What the mutex is for: the store writes back what was loaded, so a member that was set in the
  // same word since would be lost.
  lemma {:induction false} StaleStore(s: Sys, t: nat, fd: int, other: int)
    requires t < |s.threads| && s.threads[t].AtStore? && s.threads[t].call == Add(fd) && Enabled(s, Go(t))
    requires other in s.words[fd / WORD] && other !in s.threads[t].reg && other != fd
    ensures fd in Step(s, Go(t)).words[fd / WORD] && other !in Step(s, Go(t)).words[fd / WORD]
  {}

  lemma {:induction false} LogGrows(log: seq<Done>, d: Done)
    requires CopiesRight(log) && (d.call.Copy? ==> d.copied == After(log))
    ensures CopiesRight(log + [d]) && After(log + [d]) == Apply(d.call, After(log))
  {
    var log' := log + [d];
    assert log'[..|log|] == log;
    forall k | 0 <= k < |log'| && log'[k].call.Copy? ensures log'[k].copied == After(log'[..k]) {
      if k < |log| {
        assert log'[..k] == log[..k];
      }
    }
  }

  lemma {:induction false} StepInv(s: Sys, a: Action)
    requires Inv(s) && Enabled(s, a)
    ensures Inv(Step(s, a))
  {
    match a
    case Lock(t, c) =>
    case Go(t) =>
      match s.threads[t]
      case AtLoad(c) =>
      case AtStore(c, reg) => StoreExact(s.words, c);
      case Copying(ws) => assert s.words[..|ws| + 1] == ws + [s.words[|ws|]]; assert s.words[..WORDS] == s.words;
      case AtUnlock(c, ws) => LogGrows(s.log, Done(c, Union(ws)));
  }

  lemma {:induction false} RunInv(trace: seq<Sys>, acts: seq<Action>, i: nat)
    requires IsRun(trace, acts) && i < |trace|
    ensures Inv(trace[i])
  {
    if i == 0 {
      assert Union(trace[0].words) == {};
    } else {
      var j := i - 1;
      RunInv(trace, acts, j);
      StepInv(trace[j], acts[j]);
    }
  }

  // Every run is equivalent to one in which the calls happen one at a time, in the order in
  // which they unlock the mutex: whenever it is free the set is what those calls make of it,
  // and each copy is the whole set at one instant, though it is taken word by word.
  lemma {:induction false} CallsAreAtomic(trace: seq<Sys>, acts: seq<Action>, i: nat)
    requires IsRun(trace, acts) && i < |trace|
    ensures trace[i].owner == None ==> Union(trace[i].words) == After(trace[i].log)
    ensures forall k :: 0 <= k < |trace[i].log| && trace[i].log[k].call.Copy? ==>
      trace[i].log[k].copied == After(trace[i].log[..k])
  {
    RunInv(trace, acts, i);
  }
}
