/** Any number of ticket windows draining a counting semaphore of any size: sem_trywait takes a
    ticket, and a separate sem_getvalue decides the number shown. */
module TicketWindows {
  import opened Basics

  // AtGet carries the rank of the window's last successful trywait, Serving that rank and the
  // number shown.
  datatype Window = AtTry | AtGet(rank: nat) | Serving(rank: nat, shown: int) | Closed

  // shown records history: the number shown to the customer of each rank.
  datatype Sys = Sys(value: nat, windows: seq<Window>, taken: nat, shown: map<nat, int>, served: nat)

  ghost predicate Init(s: Sys, tickets: nat) {
    && s.value == tickets && s.taken == 0 && s.shown == map[] && s.served == 0
    && forall w :: 0 <= w < |s.windows| ==> s.windows[w] == AtTry
  }

  predicate Enabled(s: Sys, w: nat) {
    w < |s.windows| && !s.windows[w].Closed?
  }

  function Step(s: Sys, w: nat, tickets: nat): Sys
    requires Enabled(s, w)
  {
    match s.windows[w]
    case AtTry =>
      if s.value == 0 then s.(windows := s.windows[w := Closed])
      else Sys(s.value - 1, s.windows[w := AtGet(s.taken + 1)], s.taken + 1, s.shown, s.served)
    case AtGet(rank) =>
      var shown := tickets - s.value;
      s.(windows := s.windows[w := Serving(rank, shown)], shown := s.shown[rank := shown])
    case Serving(_, _) => s.(windows := s.windows[w := AtTry], served := s.served + 1)
  }

  ghost predicate IsRun(trace: seq<Sys>, schedule: seq<nat>, tickets: nat) {
    && |trace| == |schedule| + 1
    && Init(trace[0], tickets)
    && forall k :: 0 <= k < |schedule| ==> Enabled(trace[k], schedule[k]) && trace[k + 1] == Step(trace[k], schedule[k], tickets)
  }

  // The windows with a customer, and the steps that the windows owe before their next trywait.
  function Busy(ws: seq<Window>): nat {
    if ws == [] then 0 else Busy(ws[..|ws| - 1]) + One(ws[|ws| - 1].AtGet? || ws[|ws| - 1].Serving?)
  }

  function Owed(w: Window): nat {
    match w case AtTry => 1 case AtGet(_) => 3 case Serving(_, _) => 2 case Closed => 0
  }

  function AllOwed(ws: seq<Window>): nat {
    if ws == [] then 0 else AllOwed(ws[..|ws| - 1]) + Owed(ws[|ws| - 1])
  }

  lemma {:induction false} Update(ws: seq<Window>, w: nat, x: Window)
    requires w < |ws|
    ensures Busy(ws[w := x]) + One(ws[w].AtGet? || ws[w].Serving?) == Busy(ws) + One(x.AtGet? || x.Serving?)
    ensures AllOwed(ws[w := x]) + Owed(ws[w]) == AllOwed(ws) + Owed(x)
  {
    var n := |ws| - 1;
    if w < n {
      Update(ws[..n], w, x);
      assert ws[w := x][..n] == ws[..n][w := x];
    } else {
      assert ws[w := x][..n] == ws[..n];
    }
  }

  // Tickets: each is left, being served or served; no window closes while one is left.
  ghost predicate Counts(s: Sys, tickets: nat) {
    && s.value + s.taken == tickets
    && s.served + Busy(s.windows) == s.taken
    && (s.value > 0 ==> forall w :: 0 <= w < |s.windows| ==> !s.windows[w].Closed?)
  }

  // Numbers: each customer is shown one, at least the customer's own rank.
  ghost predicate Numbers(s: Sys, tickets: nat) {
    && s.value + s.taken == tickets
    && (forall r :: r in s.shown ==> 1 <= r <= s.shown[r] <= s.taken)
    && (forall w :: 0 <= w < |s.windows| && s.windows[w].AtGet? ==> 1 <= s.windows[w].rank <= s.taken)
    && (forall w :: 0 <= w < |s.windows| && s.windows[w].Serving? ==>
         s.windows[w].rank in s.shown && s.shown[s.windows[w].rank] == s.windows[w].shown)
  }

  // Ranks: a customer without a number is at exactly one window.
  ghost predicate Ranks(s: Sys) {
    && (forall w :: 0 <= w < |s.windows| && s.windows[w].AtGet? ==> s.windows[w].rank !in s.shown && s.windows[w].rank <= s.taken)
    && (forall v, w :: 0 <= v < w < |s.windows| && s.windows[v].AtGet? && s.windows[w].AtGet? ==>
         s.windows[v].rank != s.windows[w].rank)
    && (forall r :: r in s.shown ==> r <= s.taken)
    && (forall r :: 1 <= r <= s.taken && r !in s.shown ==> AtGet(r) in s.windows)
  }

  // Each ticket still costs three steps and each window's last trywait one.
  function Potential(s: Sys): nat {
    3 * s.value + AllOwed(s.windows)
  }

  lemma {:induction false} StepCounts(s: Sys, w: nat, tickets: nat)
    requires Counts(s, tickets) && Enabled(s, w)
    ensures Counts(Step(s, w, tickets), tickets)
    ensures Potential(Step(s, w, tickets)) == Potential(s) - 1
  {
    Update(s.windows, w, Step(s, w, tickets).windows[w]);
  }

  lemma {:induction false} StepNumbers(s: Sys, w: nat, tickets: nat)
    requires Numbers(s, tickets) && Ranks(s) && Enabled(s, w)
    ensures Numbers(Step(s, w, tickets), tickets)
  {}

  lemma {:induction false} StepRanks(s: Sys, w: nat, tickets: nat)
    requires Ranks(s) && Enabled(s, w)
    ensures Ranks(Step(s, w, tickets))
  {
    var s' := Step(s, w, tickets);
    forall r | 1 <= r <= s'.taken && r !in s'.shown ensures AtGet(r) in s'.windows {
      if r <= s.taken {
        var v :| 0 <= v < |s.windows| && s.windows[v] == AtGet(r);
        assert s'.windows[v] == AtGet(r);
      } else {
        assert s'.windows[w] == AtGet(r);
      }
    }
  }

  lemma {:induction false} AllAtTry(ws: seq<Window>)
    requires forall w :: 0 <= w < |ws| ==> ws[w] == AtTry
    ensures Busy(ws) == 0 && AllOwed(ws) == |ws|
  {
    if ws == [] {
    } else {
      AllAtTry(ws[..|ws| - 1]);
    }
  }

  lemma {:induction false} RunInv(trace: seq<Sys>, schedule: seq<nat>, tickets: nat, k: nat)
    requires IsRun(trace, schedule, tickets) && k < |trace|
    ensures Counts(trace[k], tickets) && Numbers(trace[k], tickets) && Ranks(trace[k])
    ensures |trace[k].windows| == |trace[0].windows|
    ensures Potential(trace[k]) + k == 3 * tickets + |trace[0].windows|
  {
    if k == 0 {
      AllAtTry(trace[0].windows);
    } else {
      var j := k - 1;
      RunInv(trace, schedule, tickets, j);
      StepCounts(trace[j], schedule[j], tickets);
      StepNumbers(trace[j], schedule[j], tickets);
      StepRanks(trace[j], schedule[j], tickets);
    }
  }

  lemma {:induction false} NothingOwed(ws: seq<Window>)
    ensures AllOwed(ws) == 0 <==> forall w :: 0 <= w < |ws| ==> ws[w].Closed?
    ensures AllOwed(ws) == 0 ==> Busy(ws) == 0
  {
    if ws == [] {
    } else {
      NothingOwed(ws[..|ws| - 1]);
      assert forall w :: 0 <= w < |ws| - 1 ==> ws[..|ws| - 1][w] == ws[w];
    }
  }

  // Every run, with any positive number of windows, stops after exactly 3 steps for each ticket
  // and one for each window, and every ticket has then been taken and served exactly once.
  lemma {:induction false} EveryTicketServed(trace: seq<Sys>, schedule: seq<nat>, tickets: nat)
    requires IsRun(trace, schedule, tickets)
    requires |trace[0].windows| > 0
    ensures |schedule| <= 3 * tickets + |trace[0].windows|
    ensures (forall w: nat :: !Enabled(trace[|schedule|], w)) <==> |schedule| == 3 * tickets + |trace[0].windows|
    ensures |schedule| == 3 * tickets + |trace[0].windows| ==> trace[|schedule|].served == trace[|schedule|].taken == tickets
  {
    var s := trace[|schedule|];
    RunInv(trace, schedule, tickets, |schedule|);
    NothingOwed(s.windows);
    if forall w: nat :: !Enabled(s, w) {
      forall w: nat | w < |s.windows| ensures s.windows[w].Closed? {
        assert !Enabled(s, w);
      }
      assert s.windows[0].Closed?;
    }
  }

  // The number shown to the r-th customer lies in r..N, although another window's trywait may
  // come between this one's trywait and getvalue.
  lemma {:induction false} ShownInRange(trace: seq<Sys>, schedule: seq<nat>, tickets: nat, k: nat, r: nat)
    requires IsRun(trace, schedule, tickets) && k < |trace| && r in trace[k].shown
    ensures 1 <= r <= trace[k].taken <= tickets
    ensures r <= trace[k].shown[r] <= tickets
    ensures trace[k].shown[r] <= trace[k].taken
  {
    RunInv(trace, schedule, tickets, k);
  }

  // Exactly which number it is: the tickets taken when the window makes its getvalue call.
  lemma {:induction false} ShownIsTaken(trace: seq<Sys>, schedule: seq<nat>, tickets: nat, k: nat)
    requires IsRun(trace, schedule, tickets) && k < |schedule| && trace[k].windows[schedule[k]].AtGet?
    ensures var r := trace[k].windows[schedule[k]].rank;
      r !in trace[k].shown && trace[k + 1].shown == trace[k].shown[r := trace[k].taken] && r <= trace[k].taken
  {
    RunInv(trace, schedule, tickets, k);
  }

  // A single window serves its customers by rank, and shows each of them that.
  lemma {:induction false} OneWindow(trace: seq<Sys>, schedule: seq<nat>, tickets: nat, k: nat)
    requires IsRun(trace, schedule, tickets) && k < |trace| && |trace[0].windows| == 1
    ensures |trace[k].windows| == 1 && (trace[k].windows[0].AtGet? ==> trace[k].windows[0].rank == trace[k].taken)
    ensures forall r :: r in trace[k].shown ==> trace[k].shown[r] == r
  {
    if k == 0 {
    } else {
      var j := k - 1;
      OneWindow(trace, schedule, tickets, j);
      RunInv(trace, schedule, tickets, j);
    }
  }

  lemma {:induction false} AtMost(ranks: set<nat>, n: nat)
    requires forall r :: r in ranks ==> 1 <= r <= n
    ensures |ranks| <= n
  {
    if n == 0 {
    } else {
      AtMost(ranks - {n}, n - 1);
      assert ranks <= (ranks - {n}) + {n};
    }
  }

  ghost function ShownUpTo(s: Sys, n: int): set<nat> {
    set r | r in s.shown && s.shown[r] <= n
  }

  // Hence for every n, at most n customers are shown a number up to n.
  lemma {:induction false} FewSmallNumbers(trace: seq<Sys>, schedule: seq<nat>, tickets: nat, k: nat, n: nat)
    requires IsRun(trace, schedule, tickets) && k < |trace|
    ensures |ShownUpTo(trace[k], n)| <= n
  {
    RunInv(trace, schedule, tickets, k);
    AtMost(ShownUpTo(trace[k], n), n);
  }
}
