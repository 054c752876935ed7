/** Reachability in a state machine given by its steps. */
module Runs {

  ghost predicate IsPath<S(!new), A(!new)>(next: (S, A, S) -> bool, trace: seq<S>, acts: seq<A>) {
    |trace| == |acts| + 1 && forall i :: 0 <= i < |acts| ==> next(trace[i], acts[i], trace[i + 1])
  }

  ghost predicate Reaches<S(!new), A(!new)>(next: (S, A, S) -> bool, s: S, t: S) {
    exists trace: seq<S>, acts: seq<A> :: IsPath(next, trace, acts) && trace[0] == s && trace[|acts|] == t
  }

  lemma {:induction false} ReachesSelf<S(!new), A(!new)>(next: (S, A, S) -> bool, s: S)
    ensures Reaches<S, A>(next, s, s)
  {
    var trace: seq<S>, acts: seq<A> := [s], [];
    assert IsPath(next, trace, acts) && trace[0] == s && trace[|acts|] == s;
  }

  lemma {:induction false} ReachesStep<S(!new), A(!new)>(next: (S, A, S) -> bool, s: S, t: S, a: A, u: S)
    requires Reaches<S, A>(next, s, t) && next(t, a, u)
    ensures Reaches<S, A>(next, s, u)
  {
    var trace: seq<S>, acts: seq<A> :| IsPath(next, trace, acts) && trace[0] == s && trace[|acts|] == t;
    var trace', acts' := trace + [u], acts + [a];
    assert IsPath(next, trace', acts') && trace'[|acts'|] == u;
  }
}
