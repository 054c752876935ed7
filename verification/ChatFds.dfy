/** The shared descriptor set of fds_manage.c: a bit for each descriptor, in an array that the
    calls change in place. */
module ChatFds {
  import opened Basics
  import opened ChatServer

  // The members of a descriptor set below n, in ascending order.
  function Ascending(fds: set<int>, n: nat): (r: seq<int>) {
    if n == 0 then [] else Ascending(fds, n - 1) + if n - 1 in fds then [n - 1] else []
  }

  // Each member below n occurs, at one place only, and nothing else does.
  lemma {:induction false} AscendingExact(fds: set<int>, n: nat)
    ensures forall i, j :: 0 <= i < j < |Ascending(fds, n)| ==> Ascending(fds, n)[i] < Ascending(fds, n)[j]
    ensures forall fd :: fd in Ascending(fds, n) <==> 0 <= fd < n && fd in fds
  {
    if n == 0 {
    } else {
      AscendingExact(fds, n - 1);
      var r := Ascending(fds, n - 1);
      forall i | 0 <= i < |r| ensures r[i] < n - 1 {
        assert r[i] in r;
      }
    }
  }

  predicate IsDescriptor(fd: int) {
    0 <= fd < FD_SETSIZE
  }

  ghost function MembersOf(bits: seq<bool>): (fds: set<int>) {
    set fd | 0 <= fd < |bits| && bits[fd]
  }

  class FdSet {
    const bits: array<bool>

    ghost predicate Valid() {
      bits.Length == FD_SETSIZE
    }

    ghost function Members(): set<int>
      reads bits
    {
      MembersOf(bits[..])
    }

    // fdsInit
    constructor ()
      ensures Valid() && fresh(bits) && Members() == {}
    {
      bits := new bool[FD_SETSIZE](_ => false);
    }

    method AddUser(sockfd: int)
      requires Valid() && IsDescriptor(sockfd)
      modifies bits
      ensures Members() == old(Members()) + {sockfd}
    {
      bits[sockfd] := true;
    }

    method DelUser(sockfd: int)
      requires Valid() && IsDescriptor(sockfd)
      modifies bits
      ensures Members() == old(Members()) - {sockfd}
    {
      bits[sockfd] := false;
    }

    method CopyFds() returns (target: array<bool>)
      requires Valid()
      ensures fresh(target) && target[..] == bits[..]
    {
      target := new bool[FD_SETSIZE](_ => false);
      for i := 0 to FD_SETSIZE
        invariant target[..i] == bits[..i]
      {
        target[i] := bits[i];
      }
      assert target[..] == target[..FD_SETSIZE] && bits[..] == bits[..FD_SETSIZE];
    }
  }
}
