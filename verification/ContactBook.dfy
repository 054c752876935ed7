/** The contact book on the heap: a singly linked list behind a head node, relinked in place,
    and written to and rebuilt from its data file. */
module ContactBook {
  import opened Basics
  import opened ContactOrder

  // Only next is ever changed once a node has been filled in.
  class Node {
    const name: Text
    const phone: Text
    var next: Node?

    constructor (name: Text, phone: Text, next: Node?)
      ensures this.name == name && this.phone == phone && this.next == next
    {
      this.name, this.phone, this.next := name, phone, next;
    }
  }

  // One record of the data file: the whole struct, with whatever its next pointer held.
  datatype Record = Record(name: Text, phone: Text, next: Node?)

  function Stored(rs: seq<Record>): (s: seq<Contact>)
    ensures |s| == |rs|
  {
    seq(|rs|, i requires 0 <= i < |rs| => Contact(rs[i].name, rs[i].phone))
  }

  // The contacts in a sequence of nodes; it does not depend on how they are linked.
  ghost function Data(ns: seq<Node>): (s: seq<Contact>)
    ensures |s| == |ns|
    ensures forall i :: 0 <= i < |ns| ==> s[i] == Contact(ns[i].name, ns[i].phone)
  {
    if ns == [] then [] else Data(ns[..|ns| - 1]) + [Contact(ns[|ns| - 1].name, ns[|ns| - 1].phone)]
  }

  // Each node points to the next one and the last to nothing.
  ghost predicate Linked(ns: seq<Node>)
    reads (set n: Node | n in ns)`next
  {
    && |ns| > 0
    && (forall i {:trigger ns[i].next} :: 0 <= i < |ns| - 1 ==> ns[i].next == ns[i + 1])
    && ns[|ns| - 1].next == null
  }

  ghost predicate Distinct(ns: seq<Node>) {
    forall i, j :: 0 <= i < j < |ns| ==> ns[i] != ns[j]
  }

  // The chain more has one node more than the chain ns, behind node k; the others are the same
  // nodes in the same order.
  ghost predicate OneAdded(ns: seq<Node>, more: seq<Node>, k: nat) {
    k < |ns| && k + 1 < |more| && ns == more[..k + 1] + more[k + 2..]
  }

  lemma {:induction false} SpliceNodes(ns: seq<Node>, node: Node, k: nat)
    requires k < |ns| && Distinct(ns) && node !in ns
    ensures var t := ns[..k + 1] + [node] + ns[k + 1..];
      Distinct(t) && t[0] == ns[0] && OneAdded(ns, t, k) && t[k + 1] == node && forall n :: n in t ==> n in ns || n == node
  {}

  lemma {:induction false} DataAppend(a: seq<Node>, b: seq<Node>)
    ensures Data(a + b) == Data(a) + Data(b)
  {
    assert forall i :: 0 <= i < |a + b| ==> (a + b)[i] == if i < |a| then a[i] else b[i - |a|];
  }

  lemma {:induction false} DataSplit(ns: seq<Node>, k: nat)
    requires k <= |ns|
    ensures Data(ns[..k]) == Data(ns)[..k] && Data(ns[k..]) == Data(ns)[k..]
  {}

  lemma {:induction false} SpliceData(ns: seq<Node>, node: Node, k: nat)
    requires |ns| > 0 && k == Position(Data(ns[1..]), node.name) && node.name != EXIT
    ensures Data((ns[..k + 1] + [node] + ns[k + 1..])[1..]) == Insert(Data(ns[1..]), Contact(node.name, node.phone))
  {
    var rest := ns[1..];
    assert (ns[..k + 1] + [node] + ns[k + 1..])[1..] == rest[..k] + [node] + rest[k..];
    DataWith(rest, node, k);
  }

  lemma {:induction false} DataWith(rest: seq<Node>, node: Node, k: nat)
    requires k <= |rest|
    ensures Data(rest[..k] + [node] + rest[k..]) == With(Data(rest), Contact(node.name, node.phone), k)
  {
    DataAppend(rest[..k] + [node], rest[k..]);
    DataAppend(rest[..k], [node]);
    DataSplit(rest, k);
    assert Data([node]) == [Contact(node.name, node.phone)];
  }

  lemma {:induction false} CutNodes(ns: seq<Node>, k: nat)
    requires k + 1 < |ns| && Distinct(ns)
    ensures var t := ns[..k + 1] + ns[k + 2..];
      Distinct(t) && t[0] == ns[0] && OneAdded(t, ns, k) && forall n :: n in t ==> n in ns && n != ns[k + 1]
  {}

  lemma {:induction false} CutData(ns: seq<Node>, name: Text, k: nat)
    requires |ns| > 0 && k == Find(Data(ns[1..]), name) < |ns| - 1
    ensures Data((ns[..k + 1] + ns[k + 2..])[1..]) == Delete(Data(ns[1..]), name)
  {
    var rest := ns[1..];
    assert (ns[..k + 1] + ns[k + 2..])[1..] == rest[..k] + rest[k + 1..];
    DataAppend(rest[..k], rest[k + 1..]);
    DataSplit(rest, k);
    DataSplit(rest, k + 1);
  }

  // The relinking of insertNode.
  method LinkAfter(p2: Node, node: Node, p1: Node?, ghost ns: seq<Node>, ghost k: nat)
    requires Linked(ns) && Distinct(ns) && k < |ns| && p2 == ns[k] && p1 == p2.next && node !in ns
    modifies p2`next, node`next
    ensures Linked(ns[..k + 1] + [node] + ns[k + 1..])
  {
    p2.next := node;
    node.next := p1;
    ghost var t := ns[..k + 1] + [node] + ns[k + 1..];
    forall i | 0 <= i < |t| - 1 ensures t[i].next == t[i + 1] {
      if i > k + 1 { assert t[i] == ns[i - 1] && ns[i - 1].next == ns[i]; }
    }
  }

  // The relinking of deleteNode.
  method UnlinkAfter(p2: Node, p1: Node, ghost ns: seq<Node>, ghost k: nat)
    requires Linked(ns) && Distinct(ns) && k + 1 < |ns| && p2 == ns[k] && p1 == ns[k + 1]
    modifies p2`next
    ensures Linked(ns[..k + 1] + ns[k + 2..])
  {
    p2.next := p1.next;
    ghost var t := ns[..k + 1] + ns[k + 2..];
    forall i | 0 <= i < |t| - 1 ensures t[i].next == t[i + 1] {
      if i > k { assert t[i] == ns[i + 1] && ns[i + 1].next == ns[i + 2]; }
    }
  }

  class List {
    var head: Node
    // The nodes from the head on, the nodes that free has been called for, and every node the
    // list has ever owned.
    ghost var nodes: seq<Node>
    ghost var freed: seq<Node>
    ghost var repr: set<Node>

    // A chain from the head to a null pointer through distinct nodes.
    ghost predicate Chain()
      reads this`head, this`nodes, nodes
    {
      Distinct(nodes) && Linked(nodes) && nodes[0] == head && head.name == HEAD_NODE
    }

    // None of the nodes in the chain has been freed.
    ghost predicate Valid()
      reads this, nodes
    {
      Chain() && forall n :: n in nodes ==> n in repr && n !in freed
    }

    // The book: what the nodes behind the head hold.
    ghost function Contacts(): (s: seq<Contact>)
      requires |nodes| > 0
      reads this`nodes
      ensures |s| == |nodes| - 1
    {
      Data(nodes[1..])
    }

    // linkListInit, once the file is open. Each record is copied with its stale pointer, which
    // the next iteration, or the end of the loop, overwrites.
    constructor LinkListInit(file: seq<Record>)
      ensures Valid() && freed == [] && fresh(repr)
      ensures Contacts() == Stored(file)
    {
      var h := new Node(HEAD_NODE, [], null);
      head := h;
      nodes, freed, repr := [h], [], {h};
      new;
      var p := h;
      for k := 0 to |file|
        invariant |nodes| == k + 1 && nodes[0] == head == h && p == nodes[k] && h.name == HEAD_NODE
        invariant freed == [] && fresh(repr) && p in repr && forall n :: n in nodes ==> n in repr
        invariant Distinct(nodes)
        invariant forall i :: 0 <= i < k ==> nodes[i].next == nodes[i + 1]
        invariant forall i :: 0 <= i < k ==> nodes[i + 1].name == file[i].name && nodes[i + 1].phone == file[i].phone
      {
        var node := new Node(file[k].name, file[k].phone, file[k].next);
        p.next := node;
        p := p.next;
        nodes, repr := nodes + [node], repr + {node};
      }
      p.next := null;
    }

    // The search of insertNode: the last node that is not greater, and what follows it.
    method Place(name: Text) returns (p2: Node, p1: Node?, ghost k: nat)
      requires Valid()
      ensures k == Position(Contacts(), name) && k < |nodes| && p2 == nodes[k] && p1 == p2.next
    {
      p1, p2, k := head, head, 0;
      while p1.next != null
        invariant 0 <= k < |nodes| && p1 == nodes[k]
        invariant forall j :: 0 <= j < k ==> NameCmp(Contacts()[j].name, name) <= 0
        decreases |nodes| - k
      {
        p2 := p1;
        p1 := p1.next;
        var r := CompareNames(p1.name, name);
        if r > 0 {
          PositionIs(Contacts(), name, k);
          return;
        }
        k := k + 1;
      }
      PositionIs(Contacts(), name, k);
      p2, p1 := p1, null;
    }

    // insertNode, from the point where name and number have been read.
    method InsertNode(name: Text, phone: Text)
      requires Valid()
      modifies this`nodes, this`repr, repr
      ensures Valid() && head == old(head) && freed == old(freed) && fresh(repr - old(repr))
      ensures Contacts() == Insert(old(Contacts()), Contact(name, phone))
      ensures if name == EXIT then nodes == old(nodes) else OneAdded(old(nodes), nodes, Position(old(Contacts()), name))
      ensures name != EXIT ==> fresh(nodes[Position(old(Contacts()), name) + 1])
    {
      if name == EXIT {
        return;
      }
      AddNode(name, phone);
    }

    method AddNode(name: Text, phone: Text)
      requires Valid() && name != EXIT
      modifies this`nodes, this`repr, repr
      ensures Valid() && head == old(head) && freed == old(freed) && fresh(repr - old(repr))
      ensures Contacts() == Insert(old(Contacts()), Contact(name, phone))
      ensures OneAdded(old(nodes), nodes, Position(old(Contacts()), name))
      ensures fresh(nodes[Position(old(Contacts()), name) + 1])
    {
      var node := new Node(name, phone, null);
      var p2, p1, k := Place(name);
      LinkIn(p2, node, p1, k);
    }

    method LinkIn(p2: Node, node: Node, p1: Node?, ghost k: nat)
      requires Valid() && node !in nodes && node !in freed && node.name != EXIT
      requires k == Position(Contacts(), node.name) < |nodes| && p2 == nodes[k] && p1 == p2.next
      modifies this`nodes, this`repr, p2`next, node`next
      ensures Valid() && head == old(head) && freed == old(freed) && repr == old(repr) + {node}
      ensures Contacts() == Insert(old(Contacts()), Contact(node.name, node.phone))
      ensures OneAdded(old(nodes), nodes, k) && nodes[k + 1] == node
    {
      LinkAfter(p2, node, p1, nodes, k);
      Adopt(node, k);
    }

    // The chain but for its links, which a relinking has just changed.
    ghost predicate Shape()
      reads this
    {
      |nodes| > 0 && Distinct(nodes) && nodes[0] == head && head.name == HEAD_NODE
      && forall n :: n in nodes ==> n in repr && n !in freed
    }

    // The ghost side of the two relinkings.
    ghost method Adopt(node: Node, k: nat)
      requires Shape() && node !in nodes && node !in freed && node.name != EXIT
      requires k == Position(Contacts(), node.name) < |nodes| && Linked(nodes[..k + 1] + [node] + nodes[k + 1..])
      modifies this`nodes, this`repr
      ensures Valid() && repr == old(repr) + {node}
      ensures Contacts() == Insert(old(Contacts()), Contact(node.name, node.phone))
      ensures OneAdded(old(nodes), nodes, k) && nodes[k + 1] == node
    {
      SpliceNodes(nodes, node, k);
      SpliceData(nodes, node, k);
      nodes, repr := nodes[..k + 1] + [node] + nodes[k + 1..], repr + {node};
    }

    ghost method Drop(name: Text, k: nat)
      requires Shape() && k == Find(Contacts(), name) < |nodes| - 1 && Linked(nodes[..k + 1] + nodes[k + 2..])
      modifies this`nodes, this`freed
      ensures Valid() && freed == old(freed) + [old(nodes)[k + 1]]
      ensures Contacts() == Delete(old(Contacts()), name)
      ensures OneAdded(nodes, old(nodes), k)
    {
      var p1, t := nodes[k + 1], nodes[..k + 1] + nodes[k + 2..];
      CutNodes(nodes, k);
      CutData(nodes, name, k);
      assert p1 in nodes;
      ghost var before := freed;
      Free(p1);
      nodes := t;
      assert forall n :: n in t ==> n !in before + [p1];
    }

    // free: only for a node of this list that has not been freed.
    ghost method Free(n: Node)
      requires n !in freed
      modifies this`freed
      ensures freed == old(freed) + [n]
    {
      freed := freed + [n];
    }

    method RemoveNode(p2: Node, p1: Node, ghost name: Text, ghost k: nat)
      requires Valid() && k == Find(Contacts(), name) < |nodes| - 1 && p2 == nodes[k] && p1 == nodes[k + 1]
      modifies this`nodes, this`freed, p2
      ensures Valid() && head == old(head) && freed == old(freed) + [p1]
      ensures Contacts() == Delete(old(Contacts()), name)
      ensures OneAdded(nodes, old(nodes), k)
    {
      UnlinkAfter(p2, p1, nodes, k);
      Drop(name, k);
    }

    // deleteNode; found is false where the program prints that the target was not found.
    method DeleteNode(name: Text) returns (found: bool)
      requires Valid()
      modifies this`nodes, this`freed, repr
      ensures Valid() && head == old(head)
      ensures Contacts() == Delete(old(Contacts()), name)
      ensures found <==> Find(old(Contacts()), name) < |old(Contacts())|
      ensures freed == old(freed) + if found then [old(nodes)[Find(old(Contacts()), name) + 1]] else []
      ensures if found then OneAdded(nodes, old(nodes), Find(old(Contacts()), name)) else nodes == old(nodes)
    {
      var p1, p2 := head, head;
      ghost var i := 0;
      while p1.next != null
        invariant 0 <= i < |nodes| && p1 == nodes[i]
        invariant forall j :: 0 <= j < i ==> Contacts()[j].name != name
        decreases |nodes| - i
      {
        p2 := p1;
        p1 := p1.next;
        if p1.name == name {
          FindIs(Contacts(), name, i);
          RemoveNode(p2, p1, name, i);
          return true;
        }
        i := i + 1;
      }
      FindIs(Contacts(), name, i);
      return false;
    }

    // saveNodeData: a node named like the head is not written.
    method SaveNodeData(p: Node, out: seq<Record>) returns (r: seq<Record>)
      ensures Stored(r) == Stored(out) + if p.name != HEAD_NODE then [Contact(p.name, p.phone)] else []
    {
      r := if p.name != HEAD_NODE then out + [Record(p.name, p.phone, p.next)] else out;
    }

    // linkListDestory; None where the file cannot be opened and the list is left alone. Every
    // access is to a node that has not been freed.
    method LinkListDestory(canOpen: bool) returns (file: Option<seq<Record>>)
      requires Valid()
      modifies this`freed
      ensures file.Some? <==> canOpen
      ensures canOpen ==> Stored(file.value) == Saved(Contacts()) && freed == old(freed) + nodes
      ensures !canOpen ==> Valid() && freed == old(freed)
    {
      if !canOpen {
        return None;
      }
      var p1, p2 := head, head;
      var out := [];
      ghost var i, all := 0, Data(nodes);
      while p1.next != null
        invariant 0 <= i < |nodes| && p1 == nodes[i] && Chain() && all == Data(nodes)
        invariant freed == old(freed) + nodes[..i]
        invariant Stored(out) == Saved(all[..i])
        decreases |nodes| - i
      {
        Unfreed(nodes, old(freed), i);
        SavedStep(all, i);
        p2 := p1;
        p1 := p1.next;
        out := SaveNodeData(p2, out);
        Free(p2);
        i := i + 1;
      }
      assert i == |nodes| - 1;
      Unfreed(nodes, old(freed), i);
      SavedStep(all, i);
      out := SaveNodeData(p1, out);
      Free(p1);
      assert nodes[..i + 1] == nodes && all[..i + 1] == all;
      SavedBook(nodes);
      file := Some(out);
    }
  }

  lemma {:induction false} SavedStep(s: seq<Contact>, i: nat)
    requires i < |s|
    ensures Saved(s[..i + 1]) == Saved(s[..i]) + if s[i].name != HEAD_NODE then [s[i]] else []
  {
    assert s[..i + 1][..i] == s[..i];
  }

  lemma {:induction false} SavedHead(s: seq<Contact>)
    requires |s| > 0 && s[0].name == HEAD_NODE
    ensures Saved(s) == Saved(s[1..])
  {
    if |s| > 1 {
      var n := |s| - 1;
      SavedHead(s[..n]);
      assert s[1..][..n - 1] == s[..n][1..];
    } else {
      assert s[..0] == [];
    }
  }

  lemma {:induction false} SavedBook(ns: seq<Node>)
    requires |ns| > 0 && ns[0].name == HEAD_NODE
    ensures Saved(Data(ns)) == Saved(Data(ns[1..]))
  {
    assert Data(ns)[1..] == Data(ns[1..]);
    SavedHead(Data(ns));
  }

  // The node about to be freed has not been freed before.
  lemma {:induction false} Unfreed(ns: seq<Node>, fs: seq<Node>, i: nat)
    requires i < |ns| && (forall n :: n in ns ==> n !in fs)
    requires Distinct(ns)
    ensures ns[i] !in fs + ns[..i] && fs + ns[..i + 1] == fs + ns[..i] + [ns[i]]
  {
    assert ns[i] in ns;
  }

  // Save and load: the new list holds the contacts of the old one in the same order, except
  // those named like the head; and the old nodes, head included, are freed exactly once each.
  method SaveAndLoad(list: List) returns (reloaded: List)
    requires list.Valid()
    modifies list`freed
    ensures fresh(reloaded) && reloaded.Valid() && fresh(reloaded.repr)
    ensures reloaded.Contacts() == Saved(old(list.Contacts()))
    ensures list.freed == old(list.freed) + old(list.nodes)
    ensures Distinct(old(list.nodes))
  {
    var file := list.LinkListDestory(true);
    reloaded := new List.LinkListInit(file.value);
  }

  // The menu's choices 2 and 3.
  method Perform(list: List, op: Op)
    requires list.Valid()
    modifies list, list.repr
    ensures list.Valid() && fresh(list.repr - old(list.repr))
    ensures list.Contacts() == Do(old(list.Contacts()), op)
  {
    match op
    case InsertOp(c) => list.InsertNode(c.name, c.phone);
    case DeleteOp(name) => var found := list.DeleteNode(name);
  }

  // One session of the program: load, any operations, save.
  method Session(file: seq<Record>, ops: seq<Op>) returns (saved: seq<Record>)
    ensures Stored(saved) == Saved(Apply(Stored(file), ops))
  {
    var list := new List.LinkListInit(file);
    for k := 0 to |ops|
      invariant fresh(list) && list.Valid() && fresh(list.repr)
      invariant list.Contacts() == Apply(Stored(file), ops[..k])
    {
      assert ops[..k + 1][..k] == ops[..k];
      Perform(list, ops[k]);
    }
    assert ops[..|ops|] == ops;
    var out := list.LinkListDestory(true);
    saved := out.value;
  }

  // Starting from a sorted file, the file is sorted again after every session.
  lemma {:induction false} SessionSorted(file: seq<Contact>, ops: seq<Op>)
    requires Sorted(file)
    ensures Sorted(Saved(Apply(file, ops)))
  {
    ApplySorted(file, ops);
    SavedSorted(Apply(file, ops));
  }
}
