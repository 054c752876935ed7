/** The contact book as a sequence: case-insensitive name order, sorted insertion, deletion by
    exact name, and the data file. */
module ContactOrder {
  import opened Basics

  const FIELD_SIZE := 16

  // The C string in a char[16] field: no 0 before the terminator, which needs a byte itself.
  type Text = t: seq<Byte> | |t| < FIELD_SIZE && 0 !in t witness []

  datatype Contact = Contact(name: Text, phone: Text)

  // "HEAD_NODE" and "exit" in ASCII.
  const HEAD_NODE: Text := [72, 69, 65, 68, 95, 78, 79, 68, 69]
  const EXIT: Text := [101, 120, 105, 116]

  // ----- Comparing names -----

  function Lower(b: Byte): Byte {
    if 65 <= b <= 90 then b + 32 else b
  }

  function Fold(t: seq<Byte>): (r: seq<Byte>)
    ensures |r| == |t|
  {
    seq(|t|, i requires 0 <= i < |t| => Lower(t[i]))
  }

  // strcmp on C strings, by unsigned bytes.
  function StrCmp(a: seq<Byte>, b: seq<Byte>): int {
    if a == [] then (if b == [] then 0 else -1)
    else if b == [] then 1
    else if a[0] != b[0] then a[0] - b[0]
    else StrCmp(a[1..], b[1..])
  }

  lemma {:induction false} StrCmpTotal(a: seq<Byte>, b: seq<Byte>)
    ensures StrCmp(a, b) == 0 <==> a == b
    ensures StrCmp(a, b) > 0 <==> StrCmp(b, a) < 0
  {
    if a == [] || b == [] || a[0] != b[0] {
    } else {
      StrCmpTotal(a[1..], b[1..]);
      assert a == [a[0]] + a[1..] && b == [b[0]] + b[1..];
    }
  }

  lemma {:induction false} StrCmpTransitive(a: seq<Byte>, b: seq<Byte>, c: seq<Byte>)
    requires StrCmp(a, b) <= 0 && StrCmp(b, c) <= 0
    ensures StrCmp(a, c) <= 0
  {
    if a == [] || b == [] || c == [] || !(a[0] == b[0] == c[0]) {
    } else {
      StrCmpTransitive(a[1..], b[1..], c[1..]);
    }
  }

  function NameCmp(a: Text, b: Text): int {
    StrCmp(Fold(a), Fold(b))
  }

  // nameCmp is a total preorder, and it ties exactly the names that differ in case alone.
  lemma {:induction false} NameOrder(a: Text, b: Text, c: Text)
    ensures NameCmp(a, b) == 0 <==> Fold(a) == Fold(b)
    ensures NameCmp(a, b) > 0 <==> NameCmp(b, a) < 0
    ensures NameCmp(a, b) <= 0 && NameCmp(b, c) <= 0 ==> NameCmp(a, c) <= 0
  {
    StrCmpTotal(Fold(a), Fold(b));
    if NameCmp(a, b) <= 0 && NameCmp(b, c) <= 0 {
      StrCmpTransitive(Fold(a), Fold(b), Fold(c));
    }
  }

  // The same byte, or the two cases of one letter.
  predicate SameLetter(a: Byte, b: Byte) {
    a == b || (65 <= a <= 90 && b as int == a as int + 32) || (65 <= b <= 90 && a as int == b as int + 32)
  }

  lemma {:induction false} FoldRest(t: seq<Byte>)
    requires t != []
    ensures Fold(t) != [] && Fold(t)[1..] == Fold(t[1..])
  {}

  // What a tie is, by the bytes of the two names.
  lemma {:induction false} TiesIff(a: Text, b: Text)
    ensures NameCmp(a, b) == 0 <==> |a| == |b| && forall i :: 0 <= i < |a| ==> SameLetter(a[i], b[i])
  {
    NameOrder(a, b, b);
    if NameCmp(a, b) == 0 {
      forall i | 0 <= i < |a| ensures |a| == |b| && SameLetter(a[i], b[i]) {
        assert Fold(a)[i] == Fold(b)[i] && |Fold(a)| == |Fold(b)|;
      }
      assert |Fold(a)| == |Fold(b)|;
    }
  }

  // At place i the names part: they agree before it but for case, and there the first has ended
  // or has the smaller byte, capital letters counting as small ones.
  predicate LessAt(a: seq<Byte>, b: seq<Byte>, i: nat) {
    && i <= |a| && i < |b|
    && (forall j :: 0 <= j < i ==> SameLetter(a[j], b[j]))
    && (i < |a| ==> (if 65 <= a[i] <= 90 then a[i] as int + 32 else a[i] as int) < if 65 <= b[i] <= 90 then b[i] as int + 32 else b[i] as int)
  }

  lemma {:induction false} FoldLess(a: seq<Byte>, b: seq<Byte>) returns (i: nat)
    requires StrCmp(Fold(a), Fold(b)) < 0
    ensures LessAt(a, b, i)
  {
    if a == [] || !SameLetter(a[0], b[0]) {
      i := 0;
    } else {
      FoldRest(a);
      FoldRest(b);
      i := FoldLess(a[1..], b[1..]);
      i := i + 1;
    }
  }

  lemma {:induction false} LessFold(a: seq<Byte>, b: seq<Byte>, i: nat)
    requires LessAt(a, b, i)
    ensures StrCmp(Fold(a), Fold(b)) < 0
  {
    if i == 0 {
    } else {
      FoldRest(a);
      FoldRest(b);
      assert SameLetter(a[0], b[0]);
      LessFold(a[1..], b[1..], i - 1);
    }
  }

  // Which of two names comes first, by their bytes.
  lemma {:induction false} LessIff(a: Text, b: Text)
    ensures NameCmp(a, b) < 0 <==> exists i: nat :: LessAt(a, b, i)
  {
    if NameCmp(a, b) < 0 {
      var i := FoldLess(a, b);
    }
    if exists i: nat :: LessAt(a, b, i) {
      var i: nat :| LessAt(a, b, i);
      LessFold(a, b, i);
    }
  }

  // strcpy into a zeroed local array.
  method CopyField(t: Text) returns (s: array<Byte>)
    ensures fresh(s) && s.Length == FIELD_SIZE
    ensures s[..|t|] == t && forall i :: |t| <= i < FIELD_SIZE ==> s[i] == 0
  {
    s := new Byte[FIELD_SIZE](_ => 0);
    for i := 0 to |t|
      invariant s[..i] == t[..i] && forall j :: i <= j < FIELD_SIZE ==> s[j] == 0
    {
      s[i] := t[i];
    }
  }

  // strcmp: the first difference, up to the terminator.
  method CompareFields(s1: array<Byte>, s2: array<Byte>, ghost t1: seq<Byte>, ghost t2: seq<Byte>) returns (r: int)
    requires s1.Length == s2.Length == FIELD_SIZE
    requires |t1| < FIELD_SIZE && 0 !in t1 && s1[..|t1|] == t1 && s1[|t1|] == 0
    requires |t2| < FIELD_SIZE && 0 !in t2 && s2[..|t2|] == t2 && s2[|t2|] == 0
    ensures r < 0 <==> StrCmp(t1, t2) < 0
    ensures r > 0 <==> StrCmp(t1, t2) > 0
  {
    var i := 0;
    while s1[i] == s2[i] && s1[i] != 0
      invariant 0 <= i <= |t1| && i <= |t2|
      invariant StrCmp(t1, t2) == StrCmp(t1[i..], t2[i..])
      decreases |t1| - i
    {
      assert t1[i] == s1[..|t1|][i] && t2[i] == s2[..|t2|][i];
      i := i + 1;
    }
    if i < |t1| { assert t1[i] == s1[..|t1|][i] && t1[i] in t1; }
    if i < |t2| { assert t2[i] == s2[..|t2|][i] && t2[i] in t2; }
    r := s1[i] as int - s2[i] as int;
  }

  // nameCmp as the program runs it: two local arrays, lowered in place.
  method CompareNames(n1: Text, n2: Text) returns (r: int)
    ensures r < 0 <==> NameCmp(n1, n2) < 0
    ensures r > 0 <==> NameCmp(n1, n2) > 0
  {
    var s1 := CopyField(n1);
    var s2 := CopyField(n2);
    for i := 0 to FIELD_SIZE
      invariant forall j :: 0 <= j < FIELD_SIZE ==>
        s1[j] == (if j < |n1| then (if j < i then Lower(n1[j]) else n1[j]) else 0) &&
        s2[j] == (if j < |n2| then (if j < i then Lower(n2[j]) else n2[j]) else 0)
    {
      if s1[i] <= 90 && s1[i] >= 65 {
        s1[i] := s1[i] + 32;
      }
      if s2[i] <= 90 && s2[i] >= 65 {
        s2[i] := s2[i] + 32;
      }
    }
    assert s1[..|n1|] == Fold(n1) && s2[..|n2|] == Fold(n2);
    r := CompareFields(s1, s2, Fold(n1), Fold(n2));
  }

  // ----- The operations on the sequence of contacts -----

  // The first place whose contact is greater than the name, or the end.
  function Position(s: seq<Contact>, name: Text): (k: nat)
    ensures k <= |s|
    ensures forall i :: 0 <= i < k ==> NameCmp(s[i].name, name) <= 0
    ensures k < |s| ==> NameCmp(s[k].name, name) > 0
  {
    if s == [] || NameCmp(s[0].name, name) > 0 then 0 else 1 + Position(s[1..], name)
  }

  function With(s: seq<Contact>, c: Contact, p: nat): seq<Contact>
    requires p <= |s|
  {
    s[..p] + [c] + s[p..]
  }

  function Without(s: seq<Contact>, f: nat): (t: seq<Contact>)
    requires f < |s|
    ensures |t| == |s| - 1
  {
    s[..f] + s[f + 1..]
  }

  function Insert(s: seq<Contact>, c: Contact): seq<Contact> {
    if c.name == EXIT then s else With(s, c, Position(s, c.name))
  }

  // The first place with exactly this name, or the end.
  function Find(s: seq<Contact>, name: Text): (k: nat)
    ensures k <= |s|
    ensures forall i :: 0 <= i < k ==> s[i].name != name
    ensures k < |s| ==> s[k].name == name
  {
    if s == [] || s[0].name == name then 0 else 1 + Find(s[1..], name)
  }

  function Delete(s: seq<Contact>, name: Text): seq<Contact> {
    var k := Find(s, name);
    if k < |s| then Without(s, k) else s
  }

  ghost predicate Sorted(s: seq<Contact>) {
    forall i, j :: 0 <= i < j < |s| ==> NameCmp(s[i].name, s[j].name) <= 0
  }

  // On a sorted book the contacts from the insertion point on are all greater than the name.
  lemma {:induction false} GreaterFrom(s: seq<Contact>, name: Text, i: nat)
    requires Sorted(s) && Position(s, name) <= i < |s|
    ensures NameCmp(s[i].name, name) > 0 && NameCmp(name, s[i].name) < 0
  {
    var k := Position(s, name);
    NameOrder(s[i].name, name, name);
    if i > k {
      NameOrder(s[k].name, s[i].name, name);
    }
  }

  // Insertion by index: nothing for the name "exit", and otherwise one contact more, before which
  // and behind which all others stand as they stood.
  lemma {:induction false} InsertExact(s: seq<Contact>, c: Contact)
    ensures c.name == [101, 120, 105, 116] ==> Insert(s, c) == s
    ensures c.name != [101, 120, 105, 116] ==> var t, p := Insert(s, c), Position(s, c.name);
      && |t| == |s| + 1 && t[p] == c
      && (forall i :: 0 <= i < p ==> t[i] == s[i] && NameCmp(s[i].name, c.name) <= 0)
      && (forall i :: p <= i < |s| ==> t[i + 1] == s[i])
      && (p < |s| ==> NameCmp(s[p].name, c.name) > 0)
  {}

  // Deletion by index, where k is the first place with exactly this name, or the end: that
  // contact is missing afterwards, if there is one, and all others stand as they stood.
  lemma {:induction false} DeleteExact(s: seq<Contact>, name: Text, k: nat)
    requires k <= |s| && (k < |s| ==> s[k].name == name)
    requires forall i :: 0 <= i < k ==> s[i].name != name
    ensures if k == |s| then Delete(s, name) == s else
      && |Delete(s, name)| == |s| - 1
      && (forall i :: 0 <= i < k ==> Delete(s, name)[i] == s[i])
      && (forall i :: k <= i < |s| - 1 ==> Delete(s, name)[i] == s[i + 1])
  {
    FindIs(s, name, k);
  }

  // On a sorted book insertion keeps the order, and puts the new contact after every contact
  // that is not greater (in particular after all equal names) and before every greater one.
  lemma {:induction false} InsertSorted(s: seq<Contact>, c: Contact)
    requires Sorted(s)
    ensures Sorted(Insert(s, c))
    ensures forall i :: 0 <= i < |s| ==> (i < Position(s, c.name) <==> NameCmp(s[i].name, c.name) <= 0)
  {
    forall i | Position(s, c.name) <= i < |s| ensures NameCmp(s[i].name, c.name) > 0 && NameCmp(c.name, s[i].name) < 0 {
      GreaterFrom(s, c.name, i);
    }
    SortedSplice(s, c, Position(s, c.name));
  }

  lemma {:induction false} SortedSplice(s: seq<Contact>, c: Contact, k: nat)
    requires Sorted(s) && k <= |s|
    requires forall i :: 0 <= i < k ==> NameCmp(s[i].name, c.name) <= 0
    requires forall i :: k <= i < |s| ==> NameCmp(c.name, s[i].name) < 0
    ensures Sorted(With(s, c, k))
  {
    var t := With(s, c, k);
    forall i, j | 0 <= i < j < |t| ensures NameCmp(t[i].name, t[j].name) <= 0 {
      assert t[i] == if i < k then s[i] else if i == k then c else s[i - 1];
      assert t[j] == if j < k then s[j] else if j == k then c else s[j - 1];
    }
  }

  lemma {:induction false} DeleteSorted(s: seq<Contact>, name: Text)
    requires Sorted(s)
    ensures Sorted(Delete(s, name))
  {}

  lemma {:induction false} FindIs(s: seq<Contact>, name: Text, k: nat)
    requires k <= |s| && (k < |s| ==> s[k].name == name)
    requires forall i :: 0 <= i < k ==> s[i].name != name
    ensures Find(s, name) == k
  {}

  lemma {:induction false} FindSpliced(s: seq<Contact>, c: Contact, p: nat)
    requires p <= |s|
    ensures Find(With(s, c, p), c.name) == if Find(s, c.name) < p then Find(s, c.name) else p
  {
    var t := With(s, c, p);
    assert forall i :: 0 <= i < p ==> t[i] == s[i];
    assert t[p] == c;
    FindIs(t, c.name, if Find(s, c.name) < p then Find(s, c.name) else p);
  }

  lemma {:induction false} CutSpliced(s: seq<Contact>, c: Contact, p: nat, f: nat)
    requires f <= p <= |s|
    ensures Without(With(s, c, p), f) == if f == p then s else With(Without(s, f), c, p - 1)
  {
    if f == p {
      assert With(s, c, p)[..p] == s[..p] && With(s, c, p)[p + 1..] == s[p..];
    } else {
      CutBefore(s, c, p, f);
    }
  }

  lemma {:induction false} CutBefore(s: seq<Contact>, c: Contact, p: nat, f: nat)
    requires f < p <= |s|
    ensures Without(With(s, c, p), f) == With(Without(s, f), c, p - 1)
  {
    var t, d := With(s, c, p), Without(s, f);
    assert t[..f] == s[..f] && t[f + 1..] == s[f + 1..p] + [c] + s[p..];
    assert d[..p - 1] == s[..f] + s[f + 1..p] && d[p - 1..] == s[p..];
  }

  lemma {:induction false} PositionAfterDelete(s: seq<Contact>, name: Text, f: nat, p: nat)
    requires f < p == Position(s, name) && f < |s|
    ensures Position(Without(s, f), name) == p - 1
  {
    PositionIs(Without(s, f), name, p - 1);
  }

  // Deleting right after an insertion takes the new contact out again, unless the same spelling
  // was there before: then it is the older contact that goes, and the new one stays.
  lemma {:induction false} DeleteAfterInsert(s: seq<Contact>, c: Contact)
    requires Sorted(s) && c.name != EXIT
    ensures Delete(Insert(s, c), c.name) == if Find(s, c.name) == |s| then s else Insert(Delete(s, c.name), c)
  {
    if Find(s, c.name) < |s| {
      FoundBefore(s, c);
      DeleteOlder(s, c, Find(s, c.name), Position(s, c.name));
    } else {
      DeleteNewer(s, c, Position(s, c.name));
    }
  }

  lemma {:induction false} FoundBefore(s: seq<Contact>, c: Contact)
    requires Sorted(s) && Find(s, c.name) < |s|
    ensures Find(s, c.name) < Position(s, c.name)
  {
    NameOrder(c.name, c.name, c.name);
    InsertSorted(s, c);
  }

  lemma {:induction false} DeleteOlder(s: seq<Contact>, c: Contact, f: nat, p: nat)
    requires f == Find(s, c.name) < p == Position(s, c.name) && c.name != EXIT
    ensures Delete(Insert(s, c), c.name) == Insert(Delete(s, c.name), c)
  {
    FindSpliced(s, c, p);
    PositionAfterDelete(s, c.name, f, p);
    CutSpliced(s, c, p, f);
  }

  lemma {:induction false} DeleteNewer(s: seq<Contact>, c: Contact, p: nat)
    requires Find(s, c.name) == |s| && p == Position(s, c.name) && c.name != EXIT
    ensures Delete(Insert(s, c), c.name) == s
  {
    FindSpliced(s, c, p);
    CutSpliced(s, c, p, p);
  }

  lemma {:induction false} PositionIs(s: seq<Contact>, name: Text, k: nat)
    requires k <= |s|
    requires forall i :: 0 <= i < k ==> NameCmp(s[i].name, name) <= 0
    requires k < |s| ==> NameCmp(s[k].name, name) > 0
    ensures Position(s, name) == k
  {}

  datatype Op = InsertOp(contact: Contact) | DeleteOp(name: Text)

  function Do(s: seq<Contact>, op: Op): seq<Contact> {
    match op
    case InsertOp(c) => Insert(s, c)
    case DeleteOp(name) => Delete(s, name)
  }

  function Apply(s: seq<Contact>, ops: seq<Op>): seq<Contact>
    decreases |ops|
  {
    if ops == [] then s else Do(Apply(s, ops[..|ops| - 1]), ops[|ops| - 1])
  }

  // A sorted book stays sorted over every sequence of insertions and deletions, and every
  // contact in it was there at the start or has been inserted.
  lemma {:induction false} ApplySorted(s: seq<Contact>, ops: seq<Op>)
    requires Sorted(s)
    ensures Sorted(Apply(s, ops))
    ensures forall c :: c in Apply(s, ops) ==> c in s || InsertOp(c) in ops
    decreases |ops|
  {
    if ops == [] {
    } else {
      var before, op := ops[..|ops| - 1], ops[|ops| - 1];
      ApplySorted(s, before);
      DoSorted(Apply(s, before), op);
      assert forall c :: InsertOp(c) in before ==> InsertOp(c) in ops;
    }
  }

  lemma {:induction false} DoSorted(s: seq<Contact>, op: Op)
    requires Sorted(s)
    ensures Sorted(Do(s, op))
    ensures forall c :: c in Do(s, op) ==> c in s || op == InsertOp(c)
  {
    match op
    case InsertOp(c) => InsertSorted(s, c);
    case DeleteOp(name) => DeleteSorted(s, name);
  }

  // ----- The data file -----

  // What is written for a list: everything but nodes named like the list head.
  function Saved(s: seq<Contact>): (r: seq<Contact>) {
    if s == [] then []
    else Saved(s[..|s| - 1]) + if s[|s| - 1].name != HEAD_NODE then [s[|s| - 1]] else []
  }

  lemma {:induction false} SavedMembers(s: seq<Contact>)
    ensures |Saved(s)| <= |s|
    ensures forall c :: c in Saved(s) <==> c in s && c.name != [72, 69, 65, 68, 95, 78, 79, 68, 69]
  {
    if s == [] {
    } else {
      SavedMembers(s[..|s| - 1]);
      assert s == s[..|s| - 1] + [s[|s| - 1]];
    }
  }

  // The file is the whole book if and only if no contact is named like the list head.
  lemma {:induction false} SavedAll(s: seq<Contact>)
    ensures Saved(s) == s <==> forall c :: c in s ==> c.name != HEAD_NODE
  {
    SavedMembers(s);
    if s == [] {
    } else {
      var t, c := s[..|s| - 1], s[|s| - 1];
      assert s == t + [c];
      SavedAll(t);
      SavedMembers(t);
    }
  }

  // The file of a sorted book is sorted, so the next session starts with a sorted book.
  lemma {:induction false} SavedSorted(s: seq<Contact>)
    requires Sorted(s)
    ensures Sorted(Saved(s))
  {
    if s == [] {
    } else {
      var t, c := s[..|s| - 1], s[|s| - 1];
      var kept := Saved(t);
      SavedSorted(t);
      SavedMembers(t);
      forall i | 0 <= i < |kept| ensures NameCmp(kept[i].name, c.name) <= 0 {
        assert kept[i] in kept;
      }
      assert Sorted(kept + [c]);
    }
  }
}
