/** Reading the lines of a GIF frame into the row buffer: progressive, or in the four passes of
    GIF89a, Appendix E. */
module GifInterlace {
  import opened Basics
  import opened Arithmetic

  type Rows = seq<seq<Byte>>

  const INTERLACED_OFFSET := [0, 4, 2, 1]
  const INTERLACED_JUMPS := [8, 8, 4, 2]

  // ----- The order of the rows -----

  // The rows of one pass, from a given one on.
  function Pass(from: nat, jump: nat, height: nat): (r: seq<nat>)
    requires jump > 0
    decreases height - from
  {
    if from >= height then [] else [from] + Pass(from + jump, jump, height)
  }

  // The rows of the first n passes.
  function Passes(n: nat, height: nat): seq<nat>
    requires n <= 4
  {
    if n == 0 then [] else Passes(n - 1, height) + Pass(INTERLACED_OFFSET[n - 1], INTERLACED_JUMPS[n - 1], height)
  }

  function Progressive(height: nat): (r: seq<nat>)
    ensures |r| == height && forall k :: 0 <= k < height ==> r[k] == k
  {
    if height == 0 then [] else Progressive(height - 1) + [height - 1]
  }

  ghost predicate Distinct(s: seq<nat>) {
    forall i, j :: 0 <= i < j < |s| ==> s[i] != s[j]
  }

  lemma {:induction false} Residues(d: int, jump: int)
    requires 0 < jump && 0 <= d
    ensures d < jump ==> d % jump == d
    ensures d >= jump ==> d % jump == (d - jump) % jump
  {
    if d >= jump {
      assert (d / jump - 1) * jump == d / jump * jump - jump;
      DivMod(d - jump, jump, d / jump - 1, d % jump);
    }
  }

  lemma {:induction false} PassRow(from: nat, jump: nat, height: nat, r: nat)
    requires jump > 0
    ensures r in Pass(from, jump, height) <==> from <= r < height && (r - from) % jump == 0
    decreases height - from
  {
    if from >= height {
    } else {
      PassRow(from + jump, jump, height, r);
      if from <= r {
        Residues(r - from, jump);
      }
    }
  }

  lemma {:induction false} PassDistinct(from: nat, jump: nat, height: nat)
    requires jump > 0
    ensures Distinct(Pass(from, jump, height))
    decreases height - from
  {
    if from >= height {
    } else {
      PassDistinct(from + jump, jump, height);
      PassRow(from + jump, jump, height, from);
    }
  }

  lemma {:induction false} DistinctAppend(a: seq<nat>, b: seq<nat>)
    requires Distinct(a) && Distinct(b) && forall r :: r in a ==> r !in b
    ensures Distinct(a + b)
  {
    forall i, j | 0 <= i < j < |a + b| ensures (a + b)[i] != (a + b)[j] {
      if i < |a| <= j {
        assert a[i] in a && b[j - |a|] in b;
      }
    }
  }

  // The rows of the first n passes, by their remainders.
  predicate InPasses(n: nat, r: nat) {
    (n >= 1 && r % 8 == 0) || (n >= 2 && r % 8 == 4) || (n >= 3 && r % 4 == 2) || (n >= 4 && r % 2 == 1)
  }

  lemma {:induction false} PassesRow(n: nat, height: nat, r: nat)
    requires n <= 4
    ensures r in Passes(n, height) <==> r < height && InPasses(n, r)
  {
    if n == 0 {
    } else {
      PassesRow(n - 1, height, r);
      PassResidue(n, height, r);
    }
  }

  lemma {:induction false} PassResidue(n: nat, height: nat, r: nat)
    requires 1 <= n <= 4
    ensures r in Pass(INTERLACED_OFFSET[n - 1], INTERLACED_JUMPS[n - 1], height) <==>
      r < height && InPasses(n, r) && !InPasses(n - 1, r)
  {
    PassRow(INTERLACED_OFFSET[n - 1], INTERLACED_JUMPS[n - 1], height, r);
    Offsets(r);
  }

  lemma {:induction false} Offsets(r: nat)
    ensures (4 <= r && (r - 4) % 8 == 0) <==> r % 8 == 4
    ensures (2 <= r && (r - 2) % 4 == 0) <==> r % 4 == 2
    ensures (1 <= r && (r - 1) % 2 == 0) <==> r % 2 == 1
    ensures r % 8 == 0 || r % 8 == 4 ==> r % 4 == 0 && r % 2 == 0
    ensures r % 4 == 2 ==> r % 2 == 0
  {
    Shifted(r, 4, 8);
    Shifted(r, 2, 4);
    Shifted(r, 1, 2);
    Halves(r);
  }

  lemma {:induction false} Shifted(r: nat, offset: nat, jump: nat)
    requires 0 < offset < jump
    ensures offset <= r && (r - offset) % jump == 0 <==> r % jump == offset
  {
    var q, m := r / jump, r % jump;
    assert r == q * jump + m;
    if m >= offset {
      DivMod(r - offset, jump, q, m - offset);
    } else if r >= offset {
      assert (q - 1) * jump == q * jump - jump;
      DivMod(r - offset, jump, q - 1, m - offset + jump);
    }
  }

  // The remainders of r are those of its remainder modulo 8.
  lemma {:induction false} Halves(r: nat)
    ensures r % 4 == r % 8 % 4 && r % 2 == r % 4 % 2 == r % 8 % 2
  {
    var q, m := r / 8, r % 8;
    DivMod(r, 4, 2 * q + m / 4, m % 4);
    DivMod(r, 2, 4 * q + m / 2, m % 2);
  }

  lemma {:induction false} PassesDistinct(n: nat, height: nat)
    requires n <= 4
    ensures Distinct(Passes(n, height))
  {
    if n == 0 {
    } else {
      var a, b := Passes(n - 1, height), Pass(INTERLACED_OFFSET[n - 1], INTERLACED_JUMPS[n - 1], height);
      PassesDistinct(n - 1, height);
      PassDistinct(INTERLACED_OFFSET[n - 1], INTERLACED_JUMPS[n - 1], height);
      forall r | r in a ensures r !in b {
        PassesRow(n - 1, height, r);
        PassResidue(n, height, r);
      }
      DistinctAppend(a, b);
    }
  }

  lemma {:induction false} Without(s: seq<nat>, i: nat, n: nat)
    requires i < |s| && s[i] == n && Distinct(s) && forall r: nat :: r in s <==> r < n + 1
    ensures var t := s[..i] + s[i + 1..]; Distinct(t) && forall r: nat :: r in t <==> r < n
  {
    var t := s[..i] + s[i + 1..];
    forall a, b | 0 <= a < b < |t| ensures t[a] != t[b] {
      assert t[a] == s[if a < i then a else a + 1] && t[b] == s[if b < i then b else b + 1];
    }
    forall r: nat ensures r in t <==> r < n {
      if r in t {
        var k :| 0 <= k < |t| && t[k] == r;
        var j := if k < i then k else k + 1;
        assert s[j] == r && s[j] in s && j != i;
      }
      if r < n {
        assert r in s;
        var j :| 0 <= j < |s| && s[j] == r;
        assert t[if j < i then j else j - 1] == r;
      }
    }
  }

  lemma {:induction false} PermutationLength(s: seq<nat>, n: nat)
    requires Distinct(s) && forall r: nat :: r in s <==> r < n
    ensures |s| == n
    decreases n
  {
    assert n > 0 ==> (n - 1) in s;
    if |s| == 0 {
    } else {
      assert s[0] in s;
      var i :| 0 <= i < |s| && s[i] == n - 1;
      Without(s, i, n - 1);
      PermutationLength(s[..i] + s[i + 1..], n - 1);
    }
  }

  lemma {:induction false} InterlacedRow(height: nat, r: nat)
    ensures r in Passes(4, height) <==> r < height
  {
    PassesRow(4, height, r);
    Remainders(r);
  }

  lemma {:induction false} Remainders(r: nat)
    ensures InPasses(4, r)
  {
    Halves(r);
  }

  // For every height the four passes visit every row of the frame exactly once.
  lemma {:induction false} InterlacedOnce(height: nat)
    ensures forall r: nat :: r in Passes(4, height) <==> r < height
    ensures Distinct(Passes(4, height)) && |Passes(4, height)| == height
  {
    var order := Passes(4, height);
    forall r: nat ensures r in order <==> r < height {
      InterlacedRow(height, r);
    }
    PassesDistinct(4, height);
    PermutationLength(order, height);
  }

  // The row that each line of an interlaced frame goes to.
  function Interlaced(height: nat): (r: seq<nat>)
    ensures |r| == height && forall k :: 0 <= k < height ==> r[k] < height
  {
    InterlacedOnce(height);
    assert forall k :: 0 <= k < |Passes(4, height)| ==> Passes(4, height)[k] in Passes(4, height);
    Passes(4, height)
  }

  // A pass takes its rows from the first one on, a jump apart, up to the height.
  lemma {:induction false} PassAt(from: nat, jump: nat, height: nat)
    requires jump > 0
    ensures var p := Pass(from, jump, height);
      && (forall k :: 0 <= k < |p| ==> p[k] == from + k * jump)
      && from + |p| * jump >= height && (|p| > 0 ==> from + (|p| - 1) * jump < height)
    decreases height - from
  {
    if from >= height {
    } else {
      var rest := Pass(from + jump, jump, height);
      PassAt(from + jump, jump, height);
      forall k | 0 <= k < |rest| + 1 ensures Pass(from, jump, height)[k] == from + k * jump {
        if k > 0 {
          assert rest[k - 1] == from + jump + (k - 1) * jump;
          assert (k - 1) * jump == k * jump - jump;
        }
      }
      assert (|rest| + 1) * jump == |rest| * jump + jump;
      if |rest| > 0 {
        assert (|rest| - 1) * jump == |rest| * jump - jump;
      }
    }
  }

  lemma {:induction false} PassSizes(height: nat)
    ensures |Pass(0, 8, height)| == (height + 7) / 8 && forall k :: 0 <= k < |Pass(0, 8, height)| ==> Pass(0, 8, height)[k] == 8 * k
    ensures |Pass(4, 8, height)| == (height + 3) / 8 && forall k :: 0 <= k < |Pass(4, 8, height)| ==> Pass(4, 8, height)[k] == 8 * k + 4
    ensures |Pass(2, 4, height)| == (height + 1) / 4 && forall k :: 0 <= k < |Pass(2, 4, height)| ==> Pass(2, 4, height)[k] == 4 * k + 2
    ensures forall k :: 0 <= k < |Pass(1, 2, height)| ==> Pass(1, 2, height)[k] == 2 * k + 1
  {
    PassAt(0, 8, height);
    PassAt(4, 8, height);
    PassAt(2, 4, height);
    PassAt(1, 2, height);
  }

  // The order itself: rows 0, 8, 16, ..., then 4, 12, 20, ..., then 2, 6, 10, ..., then 1, 3, 5, ...
  lemma {:induction false} InterlacedOrder(height: nat, k: nat)
    requires k < height
    ensures var a, b, c := (height + 7) / 8, (height + 3) / 8, (height + 1) / 4;
      Interlaced(height)[k] ==
        if k < a then 8 * k
        else if k < a + b then 8 * (k - a) + 4
        else if k < a + b + c then 4 * (k - a - b) + 2
        else 2 * (k - a - b - c) + 1
  {
    var p0, p1, p2, p3 := Pass(0, 8, height), Pass(4, 8, height), Pass(2, 4, height), Pass(1, 2, height);
    PassSizes(height);
    FourPasses(height);
    assert Interlaced(height)[k] == (p0 + p1 + p2 + p3)[k];
  }

  lemma {:induction false} FourPasses(height: nat)
    ensures Interlaced(height) == Pass(0, 8, height) + Pass(4, 8, height) + Pass(2, 4, height) + Pass(1, 2, height)
  {
    assert Passes(1, height) == Pass(0, 8, height);
    assert Passes(2, height) == Passes(1, height) + Pass(4, 8, height);
    assert Passes(3, height) == Passes(2, height) + Pass(2, 4, height);
    assert Passes(4, height) == Passes(3, height) + Pass(1, 2, height);
  }

  // ----- Storing lines -----

  // A line of width bytes at column left of row r of the buffer.
  function PlaceLine(rows: Rows, r: nat, left: nat, line: seq<Byte>): (t: Rows)
    requires r < |rows| && left + |line| <= |rows[r]|
    ensures |t| == |rows| && forall i :: 0 <= i < |rows| ==> |t[i]| == |rows[i]|
  {
    rows[r := rows[r][..left] + line + rows[r][left + |line|..]]
  }

  // The rectangle of a frame, and lines for it, fit the buffer.
  ghost predicate Fits(rows: Rows, top: nat, left: nat, width: nat, height: nat) {
    top + height <= |rows| && forall i :: 0 <= i < |rows| ==> left + width <= |rows[i]|
  }

  ghost predicate LinesOf(lines: Rows, width: nat) {
    forall k :: 0 <= k < |lines| ==> |lines[k]| == width
  }

  ghost predicate RowsBelow(order: seq<nat>, height: nat) {
    forall k :: 0 <= k < |order| ==> order[k] < height
  }

  // The buffer after line k has gone to row order[k] of the frame, for each k in turn.
  ghost function Placed(rows: Rows, order: seq<nat>, lines: Rows, top: nat, left: nat, width: nat, height: nat): (t: Rows)
    requires Fits(rows, top, left, width, height) && LinesOf(lines, width)
    requires |order| <= |lines| && RowsBelow(order, height)
    ensures |t| == |rows| && forall i :: 0 <= i < |rows| ==> |t[i]| == |rows[i]|
    decreases |order|
  {
    if order == [] then rows
    else
      var n := |order| - 1;
      PlaceLine(Placed(rows, order[..n], lines, top, left, width, height), top + order[n], left, lines[n])
  }

  // With distinct rows, line k is found in row order[k], and everything else is untouched.
  lemma {:induction false} PlacedAt(rows: Rows, order: seq<nat>, lines: Rows, top: nat, left: nat, width: nat, height: nat, i: nat)
    requires Fits(rows, top, left, width, height) && LinesOf(lines, width)
    requires |order| <= |lines| && Distinct(order) && RowsBelow(order, height)
    requires i < |rows|
    ensures var t := Placed(rows, order, lines, top, left, width, height);
      && (forall k :: 0 <= k < |order| && top + order[k] == i ==> t[i] == rows[i][..left] + lines[k] + rows[i][left + width..])
      && ((forall k :: 0 <= k < |order| ==> top + order[k] != i) ==> t[i] == rows[i])
    decreases |order|
  {
    if order == [] {
    } else {
      var n := |order| - 1;
      PlacedAt(rows, order[..n], lines, top, left, width, height, i);
      var t := Placed(rows, order[..n], lines, top, left, width, height);
      assert forall k :: 0 <= k < n ==> order[..n][k] == order[k];
      if top + order[n] == i {
        assert forall k :: 0 <= k < n ==> top + order[..n][k] != i;
        assert t[i] == rows[i];
      }
    }
  }

  lemma {:induction false} PlacedRow(rows: Rows, order: seq<nat>, lines: Rows, top: nat, left: nat, width: nat, height: nat, i: nat, k: nat)
    requires Fits(rows, top, left, width, height) && LinesOf(lines, width)
    requires |order| <= |lines| && Distinct(order) && RowsBelow(order, height)
    requires i < |rows| && k < |order| && top + order[k] == i
    ensures Placed(rows, order, lines, top, left, width, height)[i] == rows[i][..left] + lines[k] + rows[i][left + width..]
  {
    PlacedAt(rows, order, lines, top, left, width, height, i);
  }

  // Two visits of the frame with the same line for each row fill each row alike.
  lemma {:induction false} SameRow(rows: Rows, order: seq<nat>, lines: Rows, other: seq<nat>, otherLines: Rows,
                top: nat, left: nat, width: nat, height: nat, i: nat)
    requires Fits(rows, top, left, width, height) && LinesOf(lines, width) && LinesOf(otherLines, width)
    requires |order| <= |lines| && Distinct(order) && RowsBelow(order, height)
    requires |other| <= |otherLines| && Distinct(other) && RowsBelow(other, height)
    requires forall r: nat :: r < height ==> r in order && r in other
    requires forall k, l :: 0 <= k < |order| && 0 <= l < |other| && order[k] == other[l] ==> lines[k] == otherLines[l]
    requires i < |rows|
    ensures Placed(rows, order, lines, top, left, width, height)[i] == Placed(rows, other, otherLines, top, left, width, height)[i]
  {
    if top <= i < top + height {
      var r: nat := i - top;
      assert r in order && r in other;
      var k: nat :| k < |order| && order[k] == r;
      var l: nat :| l < |other| && other[l] == r;
      PlacedRow(rows, order, lines, top, left, width, height, i, k);
      PlacedRow(rows, other, otherLines, top, left, width, height, i, l);
    } else {
      PlacedAt(rows, order, lines, top, left, width, height, i);
      PlacedAt(rows, other, otherLines, top, left, width, height, i);
    }
  }

  // Interlaced decoding of permuted lines is progressive decoding: if the encoder sends row
  // order[k] of the image as its k-th line, the four passes rebuild the image.
  lemma {:induction false} InterlacedIsProgressive(rows: Rows, image: Rows, sent: Rows, top: nat, left: nat, width: nat, height: nat)
    requires Fits(rows, top, left, width, height)
    requires LinesOf(image, width) && LinesOf(sent, width) && |image| == |sent| == height
    requires forall k :: 0 <= k < height ==> sent[k] == image[Interlaced(height)[k]]
    ensures Placed(rows, Interlaced(height), sent, top, left, width, height)
      == Placed(rows, Progressive(height), image, top, left, width, height)
  {
    InterlacedOnce(height);
    forall r: nat | r < height ensures r in Progressive(height) {
      assert Progressive(height)[r] == r;
    }
    forall i | 0 <= i < |rows|
      ensures Placed(rows, Interlaced(height), sent, top, left, width, height)[i]
        == Placed(rows, Progressive(height), image, top, left, width, height)[i]
    {
      SameRow(rows, Interlaced(height), sent, Progressive(height), image, top, left, width, height, i);
    }
  }

  // ----- The two loops of LCD_DisplayGIF -----

  ghost function Grid(buffer: array2<Byte>): (rows: Rows)
    reads buffer
    ensures |rows| == buffer.Length0
    ensures forall i :: 0 <= i < |rows| ==> |rows[i]| == buffer.Length1
    ensures forall i, j :: 0 <= i < |rows| && 0 <= j < buffer.Length1 ==> rows[i][j] == buffer[i, j]
  {
    seq(buffer.Length0, i requires 0 <= i < buffer.Length0 reads buffer =>
      seq(buffer.Length1, j requires 0 <= i < buffer.Length0 && 0 <= j < buffer.Length1 reads buffer => buffer[i, j]))
  }

  // The library call: the next line of the stream goes to its place in the buffer.
  method GetLine(buffer: array2<Byte>, r: nat, left: nat, line: seq<Byte>)
    requires r < buffer.Length0 && left + |line| <= buffer.Length1
    modifies buffer
    ensures Grid(buffer) == PlaceLine(old(Grid(buffer)), r, left, line)
  {
    for c := 0 to |line|
      invariant forall i, j :: 0 <= i < buffer.Length0 && 0 <= j < buffer.Length1 ==>
        buffer[i, j] == if i == r && left <= j < left + c then line[j - left] else old(buffer[i, j])
    {
      buffer[r, left + c] := line[c];
    }
    ghost var t, u := Grid(buffer), PlaceLine(old(Grid(buffer)), r, left, line);
    forall i | 0 <= i < |t| ensures t[i] == u[i] {}
  }

  lemma {:induction false} PassesPrefix(n: nat, height: nat)
    requires n <= 4
    ensures |Passes(n, height)| <= height
  {
    InterlacedOnce(height);
    assert |Passes(0, height)| <= |Passes(1, height)| <= |Passes(2, height)| <= |Passes(3, height)| <= |Passes(4, height)|;
  }

  lemma {:induction false} PassStep(done: seq<nat>, r: nat, jump: nat, height: nat)
    requires r < height && jump > 0
    ensures done + Pass(r, jump, height) == (done + [r]) + Pass(r + jump, jump, height)
  {}

  lemma {:induction false} PlacedStep(rows: Rows, done: seq<nat>, r: nat, lines: Rows, top: nat, left: nat, width: nat, height: nat)
    requires Fits(rows, top, left, width, height) && LinesOf(lines, width)
    requires |done| < |lines| && RowsBelow(done, height) && r < height
    ensures RowsBelow(done + [r], height)
    ensures Placed(rows, done + [r], lines, top, left, width, height)
      == PlaceLine(Placed(rows, done, lines, top, left, width, height), top + r, left, lines[|done|])
  {
    assert (done + [r])[..|done|] == done;
  }

  // One line of a frame, after those that went to the rows in done.
  method ReadLine(buffer: array2<Byte>, top: nat, left: nat, width: nat, height: nat, lines: Rows,
                  iW: nat, n: nat, ghost rows: Rows, ghost done: seq<nat>, ghost r: nat)
    requires top + height <= buffer.Length0 && left + width <= buffer.Length1
    requires LinesOf(lines, width) && Fits(rows, top, left, width, height) && RowsBelow(done, height)
    requires n == |done| < |lines| && iW == top + r && r < height
    requires Grid(buffer) == Placed(rows, done, lines, top, left, width, height)
    modifies buffer
    ensures RowsBelow(done + [r], height)
    ensures Grid(buffer) == Placed(rows, done + [r], lines, top, left, width, height)
  {
    PlacedStep(rows, done, r, lines, top, left, width, height);
    GetLine(buffer, iW, left, lines[n]);
  }

  // The inner loop: the pass that starts at row from, after the rows in done have been read.
  method ReadPass(buffer: array2<Byte>, top: nat, left: nat, width: nat, height: nat, lines: Rows,
                  from: nat, jump: nat, n0: nat, ghost rows: Rows, ghost done0: seq<nat>)
    returns (n: nat)
    requires top + height <= buffer.Length0 && left + width <= buffer.Length1 && jump > 0
    requires LinesOf(lines, width) && |lines| == height && Fits(rows, top, left, width, height)
    requires n0 == |done0| && |done0 + Pass(from, jump, height)| <= height && RowsBelow(done0, height)
    requires Grid(buffer) == Placed(rows, done0, lines, top, left, width, height)
    modifies buffer
    ensures var done := done0 + Pass(from, jump, height);
      n == |done| && RowsBelow(done, height) && Grid(buffer) == Placed(rows, done, lines, top, left, width, height)
  {
    n := n0;
    var iW := top + from;
    ghost var r: nat, done: seq<nat> := from, done0;
    while iW < top + height
      invariant iW == top + r && n == |done| <= height && RowsBelow(done, height)
      invariant done + Pass(r, jump, height) == done0 + Pass(from, jump, height)
      invariant Grid(buffer) == Placed(rows, done, lines, top, left, width, height)
      decreases top + height - iW
    {
      PassStep(done, r, jump, height);
      ReadLine(buffer, top, left, width, height, lines, iW, n, rows, done, r);
      n, done, r := n + 1, done + [r], r + jump;
      iW := iW + jump;
    }
    assert done + [] == done;
  }

  method ReadProgressive(buffer: array2<Byte>, top: nat, left: nat, width: nat, height: nat, lines: Rows)
    requires top + height <= buffer.Length0 && left + width <= buffer.Length1
    requires LinesOf(lines, width) && |lines| == height
    modifies buffer
    ensures Grid(buffer) == Placed(old(Grid(buffer)), Progressive(height), lines, top, left, width, height)
  {
    var row := top;
    ghost var rows := Grid(buffer);
    for iH := 0 to height
      invariant row == top + iH && RowsBelow(Progressive(iH), height)
      invariant Grid(buffer) == Placed(rows, Progressive(iH), lines, top, left, width, height)
    {
      assert Progressive(iH + 1) == Progressive(iH) + [iH];
      ReadLine(buffer, top, left, width, height, lines, row, iH, rows, Progressive(iH), iH);
      row := row + 1;
    }
  }

  method ReadInterlaced(buffer: array2<Byte>, top: nat, left: nat, width: nat, height: nat, lines: Rows)
    requires top + height <= buffer.Length0 && left + width <= buffer.Length1
    requires LinesOf(lines, width) && |lines| == height
    modifies buffer
    ensures Grid(buffer) == Placed(old(Grid(buffer)), Interlaced(height), lines, top, left, width, height)
  {
    var n := 0;
    for iH := 0 to 4
      invariant n == |Passes(iH, height)| && RowsBelow(Passes(iH, height), height)
      invariant |Passes(iH, height)| <= |lines|
      invariant Grid(buffer) == Placed(old(Grid(buffer)), Passes(iH, height), lines, top, left, width, height)
    {
      PassesPrefix(iH + 1, height);
      n := ReadPass(buffer, top, left, width, height, lines, INTERLACED_OFFSET[iH], INTERLACED_JUMPS[iH], n,
                    old(Grid(buffer)), Passes(iH, height));
    }
    InterlacedOnce(height);
  }
}
