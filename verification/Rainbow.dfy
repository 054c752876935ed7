/** The rainbow: the screen's columns in six areas, in each of which one colour component steps
    up or down and is clamped to a byte. */
module Rainbow {
  import opened Arithmetic

  // A narrower screen makes the source divide by zero.
  type Width = w: nat | w >= 6 witness 6

  type AreaIndex = i: nat | i < 6

  // The component that each area changes.
  const CHANNEL := [1, 0, 2, 1, 0, 2]

  function Area(width: nat, i: nat): nat {
    width / 6 + if 1 <= i <= width % 6 then 1 else 0
  }

  // The first column of area i.
  function Start(width: nat, i: nat): nat {
    if i == 0 then 0 else Start(width, i - 1) + Area(width, i - 1)
  }

  lemma {:induction false} AreasPartition(width: nat)
    ensures Start(width, 6) == width
    ensures forall i :: 0 <= i < 6 ==> width / 6 <= Area(width, i) <= width / 6 + 1
  {
    assert Start(width, 1) == Area(width, 0);
    assert Start(width, 2) == Area(width, 0) + Area(width, 1);
    assert Start(width, 4) == Start(width, 2) + Area(width, 2) + Area(width, 3);
    assert Start(width, 6) == Start(width, 4) + Area(width, 4) + Area(width, 5);
  }

  function Calibrate(v: int): int {
    if v < 0 then 0 else if v > 255 then 255 else v
  }

  // tlrc, and the change made in column j of an area.
  function Tolerance(width: Width): nat
  {
    255 / (width / 6)
  }

  function Change(tlrc: nat, j: nat): nat {
    if j % 2 != 0 then tlrc else tlrc + 1
  }

  // One component after j columns of an area, clamped at every step.
  function Level(from: int, up: bool, tlrc: nat, j: nat): int {
    if j == 0 then from
    else
      var v, step := Level(from, up, tlrc, j - 1), Change(tlrc, j - 1);
      Calibrate(if up then v + step else v - step)
  }

  // What j columns would add without clamping.
  function Rise(tlrc: nat, j: nat): int {
    j * tlrc + (j + 1) / 2
  }

  // Clamping at every step comes to clamping once at the end.
  lemma {:induction false} LevelClosed(from: int, up: bool, tlrc: nat, j: nat)
    requires 0 <= from <= 255
    ensures Level(from, up, tlrc, j) == Calibrate(if up then from + Rise(tlrc, j) else from - Rise(tlrc, j))
    ensures 0 <= Level(from, up, tlrc, j) <= 255
  {
    if j == 0 {
    } else {
      LevelClosed(from, up, tlrc, j - 1);
      RiseStep(tlrc, j - 1);
    }
  }

  lemma {:induction false} RiseStep(tlrc: nat, j: nat)
    ensures Rise(tlrc, j + 1) == Rise(tlrc, j) + Change(tlrc, j) && Rise(tlrc, j) >= 0
  {
    assert (j + 1) * tlrc == j * tlrc + tlrc;
  }

  lemma {:induction false} RiseMonotone(tlrc: nat, j: nat, k: nat)
    requires j <= k
    ensures 0 <= Rise(tlrc, j) <= Rise(tlrc, k)
  {
    MulMono(j, k, tlrc);
    MulMono(0, j, tlrc);
  }

  // When an area as narrow as the first one covers the whole range of a component.
  lemma {:induction false} SaturationIff(width: Width)
    ensures Rise(Tolerance(width), width / 6) >= 255 <==> 255 % (width / 6) <= (width / 6 + 1) / 2
  {
    var a := width / 6;
    assert 255 == 255 / a * a + 255 % a;
    assert a * Tolerance(width) == 255 / a * a;
  }

  // ----- The three components together -----

  type Rgb = c: seq<int> | |c| == 3 witness [0, 0, 0]

  // The components after j columns of area i.
  function RgbAt(width: Width, i: AreaIndex, j: nat): (c: Rgb)
    decreases i, j
  {
    if j == 0 then
      if i == 0 then [255, 0, 0] else RgbAt(width, i - 1, Area(width, i - 1))
    else
      var c := RgbAt(width, i, j - 1);
      var t := CHANNEL[i];
      var step := Change(Tolerance(width), j - 1);
      c[t := Calibrate(if i % 2 == 0 then c[t] + step else c[t] - step)]
  }

  lemma {:induction false} RgbLevel(width: Width, i: AreaIndex, j: nat)
    ensures RgbAt(width, i, j) ==
      var c := RgbAt(width, i, 0); var t := CHANNEL[i];
      c[t := Level(c[t], i % 2 == 0, Tolerance(width), j)]
  {
    if j == 0 {
    } else {
      RgbLevel(width, i, j - 1);
    }
  }

  lemma {:induction false} RgbInRange(width: Width, i: AreaIndex, j: nat)
    ensures forall t :: 0 <= t < 3 ==> 0 <= RgbAt(width, i, j)[t] <= 255
    decreases i, j
  {
    if j > 0 {
      RgbInRange(width, i, j - 1);
    } else if i > 0 {
      RgbInRange(width, i - 1, Area(width, i - 1));
    }
  }

  // Area i ends with its component at the end of the range it moves towards.
  predicate Saturates(width: Width, i: AreaIndex)
  {
    RgbAt(width, i, Area(width, i))[CHANNEL[i]] == if i % 2 == 0 then 255 else 0
  }

  // An area that starts at one end of the range and is wide enough reaches the other end.
  lemma {:induction false} AreaSaturates(width: Width, i: AreaIndex)
    requires Rise(Tolerance(width), width / 6) >= 255
    ensures RgbAt(width, i, Area(width, i)) == RgbAt(width, i, 0)[CHANNEL[i] := if i % 2 == 0 then 255 else 0]
  {
    RgbInRange(width, i, 0);
    RgbLevel(width, i, Area(width, i));
    LevelClosed(RgbAt(width, i, 0)[CHANNEL[i]], i % 2 == 0, Tolerance(width), Area(width, i));
    RiseMonotone(Tolerance(width), width / 6, Area(width, i));
  }

  // The exact saturation condition. With a = width / 6 the first area brings green to 255 if and
  // only if 255 mod a <= (a + 1) / 2; then all six areas saturate and the colour comes round to
  // red again.
  lemma {:induction false} RainbowSaturatesIff(width: Width)
    ensures Saturates(width, 0) <==> 255 % (width / 6) <= (width / 6 + 1) / 2
    ensures Saturates(width, 0) ==>
      (forall i :: 0 <= i < 6 ==> Saturates(width, i)) && RgbAt(width, 5, Area(width, 5)) == [255, 0, 0]
  {
    SaturationIff(width);
    RgbLevel(width, 0, Area(width, 0));
    LevelClosed(0, true, Tolerance(width), Area(width, 0));
    RiseMonotone(Tolerance(width), 0, Area(width, 0));
    if Saturates(width, 0) {
      forall i | 0 <= i < 6 ensures Saturates(width, i) {
        AreaSaturates(width, i);
      }
      AreaSaturates(width, 0);
      AreaSaturates(width, 1);
      AreaSaturates(width, 2);
      AreaSaturates(width, 3);
      AreaSaturates(width, 4);
      AreaSaturates(width, 5);
    }
  }

  // Where area i begins: the columns left over after division by six go to areas 1, 2, ...
  lemma {:induction false} StartExact(width: nat, i: nat)
    requires i <= 6
    ensures Start(width, i) == i * (width / 6) + (if i == 0 then 0 else if i - 1 < width % 6 then i - 1 else width % 6)
  {
    if i == 0 {
    } else {
      StartExact(width, i - 1);
      assert i * (width / 6) == (i - 1) * (width / 6) + width / 6;
    }
  }

  // Which component each column changes and how: green up, red down, blue up, green down, red up,
  // blue down, by 255 / (W / 6) in the odd columns of an area and by one more in the even ones.
  lemma {:induction false} ColumnChange(width: Width, i: AreaIndex, j: nat)
    ensures var c, d := RgbAt(width, i, j), RgbAt(width, i, j + 1);
      var step := 255 / (width / 6) + if j % 2 == 0 then 1 else 0;
      var up := (v: int) => if v + step > 255 then 255 else v + step;
      var down := (v: int) => if v < step then 0 else v - step;
      d == match i
        case 0 => [c[0], up(c[1]), c[2]]
        case 1 => [down(c[0]), c[1], c[2]]
        case 2 => [c[0], c[1], up(c[2])]
        case 3 => [c[0], down(c[1]), c[2]]
        case 4 => [up(c[0]), c[1], c[2]]
        case _ => [c[0], c[1], down(c[2])]
  {
    RgbInRange(width, i, j);
  }

  // The colour at the end of each area of a rainbow that saturates: yellow, green, cyan, blue,
  // magenta and red.
  lemma {:induction false} Corners(width: Width)
    requires 255 % (width / 6) <= (width / 6 + 1) / 2
    ensures RgbAt(width, 0, 0) == [255, 0, 0]
    ensures RgbAt(width, 0, Area(width, 0)) == [255, 255, 0]
    ensures RgbAt(width, 1, Area(width, 1)) == [0, 255, 0]
    ensures RgbAt(width, 2, Area(width, 2)) == [0, 255, 255]
    ensures RgbAt(width, 3, Area(width, 3)) == [0, 0, 255]
    ensures RgbAt(width, 4, Area(width, 4)) == [255, 0, 255]
    ensures RgbAt(width, 5, Area(width, 5)) == [255, 0, 0]
  {
    SaturationIff(width);
    AreaSaturates(width, 0);
    AreaSaturates(width, 1);
    AreaSaturates(width, 2);
    AreaSaturates(width, 3);
    AreaSaturates(width, 4);
    AreaSaturates(width, 5);
  }

  // There are widths of both kinds: at 768 columns green ends the first area below 255, and at
  // 1530 it does not.
  lemma {:induction false} BothKinds(dull: nat, bright: nat)
    requires dull == 768 && bright == 1530
    ensures !Saturates(dull, 0) && Saturates(bright, 0)
  {
    SaturatesByRemainder(dull, 128, 127);
    SaturatesByRemainder(bright, 255, 0);
  }

  lemma {:induction false} SaturatesByRemainder(width: Width, a: nat, rest: nat)
    requires width / 6 == a && 255 % a == rest
    ensures Saturates(width, 0) <==> rest <= (a + 1) / 2
  {
    RainbowSaturatesIff(width);
  }

  // ----- The drawing loop -----

  function Packed(c: Rgb): int {
    c[0] * 65536 + c[1] * 256 + c[2]
  }

  // The calls of fbDisplayColumn up to column j of area i: position and colour.
  function Columns(width: Width, i: nat, j: nat): (s: seq<(int, int)>)
    requires i <= 6 && (i == 6 ==> j == 0)
    decreases i, j
  {
    if j == 0 then
      if i == 0 then [] else Columns(width, i - 1, Area(width, i - 1))
    else Columns(width, i, j - 1) + [(Start(width, i) + j - 1, Packed(RgbAt(width, i, j)))]
  }

  lemma {:induction false} ColumnsInOrder(width: Width, i: nat, j: nat)
    requires i <= 6 && (i == 6 ==> j == 0)
    ensures |Columns(width, i, j)| == Start(width, i) + j
    ensures forall k :: 0 <= k < |Columns(width, i, j)| ==> Columns(width, i, j)[k].0 == k && 0 <= Columns(width, i, j)[k].1 <= 0xFFFFFF
    decreases i, j
  {
    if j > 0 {
      ColumnsInOrder(width, i, j - 1);
      RgbInRange(width, i, j);
    } else if i > 0 {
      ColumnsInOrder(width, i - 1, Area(width, i - 1));
    }
  }

  // Every column of the screen is drawn exactly once, from left to right.
  lemma {:induction false} EveryColumnOnce(width: Width)
    ensures |Columns(width, 6, 0)| == width
    ensures forall k :: 0 <= k < width ==> Columns(width, 6, 0)[k].0 == k
  {
    AreasPartition(width);
    ColumnsInOrder(width, 6, 0);
  }

  lemma {:induction false} ColumnsPrefix(width: Width, i: nat, j: nat, k: nat, l: nat)
    requires i <= 6 && k <= 6 && (i == 6 ==> j == 0) && (k == 6 ==> l == 0)
    requires i < k || (i == k && j <= l)
    requires i < 6 ==> j <= Area(width, i)
    ensures Columns(width, i, j) <= Columns(width, k, l)
    decreases k, l
  {
    if i == k && j == l {
    } else if l > 0 {
      ColumnsPrefix(width, i, j, k, l - 1);
    } else {
      ColumnsPrefix(width, i, j, k - 1, Area(width, k - 1));
    }
  }

  // The call for column j of area i: its place on the screen, and red, green and blue packed.
  lemma {:induction false} ColumnDrawn(width: Width, i: AreaIndex, j: nat)
    requires 1 <= j <= Area(width, i)
    ensures var n, c := Start(width, i) + j - 1, RgbAt(width, i, j);
      n < |Columns(width, 6, 0)| && Columns(width, 6, 0)[n] == (n, 65536 * c[0] + 256 * c[1] + c[2])
  {
    ColumnsInOrder(width, i, j);
    ColumnsInOrder(width, i, j - 1);
    ColumnsPrefix(width, i, j, 6, 0);
    var n := Start(width, i) + j - 1;
    assert Columns(width, i, j)[n] == Columns(width, 6, 0)[n];
  }

  // The two loops that divide the screen.
  method Areas(width: nat) returns (area: array<nat>)
    ensures fresh(area) && area.Length == 6
    ensures forall k :: 0 <= k < 6 ==> area[k] == Area(width, k)
  {
    area := new nat[6](_ => 0);
    for i := 0 to 6
      invariant forall k :: 0 <= k < i ==> area[k] == width / 6
    {
      area[i] := width / 6;
    }
    var i := width % 6;
    while i > 0
      invariant 0 <= i <= width % 6
      invariant forall k :: 0 <= k < 6 ==> area[k] == width / 6 + if i < k <= width % 6 then 1 else 0
    {
      area[i] := area[i] + 1;
      i := i - 1;
    }
  }

  // One column: a step of the area's component, the calibration and the call that draws.
  method DrawColumn(rgb: array<int>, i: nat, j: nat, tlrc: nat, x: int) returns (call: (int, int))
    requires rgb.Length == 3 && i < 6
    modifies rgb
    ensures rgb[..] == old(rgb[..])[CHANNEL[i] :=
      Calibrate(if i % 2 == 0 then old(rgb[..])[CHANNEL[i]] + Change(tlrc, j) else old(rgb[..])[CHANNEL[i]] - Change(tlrc, j))]
    ensures call == (x, Packed(rgb[..]))
  {
    var t := CHANNEL;
    var p := t[i];
    if i % 2 != 0 {
      rgb[p] := rgb[p] - if j % 2 != 0 then tlrc else tlrc + 1;
    } else {
      rgb[p] := rgb[p] + if j % 2 != 0 then tlrc else tlrc + 1;
    }
    rgb[p] := Calibrate(rgb[p]);
    call := (x, rgb[0] * 65536 + rgb[1] * 256 + rgb[2]);
  }

  method DrawArea(width: Width, rgb: array<int>, i: AreaIndex, n: nat, tlrc: nat, start: nat) returns (drawn: seq<(int, int)>)
    requires n == Area(width, i) && tlrc == Tolerance(width) && start == Start(width, i)
    requires rgb.Length == 3 && rgb[..] == RgbAt(width, i, 0)
    modifies rgb
    ensures rgb[..] == RgbAt(width, i, n)
    ensures Columns(width, i, 0) + drawn == Columns(width, i, n)
  {
    drawn := [];
    for j := 0 to n
      invariant rgb[..] == RgbAt(width, i, j)
      invariant Columns(width, i, 0) + drawn == Columns(width, i, j)
    {
      var call := DrawColumn(rgb, i, j, tlrc, start + j);
      assert Columns(width, i, 0) + (drawn + [call]) == (Columns(width, i, 0) + drawn) + [call];
      drawn := drawn + [call];
    }
  }

  method FbShowRainbow(width: Width) returns (drawn: seq<(int, int)>)
    ensures drawn == Columns(width, 6, 0)
  {
    var area := Areas(width);
    var rgb := new int[] [255, 0, 0];
    assert area[0] == Area(width, 0) == width / 6;
    var tlrc := 255 / area[0];
    var x := 0;
    drawn := [];
    for i := 0 to 6
      invariant x == Start(width, i) && drawn == Columns(width, i, 0)
      invariant forall k :: 0 <= k < 6 ==> area[k] == Area(width, k)
      invariant i < 6 ==> rgb[..] == RgbAt(width, i, 0)
    {
      var more := DrawArea(width, rgb, i, area[i], tlrc, x);
      drawn := drawn + more;
      x := x + area[i];
    }
  }
}
