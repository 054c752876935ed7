/** Showing the row buffer of a GIF: colour-map conversion into a byte buffer, and drawing from
    it on a 32-bit framebuffer. */
module GifDisplay {
  import opened Basics
  import opened Arithmetic
  import opened Framebuffer
  import opened GifInterlace

  // unsigned char rgbBuf[800 * 480]
  const RGB_SIZE := 800 * 480

  datatype Color = Color(red: Byte, green: Byte, blue: Byte)

  function Value(c: Color): int {
    c.red as int * 65536 + c.green as int * 256 + c.blue as int
  }

  // ----- Conversion -----

  ghost predicate Indexes(row: seq<Byte>, colors: seq<Color>) {
    forall k :: 0 <= k < |row| ==> row[k] as int < |colors|
  }

  // A row of the buffer as bytes: blue, green, red for each entry.
  function BgrRow(row: seq<Byte>, colors: seq<Color>): (r: seq<Byte>)
    requires Indexes(row, colors)
    ensures |r| == 3 * |row|
  {
    if row == [] then [] else
      var n := |row| - 1;
      var c := colors[row[n]];
      BgrRow(row[..n], colors) + [c.blue, c.green, c.red]
  }

  lemma {:induction false} BgrRowAt(row: seq<Byte>, colors: seq<Color>, k: nat)
    requires Indexes(row, colors) && k < |row|
    ensures BgrRow(row, colors)[3 * k..3 * k + 3] == [colors[row[k]].blue, colors[row[k]].green, colors[row[k]].red]
  {
    if k == |row| - 1 {
    } else {
      BgrRowAt(row[..|row| - 1], colors, k);
    }
  }

  // One entry: three stores through the moving pointer.
  method ConvertEntry(entry: Color, inRgb: array<Byte>, p: nat, rgbBuf: nat)
    requires p <= rgbBuf && rgbBuf + 3 <= inRgb.Length
    modifies inRgb
    ensures inRgb[p..rgbBuf + 3] == old(inRgb[p..rgbBuf]) + [entry.blue, entry.green, entry.red]
    ensures inRgb[..p] == old(inRgb[..p])
  {
    inRgb[rgbBuf] := entry.blue;
    inRgb[rgbBuf + 1] := entry.green;
    inRgb[rgbBuf + 2] := entry.red;
  }

  // The inner loop of GifBufferToRgb888, from byte p of the buffer on.
  method ConvertRow(colors: seq<Color>, inRgb: array<Byte>, p: nat, buffer: array2<Byte>, idxH: nat)
    requires idxH < buffer.Length0 && p + 3 * buffer.Length1 <= inRgb.Length
    requires Indexes(Grid(buffer)[idxH], colors)
    modifies inRgb
    ensures inRgb[p..p + 3 * buffer.Length1] == BgrRow(Grid(buffer)[idxH], colors)
    ensures inRgb[..p] == old(inRgb[..p])
  {
    ghost var row := Grid(buffer)[idxH];
    var rgbBuf := p;
    for idxW := 0 to buffer.Length1
      invariant rgbBuf == p + 3 * idxW
      invariant inRgb[p..rgbBuf] == BgrRow(row[..idxW], colors)
      invariant inRgb[..p] == old(inRgb[..p])
    {
      assert row[..idxW + 1][..idxW] == row[..idxW];
      ConvertEntry(colors[buffer[idxH, idxW]], inRgb, p, rgbBuf);
      rgbBuf := rgbBuf + 3;
    }
    assert row[..buffer.Length1] == row;
  }

  ghost predicate Converted(rgb: seq<Byte>, rows: Rows, colors: seq<Color>, width: nat, height: nat)
  {
    && height <= |rows|
    && (forall j :: 0 <= j < height ==> |rows[j]| == width && Indexes(rows[j], colors))
    && (forall j :: 0 <= j < height ==> (j + 1) * (3 * width) <= |rgb| && ImageRow(rgb, 3 * width, j) == BgrRow(rows[j], colors))
  }

  method GifBufferToRgb888(colors: seq<Color>, inRgb: array<Byte>, buffer: array2<Byte>)
    requires buffer.Length0 * (3 * buffer.Length1) <= inRgb.Length
    requires forall j :: 0 <= j < buffer.Length0 ==> Indexes(Grid(buffer)[j], colors)
    modifies inRgb
    ensures Converted(inRgb[..], Grid(buffer), colors, buffer.Length1, buffer.Length0)
  {
    for idxH := 0 to buffer.Length0
      invariant Converted(inRgb[..], Grid(buffer), colors, buffer.Length1, idxH)
    {
      MulMono(idxH + 1, buffer.Length0, 3 * buffer.Length1);
      ConvertNext(colors, inRgb, buffer, idxH);
    }
  }

  // One pass of the outer loop.
  method ConvertNext(colors: seq<Color>, inRgb: array<Byte>, buffer: array2<Byte>, idxH: nat)
    requires idxH < buffer.Length0 && (idxH + 1) * (3 * buffer.Length1) <= inRgb.Length
    requires Indexes(Grid(buffer)[idxH], colors)
    requires Converted(inRgb[..], Grid(buffer), colors, buffer.Length1, idxH)
    modifies inRgb
    ensures Converted(inRgb[..], Grid(buffer), colors, buffer.Length1, idxH + 1)
  {
    ghost var before, rows := inRgb[..], Grid(buffer);
    var stride := 3 * buffer.Length1;
    var rgbBuf := idxH * stride;
    assert (idxH + 1) * stride == rgbBuf + stride;
    ConvertRow(colors, inRgb, rgbBuf, buffer, idxH);
    assert Grid(buffer) == rows;
    NextRow(before, inRgb[..], rows, colors, buffer.Length1, idxH);
  }

  // Writing row n behind the rows before it.
  lemma {:induction false} NextRow(before: seq<Byte>, after: seq<Byte>, rows: Rows, colors: seq<Color>, width: nat, n: nat)
    requires Converted(before, rows, colors, width, n) && |after| == |before|
    requires n < |rows| && |rows[n]| == width && Indexes(rows[n], colors) && (n + 1) * (3 * width) <= |after|
    requires n * (3 * width) <= |before| && before[..n * (3 * width)] == after[..n * (3 * width)]
    requires ImageRow(after, 3 * width, n) == BgrRow(rows[n], colors)
    ensures Converted(after, rows, colors, width, n + 1)
  {
    KeepsRows(before, after, rows, colors, width, n);
  }

  // Writing behind the first rows leaves them as they are.
  lemma {:induction false} KeepsRows(before: seq<Byte>, after: seq<Byte>, rows: Rows, colors: seq<Color>, width: nat, n: nat)
    requires Converted(before, rows, colors, width, n) && |after| == |before|
    requires n * (3 * width) <= |before| && before[..n * (3 * width)] == after[..n * (3 * width)]
    ensures Converted(after, rows, colors, width, n)
  {
    forall j | 0 <= j < n
      ensures (j + 1) * (3 * width) <= |after| && ImageRow(after, 3 * width, j) == ImageRow(before, 3 * width, j)
    {
      KeepsRow(before, after, width, n, j);
    }
  }

  lemma {:induction false} KeepsRow(before: seq<Byte>, after: seq<Byte>, width: nat, n: nat, j: nat)
    requires j < n && n * (3 * width) <= |before| == |after|
    requires before[..n * (3 * width)] == after[..n * (3 * width)]
    ensures (j + 1) * (3 * width) <= |after| && ImageRow(after, 3 * width, j) == ImageRow(before, 3 * width, j)
  {
    MulMono(j + 1, n, 3 * width);
    SameSlice(before, after, j * (3 * width), (j + 1) * (3 * width), n * (3 * width));
  }

  lemma {:induction false} SameSlice(s: seq<Byte>, t: seq<Byte>, lo: nat, hi: nat, end: nat)
    requires lo <= hi <= end <= |s| && end <= |t| && s[..end] == t[..end]
    ensures s[lo..hi] == t[lo..hi]
  {
    assert s[lo..hi] == s[..end][lo..hi] && t[lo..hi] == t[..end][lo..hi];
  }

  // ----- Drawing -----

  // The RGB888 line with the colours of a line in blue, green, red order.
  function Swapped(line: seq<Byte>): (r: seq<Byte>)
    ensures |r| == |line|
  {
    if |line| < 3 then line else [line[2], line[1], line[0]] + Swapped(line[3..])
  }

  lemma {:induction false} SwappedAt(line: seq<Byte>, k: nat)
    requires 3 * k + 2 < |line|
    ensures LineColor(Swapped(line), k) == BgrColor(line, k)
  {
    if k == 0 {
    } else {
      SwappedAt(line[3..], k - 1);
    }
  }

  // The memory after n rows of the byte buffer have been drawn.
  ghost function FrameDrawn(g: Geometry, m: Memory, x: int, y: int, rgb: seq<Byte>, width: nat, n: nat): (r: Memory)
    requires n * (3 * width) <= |rgb|
    ensures |r| == |m|
  {
    if n == 0 then m
    else
      MulMono(n - 1, n, 3 * width);
      LineDrawn(g, FrameDrawn(g, m, x, y, rgb, width, n - 1), x, y + n - 1, width, Swapped(ImageRow(rgb, 3 * width, n - 1)))
  }

  // Which bytes that is: the pixels of the rectangle, each once, and no others.
  lemma {:induction false} FrameAt(g: Geometry, m: Memory, x: int, y: int, rgb: seq<Byte>, width: nat, n: nat, b: nat)
    requires n * (3 * width) <= |rgb| && !Blank(g) && b < |m|
    ensures y <= Row(g, b) < y + n ==> (Row(g, b) - y + 1) * (3 * width) <= |rgb|
    ensures FrameDrawn(g, m, x, y, rgb, width, n)[b] ==
      if y <= Row(g, b) < y + n && x <= Column(g, b) < x + width
      then Pack(g.bitsPerPixel, LineColor(Swapped(ImageRow(rgb, 3 * width, Row(g, b) - y)), Column(g, b) - x))[b % Depth(g)]
      else m[b]
  {
    if n == 0 {
    } else {
      MulMono(n - 1, n, 3 * width);
      FrameAt(g, m, x, y, rgb, width, n - 1, b);
      FrameStepAt(g, m, x, y, rgb, width, n - 1, b);
    }
  }

  lemma {:induction false} FrameStepAt(g: Geometry, m: Memory, x: int, y: int, rgb: seq<Byte>, width: nat, j: nat, b: nat)
    requires (j + 1) * (3 * width) <= |rgb| && j * (3 * width) <= |rgb| && !Blank(g) && b < |m|
    ensures FrameDrawn(g, m, x, y, rgb, width, j + 1)[b] ==
      if Row(g, b) == y + j && x <= Column(g, b) < x + width
      then Pack(g.bitsPerPixel, LineColor(Swapped(ImageRow(rgb, 3 * width, j)), Column(g, b) - x))[b % Depth(g)]
      else FrameDrawn(g, m, x, y, rgb, width, j)[b]
  {
    var before := FrameDrawn(g, m, x, y, rgb, width, j);
    assert FrameDrawn(g, m, x, y, rgb, width, j + 1)
      == LineDrawn(g, before, x, y + j, width, Swapped(ImageRow(rgb, 3 * width, j)));
  }

  // ----- The stores of the drawing loops, wherever they fall on the screen -----

  function LcdAddress(g: Geometry, x: nat, y: nat): nat {
    y * g.xres * g.bitsPerPixel / 8 + x * g.bitsPerPixel / 8
  }

  predicate PointFits(g: Geometry, size: nat, x: nat, y: nat) {
    LcdAddress(g, x, y) + 4 <= size
  }

  predicate LineFits(g: Geometry, size: nat, x: nat, y: nat, width: nat) {
    width == 0 || (LineFits(g, size, x, y, width - 1) && PointFits(g, size, x + width - 1, y))
  }

  // The four bytes of every point lie in the mapped memory.
  predicate FrameFits(g: Geometry, size: nat, x: nat, y: nat, width: nat, height: nat) {
    height == 0 || (FrameFits(g, size, x, y, width, height - 1) && LineFits(g, size, x, y + height - 1, width))
  }

  lemma {:induction false} PointInLine(g: Geometry, size: nat, x: nat, y: nat, width: nat, w: nat)
    requires LineFits(g, size, x, y, width) && w < width
    ensures LineFits(g, size, x, y, w) && PointFits(g, size, x + w, y)
  {
    if w == width - 1 {
    } else {
      PointInLine(g, size, x, y, width - 1, w);
    }
  }

  lemma {:induction false} LineInFrame(g: Geometry, size: nat, x: nat, y: nat, width: nat, height: nat, h: nat)
    requires FrameFits(g, size, x, y, width, height) && h < height
    ensures FrameFits(g, size, x, y, width, h) && LineFits(g, size, x, y + h, width)
  {
    if h == height - 1 {
    } else {
      LineInFrame(g, size, x, y, width, height - 1, h);
    }
  }

  // Point k of a line in blue, green, red order.
  function BgrColor(line: seq<Byte>, k: nat): int
    requires 3 * k + 2 < |line|
  {
    line[3 * k + 2] as int * 65536 + line[3 * k + 1] as int * 256 + line[3 * k] as int
  }

  function PointStored(g: Geometry, m: Memory, x: nat, y: nat, color: int): (r: Memory)
    requires PointFits(g, |m|, x, y)
    ensures |r| == |m|
  {
    Spliced(m, LcdAddress(g, x, y), Pack(32, color))
  }

  function LineStored(g: Geometry, m: Memory, x: nat, y: nat, line: seq<Byte>, k: nat): (r: Memory)
    requires 3 * k <= |line| && LineFits(g, |m|, x, y, k)
    ensures |r| == |m|
  {
    if k == 0 then m else PointStored(g, LineStored(g, m, x, y, line, k - 1), x + k - 1, y, BgrColor(line, k - 1))
  }

  function FrameStored(g: Geometry, m: Memory, x: nat, y: nat, rgb: seq<Byte>, width: nat, n: nat): (r: Memory)
    requires n * (3 * width) <= |rgb| && FrameFits(g, |m|, x, y, width, n)
    ensures |r| == |m|
  {
    if n == 0 then m
    else
      MulMono(n - 1, n, 3 * width);
      LineStored(g, FrameStored(g, m, x, y, rgb, width, n - 1), x, y + n - 1, ImageRow(rgb, 3 * width, n - 1), width)
  }

  // On a 32-bit screen a point is a pixel.
  lemma {:induction false} PointIsPixel(g: Geometry, m: Memory, x: nat, y: nat, color: int)
    requires g.bitsPerPixel == 32 && x < g.xres && y < g.yres && |m| == MemorySize(g)
    ensures PointFits(g, |m|, x, y) && PointStored(g, m, x, y, color) == PixelDrawn(g, m, x, y, color)
  {
    LcdIsAddress(g, x, y);
    OnScreenInside(g, x, y);
    PixelBytes(g, |m|, x, y);
    var s, d := PointStored(g, m, x, y, color), PixelDrawn(g, m, x, y, color);
    forall b | 0 <= b < |m| ensures s[b] == d[b] {}
  }

  lemma {:induction false} LcdIsAddress(g: Geometry, x: nat, y: nat)
    requires g.bitsPerPixel == 32
    ensures LcdAddress(g, x, y) == Address(g, x, y)
  {
    Eighths(y * g.xres, g.bitsPerPixel);
    Eighths(x, g.bitsPerPixel);
    Eighths(y * g.xres + x, g.bitsPerPixel);
  }

  lemma {:induction false} Eighths(n: nat, bits: nat)
    requires bits == 32
    ensures n * bits / 8 == 4 * n
  {}

  lemma {:induction false} LineIsDrawn(g: Geometry, m: Memory, x: nat, y: nat, line: seq<Byte>, k: nat)
    requires g.bitsPerPixel == 32 && x + k <= g.xres && y < g.yres && |m| == MemorySize(g) && 3 * k <= |line|
    ensures LineFits(g, |m|, x, y, k) && LineStored(g, m, x, y, line, k) == LineDrawn(g, m, x, y, k, Swapped(line))
  {
    if k == 0 {
      LineStart(g, m, x, y, Swapped(line));
    } else {
      var i := k - 1;
      LineIsDrawn(g, m, x, y, line, i);
      var before := LineStored(g, m, x, y, line, i);
      PointIsPixel(g, before, x + i, y, BgrColor(line, i));
      SwappedAt(line, i);
      LineStep(g, m, x, y, i, Swapped(line));
    }
  }

  // On the screen the stores are the drawing of the frame, each pixel once and no other.
  lemma {:induction false} FrameIsDrawn(g: Geometry, m: Memory, x: nat, y: nat, rgb: seq<Byte>, width: nat, n: nat)
    requires g.bitsPerPixel == 32 && x + width <= g.xres && y + n <= g.yres && |m| == MemorySize(g)
    requires n * (3 * width) <= |rgb|
    ensures FrameFits(g, |m|, x, y, width, n) && FrameStored(g, m, x, y, rgb, width, n) == FrameDrawn(g, m, x, y, rgb, width, n)
  {
    if n == 0 {
    } else {
      var j := n - 1;
      MulMono(j, n, 3 * width);
      FrameIsDrawn(g, m, x, y, rgb, width, j);
      LineIsDrawn(g, FrameStored(g, m, x, y, rgb, width, j), x, y + j, ImageRow(rgb, 3 * width, j), width);
    }
  }

  // LCD_WritePoint: an unclipped 32-bit store, which must stay in the mapped memory.
  method LcdWritePoint(fb: FrameBuffer, x: nat, y: nat, color: int)
    requires PointFits(fb.g, fb.mem.Length, x, y)
    modifies fb.mem
    ensures fb.mem[..] == PointStored(fb.g, old(fb.mem[..]), x, y, color)
  {
    var g := fb.g;
    var lcd := y * g.xres * g.bitsPerPixel / 8 + x * g.bitsPerPixel / 8;
    fb.Store(lcd, Pack(32, color));
  }

  // w points of a line have been drawn, and the pointer stands at the next.
  ghost predicate LineUpTo(g: Geometry, m: Memory, now: Memory, x: nat, y: nat, line: seq<Byte>, w: nat, p: nat, q: nat) {
    && q == p + 3 * w && 3 * w <= |line|
    && LineFits(g, |m|, x, y, w)
    && now == LineStored(g, m, x, y, line, w)
  }

  // The inner loop of FrameBufferDraw, from byte p of the buffer on.
  method DrawRow(fb: FrameBuffer, x: nat, y: nat, width: nat, rgbBuf: array<Byte>, p: nat)
    requires fb.mem != rgbBuf && p + 3 * width <= rgbBuf.Length && LineFits(fb.g, fb.mem.Length, x, y, width)
    modifies fb.mem
    ensures fb.mem[..] == LineStored(fb.g, old(fb.mem[..]), x, y, rgbBuf[p..p + 3 * width], width)
  {
    var q: nat := p;
    ghost var m, rgb, line := fb.mem[..], rgbBuf[..], rgbBuf[p..p + 3 * width];
    for w := 0 to width
      invariant rgbBuf[..] == rgb && LineUpTo(fb.g, m, fb.mem[..], x, y, line, w, p, q)
    {
      ghost var now := fb.mem[..];
      NextPoint(fb.g, m, now, x, y, line, width, w, p, q);
      SamePoint(rgb, line, p, width, w, q);
      var px := w + x;
      q := DrawPoint(fb, px, y, rgbBuf, q, BgrColor(line, w));
      assert fb.mem[..] == PointStored(fb.g, now, x + w, y, BgrColor(line, w));
    }
  }

  lemma {:induction false} NextPoint(g: Geometry, m: Memory, now: Memory, x: nat, y: nat, line: seq<Byte>, width: nat, w: nat, p: nat, q: nat)
    requires w < width && 3 * width <= |line| && LineFits(g, |m|, x, y, width) && LineUpTo(g, m, now, x, y, line, w, p, q)
    ensures PointFits(g, |m|, x + w, y) && |now| == |m|
    ensures LineUpTo(g, m, PointStored(g, now, x + w, y, BgrColor(line, w)), x, y, line, w + 1, p, q + 3)
  {
    PointInLine(g, |m|, x, y, width, w);
  }

  lemma {:induction false} SamePoint(rgb: seq<Byte>, line: seq<Byte>, p: nat, width: nat, w: nat, q: nat)
    requires p + 3 * width <= |rgb| && line == rgb[p..p + 3 * width] && w < width && q == p + 3 * w
    ensures BgrColor(line, w) == rgb[q + 2] as int * 65536 + rgb[q + 1] as int * 256 + rgb[q] as int
  {
    assert line[3 * w] == rgb[q] && line[3 * w + 1] == rgb[q + 1] && line[3 * w + 2] == rgb[q + 2];
  }

  // One point of it: three bytes through the moving pointer.
  method DrawPoint(fb: FrameBuffer, x: nat, y: nat, rgbBuf: array<Byte>, q: nat, ghost c: int) returns (next: nat)
    requires fb.mem != rgbBuf && q + 3 <= rgbBuf.Length && PointFits(fb.g, fb.mem.Length, x, y)
    requires c == rgbBuf[q + 2] as int * 65536 + rgbBuf[q + 1] as int * 256 + rgbBuf[q] as int
    modifies fb.mem
    ensures next == q + 3 && fb.mem[..] == PointStored(fb.g, old(fb.mem[..]), x, y, c)
  {
    var blue, green, red := rgbBuf[q], rgbBuf[q + 1], rgbBuf[q + 2];
    var color := red as int * 65536 + green as int * 256 + blue as int;
    LcdWritePoint(fb, x, y, color);
    next := q + 3;
  }

  method FrameBufferDraw(fb: FrameBuffer, x: nat, y: nat, width: nat, height: nat, rgbBuf: array<Byte>)
    requires fb.mem != rgbBuf && height * (3 * width) <= rgbBuf.Length && FrameFits(fb.g, fb.mem.Length, x, y, width, height)
    modifies fb.mem
    ensures fb.mem[..] == FrameStored(fb.g, old(fb.mem[..]), x, y, rgbBuf[..], width, height)
  {
    var p: nat := 0;
    ghost var m, rgb := fb.mem[..], rgbBuf[..];
    for h := 0 to height
      invariant rgbBuf[..] == rgb && FrameUpTo(fb.g, m, fb.mem[..], x, y, rgb, width, h, p)
    {
      MulMono(h + 1, height, 3 * width);
      LineInFrame(fb.g, |m|, x, y, width, height, h);
      NextLine(fb.g, m, fb.mem[..], x, y, rgb, width, h, p);
      assert rgbBuf[p..p + 3 * width] == rgb[p..p + 3 * width];
      DrawRow(fb, x, y + h, width, rgbBuf, p);
      p := p + 3 * width;
    }
  }

  // h rows have been drawn, and the pointer stands at the next.
  ghost predicate FrameUpTo(g: Geometry, m: Memory, now: Memory, x: nat, y: nat, rgb: seq<Byte>, width: nat, h: nat, p: nat) {
    && p == h * (3 * width) <= |rgb|
    && FrameFits(g, |m|, x, y, width, h)
    && now == FrameStored(g, m, x, y, rgb, width, h)
  }

  lemma {:induction false} NextLine(g: Geometry, m: Memory, now: Memory, x: nat, y: nat, rgb: seq<Byte>, width: nat, h: nat, p: nat)
    requires (h + 1) * (3 * width) <= |rgb| && LineFits(g, |m|, x, y + h, width)
    requires FrameUpTo(g, m, now, x, y, rgb, width, h, p)
    ensures p + 3 * width <= |rgb| && |now| == |m|
    ensures FrameUpTo(g, m, LineStored(g, now, x, y + h, rgb[p..p + 3 * width], width), x, y, rgb, width, h + 1, p + 3 * width)
  {
    RowOfBytes(rgb, 3 * width, h, p);
  }

  lemma {:induction false} RowOfBytes(rgb: seq<Byte>, stride: nat, h: nat, p: nat)
    requires (h + 1) * stride <= |rgb| && p == h * stride
    ensures p + stride == (h + 1) * stride && rgb[p..p + stride] == ImageRow(rgb, stride, h)
  {
    assert (h + 1) * stride == h * stride + stride;
  }

  // ----- Both together -----

  lemma {:induction false} ConvertedColor(rgb: seq<Byte>, rows: Rows, colors: seq<Color>, width: nat, height: nat, r: nat, c: nat)
    requires Converted(rgb, rows, colors, width, height) && r < height && c < width
    requires (r + 1) * (3 * width) <= |rgb| && |rows[r]| == width && Indexes(rows[r], colors)
    ensures LineColor(Swapped(ImageRow(rgb, 3 * width, r)), c) == Value(colors[rows[r][c]])
  {
    var line := ImageRow(rgb, 3 * width, r);
    BgrRowAt(rows[r], colors, c);
    assert line[3 * c..3 * c + 3][0] == line[3 * c] && line[3 * c..3 * c + 3][1] == line[3 * c + 1] && line[3 * c..3 * c + 3][2] == line[3 * c + 2];
    SwappedAt(line, c);
  }

  ghost predicate AllIndexes(rows: Rows, colors: seq<Color>) {
    forall j :: 0 <= j < |rows| ==> Indexes(rows[j], colors)
  }

  // The screen shows at (x, y) the colour that the colour map gives each entry of the rows, and
  // everywhere else what it showed before.
  ghost predicate Shows(g: Geometry, before: Memory, after: Memory, x: int, y: int, rows: Rows, colors: seq<Color>)
    requires AllIndexes(rows, colors)
  {
    forall px: nat, py: nat, k: nat :: px < g.xres && py < g.yres && k < 4 ==>
      ByteIn(g, after, px, py, k) ==
        if y <= py < y + |rows| && x <= px < x + |rows[py - y]| then Pack(32, Value(colors[rows[py - y][px - x]]))[k]
        else ByteIn(g, before, px, py, k)
  }

  lemma {:induction false} FramePixel(g: Geometry, m: Memory, x: int, y: int, rgb: seq<Byte>, width: nat, height: nat, px: nat, py: nat, k: nat)
    requires g.bitsPerPixel == 32 && |m| == MemorySize(g) && height * (3 * width) <= |rgb|
    requires px < g.xres && py < g.yres && k < 4
    ensures y <= py < y + height ==> (py - y + 1) * (3 * width) <= |rgb|
    ensures ByteIn(g, FrameDrawn(g, m, x, y, rgb, width, height), px, py, k) ==
      if y <= py < y + height && x <= px < x + width
      then Pack(32, LineColor(Swapped(ImageRow(rgb, 3 * width, py - y)), px - x))[k]
      else ByteIn(g, m, px, py, k)
  {
    PixelOfAddress(g, px, py, k);
    FrameAt(g, m, x, y, rgb, width, height, Address(g, px, py) + k);
  }

  lemma {:induction false} FrameShowsBuffer(g: Geometry, m: Memory, x: int, y: int, rgb: seq<Byte>, rows: Rows, colors: seq<Color>,
                         width: nat, px: nat, py: nat, k: nat)
    requires g.bitsPerPixel == 32 && |m| == MemorySize(g) && |rows| * (3 * width) <= |rgb|
    requires Converted(rgb, rows, colors, width, |rows|)
    requires px < g.xres && py < g.yres && k < 4
    ensures 0 <= py - y < |rows| ==> |rows[py - y]| == width && Indexes(rows[py - y], colors)
    ensures ByteIn(g, FrameDrawn(g, m, x, y, rgb, width, |rows|), px, py, k) ==
      if y <= py < y + |rows| && x <= px < x + width then Pack(32, Value(colors[rows[py - y][px - x]]))[k]
      else ByteIn(g, m, px, py, k)
  {
    FramePixel(g, m, x, y, rgb, width, |rows|, px, py, k);
    if y <= py < y + |rows| && x <= px < x + width {
      ConvertedColor(rgb, rows, colors, width, |rows|, py - y, px - x);
    }
  }

  // Conversion followed by drawing shows the rows.
  lemma {:induction false} FrameShows(g: Geometry, m: Memory, x: int, y: int, rgb: seq<Byte>, rows: Rows, colors: seq<Color>, width: nat)
    requires g.bitsPerPixel == 32 && |m| == MemorySize(g) && |rows| * (3 * width) <= |rgb|
    requires Converted(rgb, rows, colors, width, |rows|) && AllIndexes(rows, colors)
    ensures Shows(g, m, FrameDrawn(g, m, x, y, rgb, width, |rows|), x, y, rows, colors)
  {
    forall px: nat, py: nat, k: nat | px < g.xres && py < g.yres && k < 4
      ensures ByteIn(g, FrameDrawn(g, m, x, y, rgb, width, |rows|), px, py, k) ==
        if y <= py < y + |rows| && x <= px < x + |rows[py - y]| then Pack(32, Value(colors[rows[py - y][px - x]]))[k]
        else ByteIn(g, m, px, py, k)
    {
      FrameShowsBuffer(g, m, x, y, rgb, rows, colors, width, px, py, k);
    }
  }

  // The frame lies on a 32-bit screen.
  ghost predicate OnScreen(fb: FrameBuffer, x: nat, y: nat, width: nat, height: nat) {
    fb.Valid() && fb.g.bitsPerPixel == 32 && x + width <= fb.g.xres && y + height <= fb.g.yres
  }

  // One frame, as LCD_DisplayGIF shows it: the fixed byte buffer must hold it, and all stores
  // must stay in the mapped memory.
  method ShowFrame(fb: FrameBuffer, x: nat, y: nat, colors: seq<Color>, buffer: array2<Byte>) returns (ghost rgb: seq<Byte>)
    requires FrameFits(fb.g, fb.mem.Length, x, y, buffer.Length1, buffer.Length0)
    requires buffer.Length0 * (3 * buffer.Length1) <= RGB_SIZE
    requires AllIndexes(Grid(buffer), colors)
    modifies fb.mem
    ensures |rgb| == RGB_SIZE && Converted(rgb, Grid(buffer), colors, buffer.Length1, buffer.Length0)
    ensures fb.mem[..] == FrameStored(fb.g, old(fb.mem[..]), x, y, rgb, buffer.Length1, buffer.Length0)
    ensures OnScreen(fb, x, y, buffer.Length1, buffer.Length0) ==>
      Shows(fb.g, old(fb.mem[..]), fb.mem[..], x, y, Grid(buffer), colors)
  {
    var rgbBuf := new Byte[RGB_SIZE](_ => 0);
    ghost var m, rows := fb.mem[..], Grid(buffer);
    GifBufferToRgb888(colors, rgbBuf, buffer);
    rgb := rgbBuf[..];
    FrameBufferDraw(fb, x, y, buffer.Length1, buffer.Length0, rgbBuf);
    assert Grid(buffer) == rows;
    if OnScreen(fb, x, y, buffer.Length1, buffer.Length0) {
      StoredShows(fb.g, m, x, y, rgb, rows, colors, buffer.Length1);
    }
  }

  lemma {:induction false} StoredShows(g: Geometry, m: Memory, x: nat, y: nat, rgb: seq<Byte>, rows: Rows, colors: seq<Color>, width: nat)
    requires g.bitsPerPixel == 32 && |m| == MemorySize(g) && |rows| * (3 * width) <= |rgb|
    requires x + width <= g.xres && y + |rows| <= g.yres
    requires Converted(rgb, rows, colors, width, |rows|) && AllIndexes(rows, colors)
    ensures FrameFits(g, |m|, x, y, width, |rows|)
    ensures Shows(g, m, FrameStored(g, m, x, y, rgb, width, |rows|), x, y, rows, colors)
  {
    FrameIsDrawn(g, m, x, y, rgb, width, |rows|);
    FrameShows(g, m, x, y, rgb, rows, colors, width);
  }

  // ----- A frame from its lines to the screen -----

  // The lines of an image as a GIF stream holds them.
  ghost predicate LinesFor(lines: Rows, image: Rows, interlace: bool) {
    |lines| == |image| && forall k :: 0 <= k < |lines| ==> lines[k] == image[if interlace then Interlaced(|image|)[k] else k]
  }

  // The row buffer once the image has been put in its place.
  ghost function WithImage(rows: Rows, image: Rows, top: nat, left: nat, width: nat): (t: Rows)
    requires Fits(rows, top, left, width, |image|) && LinesOf(image, width)
    ensures |t| == |rows| && forall i :: 0 <= i < |rows| ==> |t[i]| == |rows[i]|
  {
    Placed(rows, Progressive(|image|), image, top, left, width, |image|)
  }

  // Which rows that is: line i - top of the image between what was to its left and right, in
  // the rows of the image, and what was there in all others.
  lemma {:induction false} WithImageAt(rows: Rows, image: Rows, top: nat, left: nat, width: nat, i: nat)
    requires Fits(rows, top, left, width, |image|) && LinesOf(image, width) && i < |rows|
    ensures WithImage(rows, image, top, left, width)[i] ==
      if top <= i < top + |image| then rows[i][..left] + image[i - top] + rows[i][left + width..] else rows[i]
  {
    var order := Progressive(|image|);
    if top <= i < top + |image| {
      PlacedRow(rows, order, image, top, left, width, |image|, i, i - top);
    } else {
      PlacedAt(rows, order, image, top, left, width, |image|, i);
    }
  }

  lemma {:induction false} IndexesKept(rows: Rows, image: Rows, top: nat, left: nat, width: nat, colors: seq<Color>)
    requires Fits(rows, top, left, width, |image|) && LinesOf(image, width)
    requires AllIndexes(rows, colors) && AllIndexes(image, colors)
    ensures AllIndexes(WithImage(rows, image, top, left, width), colors)
  {
    var t := WithImage(rows, image, top, left, width);
    forall i | 0 <= i < |t| ensures Indexes(t[i], colors) {
      WithImageAt(rows, image, top, left, width, i);
    }
  }

  // The reading loops: the lines of the stream, interlaced or not, put the image in its place.
  method ReadFrame(buffer: array2<Byte>, top: nat, left: nat, width: nat, interlace: bool, lines: Rows, ghost image: Rows)
    requires top + |lines| <= buffer.Length0 && left + width <= buffer.Length1
    requires LinesOf(lines, width) && LinesOf(image, width) && LinesFor(lines, image, interlace)
    modifies buffer
    ensures Grid(buffer) == WithImage(old(Grid(buffer)), image, top, left, width)
  {
    ghost var rows := Grid(buffer);
    if interlace {
      ReadInterlaced(buffer, top, left, width, |lines|, lines);
      InterlacedIsProgressive(rows, image, lines, top, left, width, |lines|);
    } else {
      ReadProgressive(buffer, top, left, width, |lines|, lines);
      assert lines == image;
    }
  }

  // A frame of the record loop, from its lines to the screen. Without a colour map it is read
  // and not shown.
  method DisplayFrame(fb: FrameBuffer, x: nat, y: nat, buffer: array2<Byte>, top: nat, left: nat, width: nat, interlace: bool,
                      lines: Rows, colorMap: Option<seq<Color>>, ghost image: Rows)
    requires colorMap.Some? ==> FrameFits(fb.g, fb.mem.Length, x, y, buffer.Length1, buffer.Length0)
    requires colorMap.Some? ==> buffer.Length0 * (3 * buffer.Length1) <= RGB_SIZE
    requires top + |lines| <= buffer.Length0 && left + width <= buffer.Length1
    requires LinesOf(lines, width) && LinesOf(image, width) && LinesFor(lines, image, interlace)
    requires colorMap.Some? ==> AllIndexes(Grid(buffer), colorMap.value) && AllIndexes(image, colorMap.value)
    modifies buffer, fb.mem
    ensures Grid(buffer) == WithImage(old(Grid(buffer)), image, top, left, width)
    ensures colorMap == None ==> fb.mem[..] == old(fb.mem[..])
    ensures colorMap.Some? ==> AllIndexes(Grid(buffer), colorMap.value)
    ensures colorMap.Some? && OnScreen(fb, x, y, buffer.Length1, buffer.Length0) ==>
      Shows(fb.g, old(fb.mem[..]), fb.mem[..], x, y, Grid(buffer), colorMap.value)
  {
    ghost var rows := Grid(buffer);
    ReadFrame(buffer, top, left, width, interlace, lines, image);
    if colorMap == None {
      return;
    }
    IndexesKept(rows, image, top, left, width, colorMap.value);
    ghost var rgb := ShowFrame(fb, x, y, colorMap.value, buffer);
  }

  // So the colours of the image appear on the screen, interlaced or not: the pixel at
  // (x + left + c, y + top + r) has the red, green and blue that the colour map gives the entry in
  // column c of row r.
  lemma {:induction false} ImageOnScreen(g: Geometry, before: Memory, after: Memory, x: nat, y: nat, rows: Rows, image: Rows,
                                         top: nat, left: nat, width: nat, colors: seq<Color>, r: nat, c: nat)
    requires g.bitsPerPixel == 32 && |after| == MemorySize(g)
    requires Fits(rows, top, left, width, |image|) && LinesOf(image, width) && r < |image| && c < width
    requires AllIndexes(image, colors) && AllIndexes(WithImage(rows, image, top, left, width), colors)
    requires Shows(g, before, after, x, y, WithImage(rows, image, top, left, width), colors)
    requires x + left + c < g.xres && y + top + r < g.yres
    ensures var e, a := colors[image[r][c]], 4 * ((y + top + r) * g.xres + (x + left + c));
      HasColor(32, after, a, e.red, e.green, e.blue)
  {
    var t, e := WithImage(rows, image, top, left, width), colors[image[r][c]];
    var px, py := x + left + c, y + top + r;
    EntryInPlace(rows, image, top, left, width, r, c);
    forall k: nat | k < 4 ensures ByteIn(g, after, px, py, k) == Pack(32, Value(e))[k] {
      EntryShown(g, before, after, x, y, t, colors, top + r, left + c, k);
    }
    PixelHas(g, after, px, py, e.red, e.green, e.blue);
    assert Address(g, px, py) == 4 * (py * g.xres + px);
  }

  lemma {:induction false} EntryInPlace(rows: Rows, image: Rows, top: nat, left: nat, width: nat, r: nat, c: nat)
    requires Fits(rows, top, left, width, |image|) && LinesOf(image, width) && r < |image| && c < width
    ensures top + r < |rows| && left + c < |rows[top + r]|
    ensures WithImage(rows, image, top, left, width)[top + r][left + c] == image[r][c]
  {
    WithImageAt(rows, image, top, left, width, top + r);
  }

  lemma {:induction false} EntryShown(g: Geometry, before: Memory, after: Memory, x: nat, y: nat, rows: Rows, colors: seq<Color>, i: nat, j: nat, k: nat)
    requires AllIndexes(rows, colors) && Shows(g, before, after, x, y, rows, colors) && k < 4
    requires i < |rows| && j < |rows[i]| && x + j < g.xres && y + i < g.yres
    ensures ByteIn(g, after, x + j, y + i, k) == Pack(32, Value(colors[rows[i][j]]))[k]
  {
    var px: nat, py: nat := x + j, y + i;
    assert py - y == i && px - x == j;
  }
}
