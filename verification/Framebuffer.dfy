/** Drawing into the framebuffer: clipped pixels at 8, 16 and 32 bits each, whole images pixel
    by pixel, and the fast form that copies rows of packed 16-bit pixels. */
module Framebuffer {
  import opened Basics
  import opened Arithmetic

  datatype Geometry = Geometry(xres: nat, yres: nat, bitsPerPixel: nat)

  // Bytes of a pixel; 0 for the depths that fbDisplayPixel does not draw.
  function Depth(g: Geometry): (d: nat)
    ensures d == 0 || d == 1 || d == 2 || d == 4
  {
    if g.bitsPerPixel == 8 then 1 else if g.bitsPerPixel == 16 then 2 else if g.bitsPerPixel == 32 then 4 else 0
  }

  function MemorySize(g: Geometry): nat {
    g.xres * g.yres * g.bitsPerPixel / 8
  }

  function Channel(color: int, unit: nat): Byte
    requires unit > 0
  {
    color / unit % 256
  }

  function Rgb332(red: Byte, green: Byte, blue: Byte): Byte {
    red / 32 * 32 + green / 32 * 4 + blue / 64
  }

  function Rgb565(red: Byte, green: Byte, blue: Byte): (v: int)
    ensures 0 <= v < 65536
  {
    red as int / 8 * 2048 + green as int / 4 * 32 + blue as int / 8
  }

  // The bytes that fbDisplayPixel stores for an RGB888 colour, lowest address first.
  function Pack(bitsPerPixel: nat, color: int): (p: seq<Byte>)
    ensures |p| == if bitsPerPixel == 8 then 1 else if bitsPerPixel == 16 then 2 else if bitsPerPixel == 32 then 4 else 0
  {
    var red, green, blue := Channel(color, 65536), Channel(color, 256), Channel(color, 1);
    if bitsPerPixel == 8 then [Rgb332(red, green, blue)]
    else if bitsPerPixel == 16 then
      var v := Rgb565(red, green, blue);
      [v % 256, v / 256]
    else if bitsPerPixel == 32 then [blue, green, red, Channel(color, 16777216)]
    else []
  }

  // How often a loop up to n runs.
  function Clip(n: int): nat {
    if n < 0 then 0 else n
  }

  // ----- Which pixel a byte belongs to -----

  function Row(g: Geometry, b: nat): (y: nat)
    requires Depth(g) > 0 && g.xres > 0
  {
    b / Depth(g) / g.xres
  }

  function Column(g: Geometry, b: nat): (x: nat)
    requires Depth(g) > 0 && g.xres > 0
    ensures x < g.xres
  {
    b / Depth(g) % g.xres
  }

  // The address of a pixel, as the source computes it.
  function Address(g: Geometry, x: int, y: int): int {
    (y * g.xres + x) * g.bitsPerPixel / 8
  }

  lemma {:induction false} AddressExact(g: Geometry, x: int, y: int)
    requires Depth(g) > 0
    ensures Address(g, x, y) == (y * g.xres + x) * Depth(g)
  {}

  // The byte ranges of different pixels are disjoint: byte b lies in the range of the pixel
  // (x, y) exactly when that is its pixel.
  lemma {:induction false} PixelRange(g: Geometry, b: nat, x: int, y: int)
    requires Depth(g) > 0 && 0 <= x < g.xres && 0 <= y
    ensures Address(g, x, y) <= b < Address(g, x, y) + Depth(g) <==> Column(g, b) == x && Row(g, b) == y
    ensures Column(g, b) == x && Row(g, b) == y ==> b - Address(g, x, y) == b % Depth(g)
  {
    AddressExact(g, x, y);
    var k := b / Depth(g);
    UnitRange(Depth(g), b, y * g.xres + x);
    if k == y * g.xres + x {
      DivMod(k, g.xres, y, x);
    } else {
      assert k == k / g.xres * g.xres + k % g.xres;
    }
  }

  lemma {:induction false} UnitRange(d: nat, b: nat, k: int)
    requires d == 1 || d == 2 || d == 4
    ensures k * d <= b < k * d + d <==> b / d == k
    ensures b / d == k ==> b - k * d == b % d
  {}

  // A pixel on the screen lies wholly inside the mapped memory.
  lemma {:induction false} OnScreenInside(g: Geometry, x: int, y: int)
    requires Depth(g) > 0 && 0 <= x < g.xres && 0 <= y < g.yres
    ensures 0 <= Address(g, x, y) && Address(g, x, y) + Depth(g) <= MemorySize(g)
  {
    AddressExact(g, x, y);
    MulMono(0, y, g.xres);
    MulMono(y + 1, g.yres, g.xres);
    assert (y + 1) * g.xres == y * g.xres + g.xres && g.xres * g.yres == g.yres * g.xres;
  }

  lemma {:induction false} RowOnScreen(g: Geometry, b: nat)
    requires Depth(g) > 0 && g.xres > 0 && b < MemorySize(g)
    ensures Row(g, b) < g.yres
  {
    AddressExact(g, 0, g.yres);
    assert g.xres * g.yres == g.yres * g.xres;
    DivBelow(b, Depth(g), g.yres * g.xres);
    DivBelow(b / Depth(g), g.xres, g.yres);
  }

  // ----- What each call makes of the memory, byte by byte -----

  type Memory = seq<Byte>

  predicate Blank(g: Geometry) {
    Depth(g) == 0 || g.xres == 0
  }

  // Byte b after a pixel has been drawn, if was its value before.
  function PixelByte(g: Geometry, b: nat, was: Byte, x: int, y: int, color: int): Byte
    requires !Blank(g)
  {
    if Column(g, b) == x && Row(g, b) == y then Pack(g.bitsPerPixel, color)[b % Depth(g)] else was
  }

  // One pixel: every byte of that pixel and no other, so nothing at all off the screen.
  function PixelDrawn(g: Geometry, m: Memory, x: int, y: int, color: int): (r: Memory)
    ensures |r| == |m|
  {
    if Blank(g) then m else
      seq(|m|, b requires 0 <= b < |m| => PixelByte(g, b, m[b], x, y, color))
  }

  // Pixel k of a line of RGB888 data.
  function LineColor(line: seq<Byte>, k: nat): int
    requires 3 * k + 2 < |line|
  {
    line[3 * k] as int * 65536 + line[3 * k + 1] as int * 256 + line[3 * k + 2] as int
  }

  function LineByte(g: Geometry, b: nat, was: Byte, x: int, y: int, width: int, line: seq<Byte>): Byte
    requires !Blank(g) && 3 * width <= |line|
  {
    if Row(g, b) == y && x <= Column(g, b) < x + width
    then Pack(g.bitsPerPixel, LineColor(line, Column(g, b) - x))[b % Depth(g)] else was
  }

  function LineDrawn(g: Geometry, m: Memory, x: int, y: int, width: int, line: seq<Byte>): (r: Memory)
    requires 3 * width <= |line|
    ensures |r| == |m|
  {
    if Blank(g) then m else
      seq(|m|, b requires 0 <= b < |m| => LineByte(g, b, m[b], x, y, width, line))
  }

  // Row j of an image whose rows have the given number of bytes.
  function ImageRow(image: seq<Byte>, stride: nat, j: nat): (r: seq<Byte>)
    requires (j + 1) * stride <= |image|
    ensures |r| == stride
  {
    assert (j + 1) * stride == j * stride + stride;
    image[j * stride..(j + 1) * stride]
  }

  function ImageByte(g: Geometry, b: nat, was: Byte, x: int, y: int, image: seq<Byte>, width: nat, height: int): Byte
    requires !Blank(g) && height * (3 * width) <= |image|
  {
    if y <= Row(g, b) < y + height && x <= Column(g, b) < x + width then
      var j := Row(g, b) - y;
      MulMono(j + 1, height, 3 * width);
      LineByte(g, b, was, x, y + j, width, ImageRow(image, 3 * width, j))
    else was
  }

  // A whole image: exactly the on-screen pixels of its rectangle.
  function ImageDrawn(g: Geometry, m: Memory, x: int, y: int, image: seq<Byte>, width: nat, height: int): (r: Memory)
    requires height * (3 * width) <= |image|
    ensures |r| == |m|
  {
    if Blank(g) then m else
      seq(|m|, b requires 0 <= b < |m| => ImageByte(g, b, m[b], x, y, image, width, height))
  }

  lemma {:induction false} PixelOfAddress(g: Geometry, px: nat, py: nat, c: nat)
    requires !Blank(g) && px < g.xres && py < g.yres && c < Depth(g)
    ensures 0 <= Address(g, px, py) + c < MemorySize(g)
    ensures var b := Address(g, px, py) + c; Column(g, b) == px && Row(g, b) == py && b % Depth(g) == c
  {
    OnScreenInside(g, px, py);
    PixelRange(g, Address(g, px, py) + c, px, py);
  }

  // The same stated by coordinates: each on-screen pixel of the rectangle shows its image pixel,
  // and every byte of every other pixel is what it was.
  lemma {:induction false} ImageExact(g: Geometry, m: Memory, x: int, y: int, image: seq<Byte>, width: nat, height: int, px: nat, py: nat, c: nat)
    requires height * (3 * width) <= |image| && |m| == MemorySize(g)
    requires !Blank(g) && px < g.xres && py < g.yres && c < Depth(g)
    ensures 0 <= Address(g, px, py) + c < |m|
    ensures var b := Address(g, px, py) + c;
      if y <= py < y + height && x <= px < x + width then
        && (py - y + 1) * (3 * width) <= |image|
        && ImageDrawn(g, m, x, y, image, width, height)[b]
             == Pack(g.bitsPerPixel, LineColor(ImageRow(image, 3 * width, py - y), px - x))[c]
      else ImageDrawn(g, m, x, y, image, width, height)[b] == m[b]
  {
    PixelOfAddress(g, px, py, c);
    if y <= py < y + height {
      MulMono(py - y + 1, height, 3 * width);
    }
    var b := Address(g, px, py) + c;
    assert ImageDrawn(g, m, x, y, image, width, height)[b] == ImageByte(g, b, m[b], x, y, image, width, height);
  }

  // ----- The colours in memory -----

  // The bytes of m from a on are the pixel of this colour, lowest byte first: 3 + 3 + 2 bits of red,
  // green and blue, or 5 + 6 + 5, or all 8 of each in a word of four bytes.
  predicate HasColor(bitsPerPixel: nat, m: Memory, a: int, red: Byte, green: Byte, blue: Byte) {
    if bitsPerPixel == 8 then 0 <= a < |m| && m[a] == red / 32 * 32 + green / 32 * 4 + blue / 64
    else if bitsPerPixel == 16 then
      0 <= a < |m| - 1 && m[a] as int + 256 * (m[a + 1] as int) == red as int / 8 * 2048 + green as int / 4 * 32 + blue as int / 8
    else
      0 <= a < |m| - 3 && m[a] == blue && m[a + 1] == green && m[a + 2] == red && m[a + 3] == 0
  }

  lemma {:induction false} PackColor(bitsPerPixel: nat, red: Byte, green: Byte, blue: Byte)
    requires bitsPerPixel == 8 || bitsPerPixel == 16 || bitsPerPixel == 32
    ensures HasColor(bitsPerPixel, Pack(bitsPerPixel, red as int * 65536 + green as int * 256 + blue as int), 0, red, green, blue)
  {
    var color := red as int * 65536 + green as int * 256 + blue as int;
    assert color / 65536 % 256 == red as int;
    assert color / 256 == red as int * 256 + green as int;
    assert color / 256 % 256 == green as int;
    assert color % 256 == blue as int;
    assert color / 16777216 == 0;
  }

  lemma {:induction false} ColorFound(bitsPerPixel: nat, p: seq<Byte>, m: Memory, a: int, red: Byte, green: Byte, blue: Byte)
    requires bitsPerPixel == 8 || bitsPerPixel == 16 || bitsPerPixel == 32
    requires |p| == bitsPerPixel / 8 && 0 <= a && a + |p| <= |m|
    requires HasColor(bitsPerPixel, p, 0, red, green, blue) && forall c :: 0 <= c < |p| ==> m[a + c] == p[c]
    ensures HasColor(bitsPerPixel, m, a, red, green, blue)
  {
    assert m[a + 0] == p[0];
    assert bitsPerPixel >= 16 ==> m[a + 1] == p[1];
    assert bitsPerPixel == 32 ==> m[a + 2] == p[2] && m[a + 3] == p[3];
  }

  // fbDisplayPixel leaves the pixel on the screen with its colour, and at other depths than these
  // three it leaves the memory alone.
  lemma {:induction false} PixelColor(g: Geometry, m: Memory, x: nat, y: nat, red: Byte, green: Byte, blue: Byte)
    requires |m| == MemorySize(g) && x < g.xres && y < g.yres
    ensures var m' := PixelDrawn(g, m, x, y, red as int * 65536 + green as int * 256 + blue as int);
      if g.bitsPerPixel == 8 || g.bitsPerPixel == 16 || g.bitsPerPixel == 32
      then HasColor(g.bitsPerPixel, m', (y * g.xres + x) * g.bitsPerPixel / 8, red, green, blue)
      else m' == m
  {
    if Depth(g) > 0 {
      PixelColorAt(g, m, x, y, red, green, blue, red as int * 65536 + green as int * 256 + blue as int);
    }
  }

  lemma {:induction false} PixelColorAt(g: Geometry, m: Memory, x: nat, y: nat, red: Byte, green: Byte, blue: Byte, color: int)
    requires |m| == MemorySize(g) && x < g.xres && y < g.yres && Depth(g) > 0
    requires color == red as int * 65536 + green as int * 256 + blue as int
    ensures HasColor(g.bitsPerPixel, PixelDrawn(g, m, x, y, color), Address(g, x, y), red, green, blue)
  {
    var m' := PixelDrawn(g, m, x, y, color);
    forall c: nat | c < Depth(g) ensures ByteIn(g, m', x, y, c) == Pack(g.bitsPerPixel, color)[c] {
      PixelByteIn(g, m, x, y, color, c);
    }
    PixelHas(g, m', x, y, red, green, blue);
  }

  lemma {:induction false} PixelByteIn(g: Geometry, m: Memory, x: nat, y: nat, color: int, c: nat)
    requires |m| == MemorySize(g) && x < g.xres && y < g.yres && c < Depth(g)
    ensures ByteIn(g, PixelDrawn(g, m, x, y, color), x, y, c) == Pack(g.bitsPerPixel, color)[c]
  {
    PixelOfAddress(g, x, y, c);
  }

  // Byte c of a pixel.
  function ByteIn(g: Geometry, m: Memory, x: nat, y: nat, c: nat): Byte {
    var b := Address(g, x, y) + c;
    if 0 <= b < |m| then m[b] else 0
  }

  lemma {:induction false} PixelHas(g: Geometry, m: Memory, x: nat, y: nat, red: Byte, green: Byte, blue: Byte)
    requires |m| == MemorySize(g) && x < g.xres && y < g.yres && Depth(g) > 0
    requires var p := Pack(g.bitsPerPixel, red as int * 65536 + green as int * 256 + blue as int);
      forall c: nat :: c < |p| ==> ByteIn(g, m, x, y, c) == p[c]
    ensures HasColor(g.bitsPerPixel, m, Address(g, x, y), red, green, blue)
  {
    var p, a := Pack(g.bitsPerPixel, red as int * 65536 + green as int * 256 + blue as int), Address(g, x, y);
    OnScreenInside(g, x, y);
    PackColor(g.bitsPerPixel, red, green, blue);
    forall c | 0 <= c < |p| ensures m[a + c] == p[c] {
      assert ByteIn(g, m, x, y, c) == p[c];
    }
    ColorFound(g.bitsPerPixel, p, m, a, red, green, blue);
  }

  // The highest byte of a colour is stored at 32 bits as well.
  lemma {:induction false} WholeWord(g: Geometry, m: Memory, x: nat, y: nat, color: int)
    requires |m| == MemorySize(g) && x < g.xres && y < g.yres && g.bitsPerPixel == 32 && 0 <= color < 0x1_0000_0000
    ensures var m', a := PixelDrawn(g, m, x, y, color), 4 * (y * g.xres + x);
      0 <= a < |m'| - 3 &&
      m'[a] as int + 256 * (m'[a + 1] as int) + 65536 * (m'[a + 2] as int) + 16777216 * (m'[a + 3] as int) == color
  {
    var m', a := PixelDrawn(g, m, x, y, color), Address(g, x, y);
    OnScreenInside(g, x, y);
    PixelOfAddress(g, x, y, 0);
    PixelOfAddress(g, x, y, 1);
    PixelOfAddress(g, x, y, 2);
    PixelOfAddress(g, x, y, 3);
    Bytes(color);
  }

  lemma {:induction false} Bytes(color: int)
    requires 0 <= color < 0x1_0000_0000
    ensures color % 256 + 256 * (color / 256 % 256) + 65536 * (color / 65536 % 256) + 16777216 * (color / 16777216 % 256) == color
  {
    assert color / 65536 == color / 256 / 256 && color / 16777216 == color / 256 / 256 / 256;
  }

  // A whole image: each on-screen pixel of its rectangle has the colour of its own three bytes.
  lemma {:induction false} ImageColor(g: Geometry, m: Memory, x: int, y: int, image: seq<Byte>, width: nat, height: nat, px: nat, py: nat)
    requires height * (3 * width) <= |image| && |m| == MemorySize(g) && px < g.xres && py < g.yres
    requires y <= py < y + height && x <= px < x + width
    requires g.bitsPerPixel == 8 || g.bitsPerPixel == 16 || g.bitsPerPixel == 32
    ensures var i := 3 * ((py - y) * width + (px - x));
      0 <= i < |image| - 2 &&
      HasColor(g.bitsPerPixel, ImageDrawn(g, m, x, y, image, width, height), (py * g.xres + px) * g.bitsPerPixel / 8,
               image[i], image[i + 1], image[i + 2])
  {
    var j: nat, k: nat, m' := py - y, px - x, ImageDrawn(g, m, x, y, image, width, height);
    MulMono(j + 1, height, 3 * width);
    ImageBytes(g, m, x, y, image, width, height, px, py);
    RowColor(image, width, j, k);
    PixelShows(g, m', px, py, image, j * width + k, LineColor(image, j * width + k));
  }

  lemma {:induction false} ImageBytes(g: Geometry, m: Memory, x: int, y: int, image: seq<Byte>, width: nat, height: nat, px: nat, py: nat)
    requires height * (3 * width) <= |image| && |m| == MemorySize(g) && px < g.xres && py < g.yres
    requires y <= py < y + height && x <= px < x + width && Depth(g) > 0
    ensures (py - y + 1) * (3 * width) <= |image|
    ensures var color := LineColor(ImageRow(image, 3 * width, py - y), px - x);
      forall c: nat :: c < Depth(g) ==>
        ByteIn(g, ImageDrawn(g, m, x, y, image, width, height), px, py, c) == Pack(g.bitsPerPixel, color)[c]
  {
    MulMono(py - y + 1, height, 3 * width);
    var color := LineColor(ImageRow(image, 3 * width, py - y), px - x);
    forall c: nat | c < Depth(g)
      ensures ByteIn(g, ImageDrawn(g, m, x, y, image, width, height), px, py, c) == Pack(g.bitsPerPixel, color)[c]
    {
      ImageByteIn(g, m, x, y, image, width, height, px, py, c);
    }
  }

  lemma {:induction false} ImageByteIn(g: Geometry, m: Memory, x: int, y: int, image: seq<Byte>, width: nat, height: nat,
                                       px: nat, py: nat, c: nat)
    requires height * (3 * width) <= |image| && |m| == MemorySize(g) && px < g.xres && py < g.yres && c < Depth(g)
    requires y <= py < y + height && x <= px < x + width
    ensures (py - y + 1) * (3 * width) <= |image|
    ensures ByteIn(g, ImageDrawn(g, m, x, y, image, width, height), px, py, c)
      == Pack(g.bitsPerPixel, LineColor(ImageRow(image, 3 * width, py - y), px - x))[c]
  {
    ImageExact(g, m, x, y, image, width, height, px, py, c);
  }

  lemma {:induction false} PixelShows(g: Geometry, m: Memory, x: nat, y: nat, image: seq<Byte>, q: int, color: int)
    requires |m| == MemorySize(g) && x < g.xres && y < g.yres && Depth(g) > 0
    requires 0 <= q && 3 * q + 2 < |image| && color == LineColor(image, q)
    requires forall c: nat :: c < Depth(g) ==> ByteIn(g, m, x, y, c) == Pack(g.bitsPerPixel, color)[c]
    ensures HasColor(g.bitsPerPixel, m, Address(g, x, y), image[3 * q], image[3 * q + 1], image[3 * q + 2])
  {
    PixelHas(g, m, x, y, image[3 * q], image[3 * q + 1], image[3 * q + 2]);
  }

  // ----- Packed 16-bit images -----

  // An RGB888 image as RGB565, low byte first.
  function Packed565(image: seq<Byte>, pixels: nat): (p: seq<Byte>)
    requires 3 * pixels <= |image|
    ensures |p| == 2 * pixels
  {
    seq(2 * pixels, b requires 0 <= b < 2 * pixels => Pack(16, LineColor(image, b / 2))[b % 2])
  }

  function ShownByte(g: Geometry, b: nat, was: Byte, x: int, y: int, image: seq<Byte>, width: nat, height: int): Byte
    requires !Blank(g) && height * (2 * width) <= |image|
  {
    if y <= Row(g, b) < y + height && x <= Column(g, b) < x + width then
      var j := Row(g, b) - y;
      MulMono(j + 1, height, 2 * width);
      ImageRow(image, 2 * width, j)[2 * (Column(g, b) - x) + b % 2]
    else was
  }

  // memcpy of some bytes to address pen.
  function Spliced(m: Memory, pen: nat, bytes: seq<Byte>): (r: Memory)
    requires pen + |bytes| <= |m|
    ensures |r| == |m|
    ensures forall b :: 0 <= b < |m| ==> r[b] == if pen <= b < pen + |bytes| then bytes[b - pen] else m[b]
  {
    m[..pen] + bytes + m[pen + |bytes|..]
  }

  // n rows of stride bytes, copied step bytes apart, lie in a memory of this size.
  predicate RowsFit(size: nat, pen: nat, step: nat, stride: nat, n: nat) {
    n == 0 || pen + (n - 1) * step + stride <= size
  }

  lemma {:induction false} RowFits(size: nat, pen: nat, step: nat, stride: nat, n: nat, i: nat)
    requires RowsFit(size, pen, step, stride, n) && i < n
    ensures RowsFit(size, pen, step, stride, i) && i * step >= 0 && pen + i * step + stride <= size
  {
    MulMono(i, n - 1, step);
    MulMono(0, i, step);
    if i > 0 { MulMono(i - 1, i, step); }
  }

  // The memory after those rows of an image have been copied, wherever they fall on the screen.
  function RowsCopied(m: Memory, pen: nat, step: nat, image: seq<Byte>, stride: nat, n: nat): (r: Memory)
    requires n * stride <= |image| && RowsFit(|m|, pen, step, stride, n)
    ensures |r| == |m|
  {
    if n == 0 then m
    else
      var i := n - 1;
      RowFits(|m|, pen, step, stride, n, i);
      MulMono(i, n, stride);
      Spliced(RowsCopied(m, pen, step, image, stride, i), pen + i * step, ImageRow(image, stride, i))
  }

  // For a rectangle on the screen at 16 bits per pixel: the memory after the rows of a packed
  // image have been copied.
  function ImageShown(g: Geometry, m: Memory, x: int, y: int, image: seq<Byte>, width: nat, height: int): (r: Memory)
    requires height * (2 * width) <= |image|
    ensures |r| == |m|
  {
    if Blank(g) then m else
      seq(|m|, b requires 0 <= b < |m| => ShownByte(g, b, m[b], x, y, image, width, height))
  }

  lemma {:induction false} RowStart(width: nat, j: nat)
    ensures j * (3 * width) == 3 * (j * width) && (j + 1) * (3 * width) == 3 * (j * width) + 3 * width && j * width >= 0
  {}

  lemma {:induction false} RowColor(image: seq<Byte>, width: nat, j: nat, k: nat)
    requires (j + 1) * (3 * width) <= |image| && k < width
    ensures 0 <= 3 * (j * width + k) && 3 * (j * width + k) + 2 < |image|
    ensures LineColor(ImageRow(image, 3 * width, j), k) == LineColor(image, j * width + k)
  {
    RowStart(width, j);
    RowColorAt(image, 3 * width, j, k, 3 * (j * width));
  }

  // The colour found at byte 3 * k of a row that begins at byte start.
  lemma {:induction false} RowColorAt(image: seq<Byte>, stride: nat, j: nat, k: nat, start: nat)
    requires j * stride == start && (j + 1) * stride == start + stride <= |image| && 3 * k + 2 < stride
    ensures var r := ImageRow(image, stride, j);
      r[3 * k] == image[start + 3 * k] && r[3 * k + 1] == image[start + 3 * k + 1] && r[3 * k + 2] == image[start + 3 * k + 2]
  {}

  lemma {:induction false} PackedAt(image: seq<Byte>, pixels: nat, q: nat, c: nat)
    requires 3 * pixels <= |image| && q < pixels && c < 2
    ensures Packed565(image, pixels)[2 * q + c] == Pack(16, LineColor(image, q))[c]
  {
    assert (2 * q + c) / 2 == q && (2 * q + c) % 2 == c;
  }

  // The two bytes of pixel q of the packed image hold the colour of its three bytes.
  lemma {:induction false} PackedColor(image: seq<Byte>, pixels: nat, q: nat)
    requires 3 * pixels <= |image| && q < pixels
    ensures var p, red, green, blue := Packed565(image, pixels), image[3 * q], image[3 * q + 1], image[3 * q + 2];
      p[2 * q] as int + 256 * (p[2 * q + 1] as int) == red as int / 8 * 2048 + green as int / 4 * 32 + blue as int / 8
  {
    var red, green, blue := image[3 * q], image[3 * q + 1], image[3 * q + 2];
    PackedAt(image, pixels, q, 0);
    PackedAt(image, pixels, q, 1);
    PackColor(16, red, green, blue);
    assert LineColor(image, q) == red as int * 65536 + green as int * 256 + blue as int;
  }

  lemma {:induction false} RowBelow(width: nat, height: int, j: nat)
    requires j < height
    ensures j * width + width == (j + 1) * width <= height * width
  {
    MulMono(j + 1, height, width);
    assert (j + 1) * width == j * width + width;
  }

  lemma {:induction false} RowAt(p: seq<Byte>, width: nat, j: nat, k: nat, c: nat)
    requires (j + 1) * (2 * width) <= |p| && k < width && c < 2
    ensures 0 <= 2 * (j * width + k) + c < |p|
    ensures ImageRow(p, 2 * width, j)[2 * k + c] == p[2 * (j * width + k) + c]
  {
    assert (j + 1) * (2 * width) == j * (2 * width) + 2 * width;
    assert j * (2 * width) == 2 * (j * width);
  }

  // Row j of the packed image is row j of the image, packed.
  lemma {:induction false} PackedRow(image: seq<Byte>, width: nat, pixels: nat, j: nat, k: nat, c: nat)
    requires 3 * pixels <= |image| && k < width && c < 2
    requires j * width + width <= pixels && (j + 1) * (2 * width) <= 2 * pixels && (j + 1) * (3 * width) <= |image|
    ensures ImageRow(Packed565(image, pixels), 2 * width, j)[2 * k + c] == Pack(16, LineColor(ImageRow(image, 3 * width, j), k))[c]
  {
    RowColor(image, width, j, k);
    RowAt(Packed565(image, pixels), width, j, k, c);
    PackedAt(image, pixels, j * width + k, c);
  }

  lemma {:induction false} Strides(width: nat, height: nat)
    ensures height * (3 * width) == 3 * (height * width) && height * (2 * width) == 2 * (height * width)
    ensures height * width >= 0
  {}

  lemma {:induction false} RefinesByte(g: Geometry, b: nat, was: Byte, x: int, y: int, image: seq<Byte>, width: nat, height: nat)
    requires g.bitsPerPixel == 16 && !Blank(g) && height * (3 * width) <= |image|
    requires 3 * (height * width) <= |image| && height * width >= 0 && height * (2 * width) <= 2 * (height * width)
    ensures ShownByte(g, b, was, x, y, Packed565(image, height * width), width, height)
      == ImageByte(g, b, was, x, y, image, width, height)
  {
    if y <= Row(g, b) < y + height && x <= Column(g, b) < x + width {
      var j := Row(g, b) - y;
      MulMono(j + 1, height, 2 * width);
      MulMono(j + 1, height, 3 * width);
      RowBelow(width, height, j);
      PackedRow(image, width, height * width, j, Column(g, b) - x, b % 2);
    }
  }

  // The rows of the packed image are those of the image, packed.
  lemma {:induction false} PackedIsImage(g: Geometry, m: Memory, x: int, y: int, image: seq<Byte>, width: nat, height: nat)
    requires g.bitsPerPixel == 16 && height * (3 * width) <= |image|
    ensures 3 * (height * width) <= |image| && height * width >= 0 && height * (2 * width) <= 2 * (height * width)
    ensures ImageShown(g, m, x, y, Packed565(image, height * width), width, height) == ImageDrawn(g, m, x, y, image, width, height)
  {
    Strides(width, height);
    if !Blank(g) {
      forall b | 0 <= b < |m|
        ensures ShownByte(g, b, m[b], x, y, Packed565(image, height * width), width, height) == ImageByte(g, b, m[b], x, y, image, width, height)
      {
        RefinesByte(g, b, m[b], x, y, image, width, height);
      }
    }
  }

  // ----- The calls -----

  class FrameBuffer {
    const g: Geometry
    const mem: array<Byte>

    ghost predicate Valid() {
      mem.Length == MemorySize(g)
    }

    constructor FbInit(g: Geometry)
      ensures Valid() && this.g == g && fresh(mem)
    {
      this.g := g;
      mem := new Byte[MemorySize(g)](_ => 0);
    }

    // The stores of one pixel's bytes through the pen pointer.
    method Store(pen: nat, bytes: seq<Byte>)
      requires pen + |bytes| <= mem.Length
      modifies mem
      ensures forall b :: 0 <= b < mem.Length ==> mem[b] == if pen <= b < pen + |bytes| then bytes[b - pen] else old(mem[b])
    {
      for i := 0 to |bytes|
        invariant forall b :: 0 <= b < mem.Length ==> mem[b] == if pen <= b < pen + i then bytes[b - pen] else old(mem[b])
      {
        mem[pen + i] := bytes[i];
      }
    }

    method FbDisplayPixel(x: int, y: int, color: int)
      requires Valid()
      modifies mem
      ensures mem[..] == PixelDrawn(g, old(mem[..]), x, y, color)
    {
      if x >= g.xres || x < 0 {
        return;
      }
      if y >= g.yres || y < 0 {
        NoPixel(g, mem.Length, x, y);
        return;
      }
      var bytes := Pack(g.bitsPerPixel, color);
      if Depth(g) > 0 {
        OnScreenInside(g, x, y);
        PixelBytes(g, mem.Length, x, y);
        Store(Address(g, x, y), bytes);
      }
    }

    method FbDisplayLineData(x: int, y: int, width: int, line: seq<Byte>)
      requires Valid() && 3 * width <= |line|
      modifies mem
      ensures mem[..] == LineDrawn(g, old(mem[..]), x, y, width, line)
    {
      var i, ix := 0, x;
      ghost var m := mem[..];
      LineStart(g, m, x, y, line);
      while i < width * 3
        invariant 0 <= ix - x && i == 3 * (ix - x) && (ix == x || ix - x <= width)
        invariant mem[..] == LineDrawn(g, m, x, y, ix - x, line)
      {
        var color := LineColor(line, ix - x);
        FbDisplayPixel(ix, y, color);
        LineStep(g, m, x, y, ix - x, line);
        i, ix := i + 3, ix + 1;
      }
      if width < 0 {
        LineNegative(g, m, x, y, width, line);
      }
    }

    method FbDisplayImage(x: int, y: int, image: seq<Byte>, width: int, height: int)
      requires Valid() && Clip(height) * (3 * Clip(width)) <= |image|
      modifies mem
      ensures mem[..] == ImageDrawn(g, old(mem[..]), x, y, image, Clip(width), Clip(height))
    {
      var i, iy, p := 0, y, 0;
      ghost var m, w := mem[..], Clip(width);
      ImageStart(g, m, x, y, image, w);
      while i < height
        invariant 0 <= i <= Clip(height) && iy == y + i && p == i * (3 * w) <= |image|
        invariant mem[..] == ImageDrawn(g, m, x, y, image, w, i)
      {
        MulMono(i + 1, height, 3 * w);
        assert (i + 1) * (3 * w) == p + 3 * w;
        DisplayRow(x, iy, width, image, i, p);
        ImageStep(g, m, x, y, image, w, i);
        i, iy, p := i + 1, iy + 1, p + Clip(width) * 3;
      }
    }

    // One line of it, from byte p of the image on.
    method DisplayRow(x: int, y: int, width: int, image: seq<Byte>, i: nat, p: nat)
      requires Valid() && p == i * (3 * Clip(width)) <= p + 3 * Clip(width) == (i + 1) * (3 * Clip(width)) <= |image|
      modifies mem
      ensures mem[..] == LineDrawn(g, old(mem[..]), x, y, Clip(width), ImageRow(image, 3 * Clip(width), i))
    {
      var line := image[p..p + 3 * Clip(width)];
      ghost var m := mem[..];
      FbDisplayLineData(x, y, width, line);
      if width < 0 {
        LineNegative(g, m, x, y, width, line);
        LineStart(g, m, x, y, line);
      }
    }

    // fbShowImage: rows copied with memcpy, without a look at depth or screen edges. Every copy
    // must stay inside the mapped memory; x may be negative on a lower row.
    method FbShowImage(x: int, y: int, image: seq<Byte>, width: nat, height: int)
      requires Valid() && Clip(height) * (2 * width) <= |image|
      requires y * g.xres + x >= 0
      requires RowsFit(mem.Length, Address(g, x, y), g.xres * g.bitsPerPixel / 8, 2 * width, Clip(height))
      modifies mem
      ensures mem[..] == RowsCopied(old(mem[..]), Address(g, x, y), g.xres * g.bitsPerPixel / 8, image, 2 * width, Clip(height))
    {
      var pen, fbLine, imageLine := Address(g, x, y), g.xres * g.bitsPerPixel / 8, width * 2;
      var p, n := 0, Clip(height);
      ghost var m, pen0 := mem[..], pen;
      for i := 0 to n
        invariant pen == pen0 + i * fbLine && p == i * imageLine
        invariant RowsFit(|m|, pen0, fbLine, imageLine, i) && i * imageLine <= |image|
        invariant mem[..] == RowsCopied(m, pen0, fbLine, image, imageLine, i)
      {
        RowFits(|m|, pen0, fbLine, imageLine, n, i);
        if i + 1 < n { RowFits(|m|, pen0, fbLine, imageLine, n, i + 1); }
        MulMono(i + 1, n, imageLine);
        pen, p := CopyRow(image, pen, p, i, fbLine, imageLine, pen0, m);
      }
    }

    // One memcpy of fbShowImage.
    method CopyRow(image: seq<Byte>, pen: int, p: nat, i: nat, fbLine: nat, imageLine: nat, ghost pen0: nat, ghost m: Memory)
      returns (nextPen: int, nextP: nat)
      requires p == i * imageLine && (i + 1) * imageLine <= |image| && p <= |image|
      requires RowsFit(mem.Length, pen0, fbLine, imageLine, i + 1) && RowsFit(mem.Length, pen0, fbLine, imageLine, i)
      requires pen == pen0 + i * fbLine >= 0 && |m| == mem.Length && mem[..] == RowsCopied(m, pen0, fbLine, image, imageLine, i)
      modifies mem
      ensures mem[..] == RowsCopied(m, pen0, fbLine, image, imageLine, i + 1)
      ensures nextPen == pen0 + (i + 1) * fbLine && nextP == (i + 1) * imageLine
    {
      ghost var before := mem[..];
      Multiples(i, fbLine);
      Multiples(i, imageLine);
      nextPen, nextP := pen + fbLine, p + imageLine;
      var row := image[p..nextP];
      CopiedNext(m, pen0, fbLine, image, imageLine, i);
      Store(pen, row);
      assert mem[..] == Spliced(before, pen, row);
    }
  }

  lemma {:induction false} Multiples(i: nat, n: nat)
    ensures (i + 1) * n == i * n + n && i * n >= 0
  {}

  lemma {:induction false} CopiedNext(m: Memory, pen: nat, step: nat, image: seq<Byte>, stride: nat, i: nat)
    requires (i + 1) * stride <= |image| && i * stride <= |image|
    requires RowsFit(|m|, pen, step, stride, i + 1) && RowsFit(|m|, pen, step, stride, i) && i * step >= 0
    ensures RowsCopied(m, pen, step, image, stride, i + 1)
      == Spliced(RowsCopied(m, pen, step, image, stride, i), pen + i * step, ImageRow(image, stride, i))
  {}

  lemma {:induction false} NextRow(g: Geometry, x: nat, y: nat, i: nat, width: nat)
    requires g.bitsPerPixel == 16
    ensures Address(g, x, y + 1) == Address(g, x, y) + g.xres * g.bitsPerPixel / 8
    ensures (i + 1) * (2 * width) == i * (2 * width) + 2 * width
  {
    assert (y + 1) * g.xres == y * g.xres + g.xres;
  }

  lemma {:induction false} ShowStart(g: Geometry, m: Memory, x: int, y: int, image: seq<Byte>, width: nat)
    ensures ImageShown(g, m, x, y, image, width, 0) == m
  {}

  lemma {:induction false} RowInside(g: Geometry, x: nat, y: nat, width: nat)
    requires g.bitsPerPixel == 16 && x + width <= g.xres && y < g.yres
    ensures Address(g, x, y) + 2 * width <= MemorySize(g)
  {
    MulMono(y + 1, g.yres, g.xres);
    assert (y + 1) * g.xres == y * g.xres + g.xres;
    assert g.xres * g.yres == g.yres * g.xres;
  }

  // Which bytes one copied row covers.
  lemma {:induction false} RowBytes(g: Geometry, b: nat, x: nat, y: nat, width: nat)
    requires g.bitsPerPixel == 16 && 0 < g.xres && x + width <= g.xres
    ensures Address(g, x, y) <= b < Address(g, x, y) + 2 * width <==> Row(g, b) == y && x <= Column(g, b) < x + width
    ensures Row(g, b) == y ==> b - Address(g, x, y) == 2 * (Column(g, b) - x) + b % 2
  {
    AddressExact(g, x, y);
    RowRange(b / 2, g.xres, y, x, width);
  }

  // The same for the numbers of pixels, n to a row.
  lemma {:induction false} RowRange(k: nat, n: nat, y: nat, x: nat, width: nat)
    requires 0 < n && x + width <= n
    ensures y * n + x <= k < y * n + x + width <==> k / n == y && x <= k % n < x + width
    ensures k / n == y ==> k == y * n + k % n
  {
    assert k == k / n * n + k % n;
    if y * n + x <= k < y * n + x + width {
      DivMod(k, n, y, k - y * n);
    }
  }

  lemma {:induction false} OnScreenFits(g: Geometry, x: nat, y: nat, width: nat, height: nat)
    requires g.bitsPerPixel == 16 && x + width <= g.xres && y + height <= g.yres
    ensures Address(g, x, y) >= 0 && RowsFit(MemorySize(g), Address(g, x, y), g.xres * g.bitsPerPixel / 8, 2 * width, height)
    ensures height > 0 ==> Address(g, x, y + height - 1) == Address(g, x, y) + (height - 1) * (g.xres * g.bitsPerPixel / 8)
  {
    if height == 0 {
      assert (y * g.xres + x) * 2 >= 0;
    } else if height == 1 {
      RowInside(g, x, y, width);
    } else {
      OnScreenFits(g, x, y, width, height - 1);
      NextRow(g, x, y + height - 2, height - 2, g.xres);
      RowInside(g, x, y + height - 1, width);
    }
  }

  // The fast form refines the simple one: for a rectangle on the screen at 16 bits per pixel,
  // fbShowImage of the packed image leaves byte for byte the memory that fbDisplayImage of the
  // RGB888 image leaves.
  lemma {:induction false} ShowRefinesDisplay(g: Geometry, m: Memory, x: nat, y: nat, image: seq<Byte>, width: nat, height: nat)
    requires g.bitsPerPixel == 16 && |m| == MemorySize(g) && x + width <= g.xres && y + height <= g.yres
    requires height * (3 * width) <= |image|
    ensures 3 * (height * width) <= |image| && height * width >= 0 && height * (2 * width) <= 2 * (height * width)
    ensures Address(g, x, y) >= 0 && RowsFit(|m|, Address(g, x, y), g.xres * g.bitsPerPixel / 8, 2 * width, height)
    ensures RowsCopied(m, Address(g, x, y), g.xres * g.bitsPerPixel / 8, Packed565(image, height * width), 2 * width, height)
      == ImageDrawn(g, m, x, y, image, width, height)
  {
    PackedIsImage(g, m, x, y, image, width, height);
    CopiedIsShown(g, m, x, y, Packed565(image, height * width), width, height);
  }

  // On the screen the copied rows are the rows of the rectangle, and no other byte changes.
  lemma {:induction false} CopiedIsShown(g: Geometry, m: Memory, x: nat, y: nat, image: seq<Byte>, width: nat, height: nat)
    requires g.bitsPerPixel == 16 && |m| == MemorySize(g) && x + width <= g.xres && y + height <= g.yres
    requires height * (2 * width) <= |image|
    ensures Address(g, x, y) >= 0 && RowsFit(|m|, Address(g, x, y), g.xres * g.bitsPerPixel / 8, 2 * width, height)
    ensures RowsCopied(m, Address(g, x, y), g.xres * g.bitsPerPixel / 8, image, 2 * width, height)
      == ImageShown(g, m, x, y, image, width, height)
  {
    OnScreenFits(g, x, y, width, height);
    if height == 0 {
      ShowStart(g, m, x, y, image, width);
    } else {
      var j := height - 1;
      MulMono(j, height, 2 * width);
      CopiedIsShown(g, m, x, y, image, width, j);
      OnScreenFits(g, x, y, width, height);
      ShowStep(g, m, RowsCopied(m, Address(g, x, y), g.xres * g.bitsPerPixel / 8, image, 2 * width, height), x, y, image, width, j);
    }
  }

  lemma {:induction false} ShowStep(g: Geometry, m: Memory, n: Memory, x: nat, y: nat, image: seq<Byte>, width: nat, j: nat)
    requires g.bitsPerPixel == 16 && x + width <= g.xres && |n| == |m|
    requires j * (2 * width) <= (j + 1) * (2 * width) <= |image|
    requires var pen := Address(g, x, y + j); var before := ImageShown(g, m, x, y, image, width, j);
      forall b :: 0 <= b < |n| ==>
        n[b] == if pen <= b < pen + 2 * width then ImageRow(image, 2 * width, j)[b - pen] else before[b]
    ensures n == ImageShown(g, m, x, y, image, width, j + 1)
  {
    if !Blank(g) {
      forall b | 0 <= b < |n| ensures n[b] == ShownByte(g, b, m[b], x, y, image, width, j + 1) {
        RowBytes(g, b, x, y + j, width);
      }
    } else {
      assert width == 0;
    }
  }

  // No byte of the memory belongs to a pixel above or below the screen.
  lemma {:induction false} NoPixel(g: Geometry, size: nat, x: int, y: int)
    requires size == MemorySize(g) && (y < 0 || y >= g.yres)
    ensures !Blank(g) ==> forall b :: 0 <= b < size ==> Row(g, b) != y
  {
    if !Blank(g) {
      forall b | 0 <= b < size ensures Row(g, b) != y {
        RowOnScreen(g, b);
      }
    }
  }

  lemma {:induction false} PixelBytes(g: Geometry, size: nat, x: int, y: int)
    requires Depth(g) > 0 && 0 <= x < g.xres && 0 <= y
    ensures forall b :: 0 <= b < size ==>
      (Address(g, x, y) <= b < Address(g, x, y) + Depth(g) <==> Column(g, b) == x && Row(g, b) == y)
    ensures forall b :: 0 <= b < size && Column(g, b) == x && Row(g, b) == y ==> b - Address(g, x, y) == b % Depth(g)
  {
    forall b | 0 <= b < size
      ensures Address(g, x, y) <= b < Address(g, x, y) + Depth(g) <==> Column(g, b) == x && Row(g, b) == y
      ensures Column(g, b) == x && Row(g, b) == y ==> b - Address(g, x, y) == b % Depth(g)
    {
      PixelRange(g, b, x, y);
    }
  }

  lemma {:induction false} LineStart(g: Geometry, m: Memory, x: int, y: int, line: seq<Byte>)
    ensures LineDrawn(g, m, x, y, 0, line) == m
  {}

  lemma {:induction false} LineNegative(g: Geometry, m: Memory, x: int, y: int, width: int, line: seq<Byte>)
    requires width < 0
    ensures LineDrawn(g, m, x, y, width, line) == m
  {}

  lemma {:induction false} LineStep(g: Geometry, m: Memory, x: int, y: int, k: nat, line: seq<Byte>)
    requires 3 * (k + 1) <= |line|
    ensures PixelDrawn(g, LineDrawn(g, m, x, y, k, line), x + k, y, LineColor(line, k)) == LineDrawn(g, m, x, y, k + 1, line)
  {
    if !Blank(g) {
      forall b | 0 <= b < |m|
        ensures PixelByte(g, b, LineByte(g, b, m[b], x, y, k, line), x + k, y, LineColor(line, k)) == LineByte(g, b, m[b], x, y, k + 1, line)
      {}
    }
  }

  lemma {:induction false} ImageStart(g: Geometry, m: Memory, x: int, y: int, image: seq<Byte>, width: nat)
    ensures ImageDrawn(g, m, x, y, image, width, 0) == m
  {}

  lemma {:induction false} ImageStep(g: Geometry, m: Memory, x: int, y: int, image: seq<Byte>, width: nat, j: nat)
    requires (j + 1) * (3 * width) <= |image| && j * (3 * width) <= |image|
    ensures LineDrawn(g, ImageDrawn(g, m, x, y, image, width, j), x, y + j, width, ImageRow(image, 3 * width, j))
      == ImageDrawn(g, m, x, y, image, width, j + 1)
  {
    if !Blank(g) {
      forall b | 0 <= b < |m|
        ensures LineByte(g, b, ImageByte(g, b, m[b], x, y, image, width, j), x, y + j, width, ImageRow(image, 3 * width, j))
          == ImageByte(g, b, m[b], x, y, image, width, j + 1)
      {}
    }
  }
}
