/** Drawing into a byte framebuffer, described byte by byte. */
module Framebuffer {
  import Words

  type Byte = Words.Byte

  const WHITE := 0xFF_FFFF

  /** Size of the screen in pixels, bytes in a row, bytes in a pixel. */
  datatype Geometry = Geometry(width: nat, height: nat, pitch: nat, pixel: nat)

  // The byte distance of n steps of d bytes.
  function Steps(n: nat, d: nat): nat {
    n * d
  }

  // The bytes of the whole screen.
  function Bytes(g: Geometry): nat {
    Steps(g.height, g.pitch)
  }

  predicate Sane(g: Geometry) {
    && 3 <= g.pixel < 0x100 && Steps(g.width, g.pixel) <= g.pitch < 0x1_0000
    && g.width < 0x1_0000 && g.height < 0x1_0000
    && 0 < g.pitch && Bytes(g) < 0x8000_0000
  }

  // ---- which pixel a byte belongs to ----

  function Div(a: nat, b: nat): nat
    requires b > 0
  {
    a / b
  }

  function Mod(a: nat, b: nat): nat
    requires b > 0
  {
    a % b
  }

  function Row(g: Geometry, k: nat): nat
    requires Sane(g)
  {
    Div(k, g.pitch)
  }

  function Col(g: Geometry, k: nat): nat
    requires Sane(g)
  {
    Div(Mod(k, g.pitch), g.pixel)
  }

  // 0, 1 and 2 are blue, green and red; the rest of a pixel is never written.
  function Channel(g: Geometry, k: nat): nat
    requires Sane(g)
  {
    Mod(Mod(k, g.pitch), g.pixel)
  }

  function Offset(g: Geometry, x: nat, y: nat): nat {
    Steps(x, g.pixel) + Steps(y, g.pitch)
  }

  lemma DivModUnique(a: nat, b: nat, d: nat)
    requires b < d
    ensures Div(Steps(a, d) + b, d) == a && Mod(Steps(a, d) + b, d) == b
  {
    var q, r := (a * d + b) / d, (a * d + b) % d;
    assert r - b == (a - q) * d;
    if a > q { Multiple(a - q, d); }
    if q > a { Multiple(q - a, d); }
  }

  lemma Multiple(k: int, d: int)
    requires k >= 1 && d >= 0
    ensures k * d >= d && (-k) * d <= -d
  {
  }

  /** Offset and channel are the inverse of row, column and channel. */
  lemma OffsetOf(g: Geometry, x: nat, y: nat, c: nat)
    requires Sane(g) && x < g.width && c < g.pixel
    ensures var k := Offset(g, x, y) + c;
      Row(g, k) == y && Col(g, k) == x && Channel(g, k) == c
    ensures y < g.height ==> Offset(g, x, y) + c < Bytes(g)
  {
    hide Steps, Div, Mod;
    var m := Steps(x, g.pixel) + c;
    StepsGrow(x, g.width, g.pixel);
    StepsGrow(g.width, x + 1, g.pixel);
    assert m < g.pitch;
    DivModUnique(y, m, g.pitch);
    DivModUnique(x, c, g.pixel);
    StepsGrow(y, g.height, g.pitch);
    StepsGrow(g.height, y + 1, g.pitch);
  }

  lemma OffsetIs(g: Geometry, x: nat, y: nat)
    ensures Offset(g, x, y) == Steps(x, g.pixel) + Steps(y, g.pitch)
  {
  }

  lemma StepsGrow(a: nat, b: nat, d: nat)
    requires d > 0
    ensures Steps(a + 1, d) == Steps(a, d) + d
    ensures Steps(a, d) < Steps(b, d) <==> a < b
  {
    if a < b { Monotone(a + 1, b, d); } else { Monotone(b, a, d); }
  }

  lemma Monotone(a: nat, b: nat, d: nat)
    requires a <= b
    ensures a * d <= b * d
  {
  }

  lemma ByteIsOffset(g: Geometry, k: nat)
    requires Sane(g)
    ensures k == Offset(g, Col(g, k), Row(g, k)) + Channel(g, k)
  {
    var m := k % g.pitch;
    assert k == k / g.pitch * g.pitch + m;
    assert m == m / g.pixel * g.pixel + m % g.pixel;
  }

  // ---- colours ----

  function Part(colour: nat, c: nat): Byte {
    if c == 0 then colour % 0x100 else if c == 1 then colour / 0x100 % 0x100 else colour / 0x1_0000 % 0x100
  }

  function Pack(b: Byte, gr: Byte, r: Byte): nat {
    b + 0x100 * gr + 0x1_0000 * r
  }

  lemma PartOfPack(b: Byte, gr: Byte, r: Byte)
    ensures Part(Pack(b, gr, r), 0) == b && Part(Pack(b, gr, r), 1) == gr && Part(Pack(b, gr, r), 2) == r
  {
    var high := gr + 0x100 * r;
    assert Pack(b, gr, r) / 0x100 == high;
    assert Pack(b, gr, r) / 0x1_0000 == r;
  }

  lemma PackIs(b: Byte, gr: Byte, r: Byte)
    ensures Pack(b, gr, r) == 0x1_0000 * r + 0x100 * gr + b
  {
  }

  lemma BlackParts()
    ensures forall c: nat :: Part(0, c) == 0
  {
  }

  // ---- rectangles ----

  // Byte k is a colour byte of a pixel in columns x0..x1 and rows y0..y1.
  predicate InBlock(g: Geometry, k: nat, x0: nat, y0: nat, x1: nat, y1: nat)
    requires Sane(g)
  {
    x0 <= Col(g, k) < x1 && y0 <= Row(g, k) < y1 && Channel(g, k) < 3
  }

  function Painted(g: Geometry, fb: seq<Byte>, x0: nat, y0: nat, x1: nat, y1: nat, colour: nat): (r: seq<Byte>)
    requires Sane(g)
    ensures |r| == |fb|
    ensures forall k: nat :: k < |fb| ==>
      r[k] == if InBlock(g, k, x0, y0, x1, y1) then Part(colour, Channel(g, k)) else fb[k]
  {
    seq(|fb|, k requires 0 <= k < |fb| => if InBlock(g, k, x0, y0, x1, y1) then Part(colour, Channel(g, k)) else fb[k])
  }

  function Min(a: nat, b: nat): nat {
    if a <= b then a else b
  }

  // A sum of two uint32_t values.
  function U32(a: nat): nat {
    a % 0x1_0000_0000
  }

  predicate OnScreen(g: Geometry, x: nat, y: nat) {
    x < g.width && y < g.height
  }

  // Where draw_pixel writes; the index is computed in 32 bits.
  function Index(g: Geometry, x: nat, y: nat): nat {
    U32(Offset(g, x, y))
  }

  function Poke(g: Geometry, fb: seq<Byte>, x: nat, y: nat, colour: nat): (r: seq<Byte>)
    requires Index(g, x, y) + 2 < |fb|
    ensures |r| == |fb|
  {
    var i := Index(g, x, y);
    fb[i := Part(colour, 0)][i + 1 := Part(colour, 1)][i + 2 := Part(colour, 2)]
  }

  // What kdraw_rectangle draws; position plus size is computed in 32 bits.
  function Drawn(g: Geometry, fb: seq<Byte>, x: nat, y: nat, w: nat, h: nat, colour: nat): seq<Byte>
    requires Sane(g)
  {
    if x >= g.width || y >= g.height then fb
    else Painted(g, fb, x, y, Min(U32(x + w), g.width), Min(U32(y + h), g.height), colour)
  }

  // The rectangle asked for, clipped to the screen.
  function Rectangle(g: Geometry, fb: seq<Byte>, x: nat, y: nat, w: nat, h: nat, colour: nat): seq<Byte>
    requires Sane(g)
  {
    Painted(g, fb, x, y, Min(x + w, g.width), Min(y + h, g.height), colour)
  }

  // A position plus the truncated size is the truncated sum.
  lemma Clip(x: nat, w: nat, limit: nat)
    requires x < limit < 0x1_0000 && w < 0x1_0000_0000
    ensures U32(x + (if U32(x + w) >= limit then limit - x else w)) == Min(U32(x + w), limit)
  {
  }

  class Screen {
    const g: Geometry
    const pixel: array<Byte>

    ghost predicate Valid() {
      Sane(g) && pixel.Length == Bytes(g)
    }

    constructor (g: Geometry, pixel: array<Byte>)
      requires Sane(g) && pixel.Length == Bytes(g)
      ensures Valid() && this.g == g && this.pixel == pixel
    {
      this.g := g;
      this.pixel := pixel;
    }

    // Sets three bytes; on the screen they are the colour bytes of the pixel.  Nothing keeps
    // the index within the buffer, so the caller has to.
    method DrawPixel(x: nat, y: nat, red: Byte, green: Byte, blue: Byte)
      requires Valid() && (OnScreen(g, x, y) || Index(g, x, y) + 2 < pixel.Length)
      modifies pixel
      ensures Index(g, x, y) + 2 < pixel.Length
      ensures pixel[..] == Poke(g, old(pixel[..]), x, y, Pack(blue, green, red))
      ensures OnScreen(g, x, y) ==>
        pixel[..] == Painted(g, old(pixel[..]), x, y, x + 1, y + 1, Pack(blue, green, red))
    {
      hide Row, Col, Channel, Offset, Part, Pack, Painted, U32, Bytes;
      ghost var before := pixel[..];
      if OnScreen(g, x, y) { OnScreenAgrees(g, before, x, y, Pack(blue, green, red)); }
      var i := Index(g, x, y);
      PartOfPack(blue, green, red);
      pixel[i] := blue;
      pixel[i + 1] := green;
      pixel[i + 2] := red;
      assert pixel[..] == Poke(g, before, x, y, Pack(blue, green, red));
    }

    method KdrawRectangle(x: nat, y: nat, w: nat, h: nat, colour: nat)
      requires Valid() && x < 0x1_0000_0000 && y < 0x1_0000_0000 && w < 0x1_0000_0000 && h < 0x1_0000_0000
      modifies pixel
      ensures pixel[..] == Drawn(g, old(pixel[..]), x, y, w, h, colour)
    {
      hide Row, Col, Channel, Part, Painted, U32, Steps, Bytes;
      if x >= g.width || y >= g.height { return; }
      var width, height := w, h;
      Clip(x, w, g.width);
      Clip(y, h, g.height);
      if U32(x + width) >= g.width { width := g.width - x; }
      if U32(y + height) >= g.height { height := g.height - y; }
      Fill(x, y, U32(x + width), U32(y + height), colour);
    }

    // The two drawing loops: rows y0 to y1, columns x0 to x1.
    method Fill(x0: nat, y0: nat, x1: nat, y1: nat, colour: nat)
      requires Valid() && x1 <= g.width && y1 <= g.height
      modifies pixel
      ensures pixel[..] == Painted(g, old(pixel[..]), x0, y0, x1, y1, colour)
    {
      hide Row, Col, Channel, Part, Painted, Offset, Steps, Bytes;
      var red, green, blue := Part(colour, 2), Part(colour, 1), Part(colour, 0);
      ghost var before := pixel[..];
      ghost var r := y0;
      var y := Steps(y0, g.pitch);
      StepsGrow(y0, y1, g.pitch);
      while y < Steps(y1, g.pitch)
        invariant y0 <= r && (r <= y1 || r == y0) && y == Steps(r, g.pitch) && (y < Steps(y1, g.pitch) <==> r < y1)
        invariant forall k: nat :: k < pixel.Length ==>
          pixel[k] == if InBlock(g, k, x0, y0, x1, r) then Part(colour, Channel(g, k)) else before[k]
        decreases y1 - r
      {
        ghost var q := x0;
        var x := Steps(x0, g.pixel);
        StepsGrow(x0, x1, g.pixel);
        while x < Steps(x1, g.pixel)
          invariant x0 <= q && (q <= x1 || q == x0) && x == Steps(q, g.pixel) && (x < Steps(x1, g.pixel) <==> q < x1)
          invariant forall k: nat :: k < pixel.Length ==>
            pixel[k] == if InBlock(g, k, x0, y0, x1, r) || InBlock(g, k, x0, r, q, r + 1)
                        then Part(colour, Channel(g, k)) else before[k]
          decreases x1 - q
        {
          OffsetOf(g, q, r, 0);
          OffsetOf(g, q, r, 1);
          OffsetOf(g, q, r, 2);
          OffsetIs(g, q, r);
          ghost var now := pixel[..];
          pixel[x + y] := blue;
          pixel[x + y + 1] := green;
          pixel[x + y + 2] := red;
          forall k: nat | k < pixel.Length
            ensures pixel[k] == if InBlock(g, k, q, r, q + 1, r + 1) then Part(colour, Channel(g, k)) else now[k]
          {
            ByteIsOffset(g, k);
          }
          StepsGrow(q, x1, g.pixel);
          StepsGrow(q + 1, x1, g.pixel);
          x := x + g.pixel;
          q := q + 1;
        }
        StepsGrow(r, y1, g.pitch);
        StepsGrow(r + 1, y1, g.pitch);
        y := y + g.pitch;
        r := r + 1;
      }
      assert pixel[..] == Painted(g, before, x0, y0, x1, y1, colour);
    }

    // sys_draw_rectangle: single pixels take a shorter way.
    method SysDrawRectangle(x: nat, y: nat, w: nat, h: nat, colour: nat)
      requires Valid() && x < 0x1_0000_0000 && y < 0x1_0000_0000 && w < 0x1_0000_0000 && h < 0x1_0000_0000
      requires w == 1 && h == 1 ==> OnScreen(g, x, y) || Index(g, x, y) + 2 < pixel.Length
      modifies pixel
      ensures w == 1 && h == 1 ==>
        Index(g, x, y) + 2 < pixel.Length && pixel[..] == Poke(g, old(pixel[..]), x, y, colour)
      ensures (w == 1 && h == 1 ==> OnScreen(g, x, y)) ==> pixel[..] == Drawn(g, old(pixel[..]), x, y, w, h, colour)
    {
      hide Row, Col, Channel, Part, Painted, Offset, Index;
      if w == 1 && h == 1 {
        Wrap(x + 1);
        Wrap(y + 1);
        SameParts(colour);
        var red, green, blue := Part(colour, 2), Part(colour, 1), Part(colour, 0);
        DrawPixel(x, y, red, green, blue);
        SameColour(g, old(pixel[..]), x, y, x + 1, y + 1, colour, Pack(blue, green, red));
      } else {
        KdrawRectangle(x, y, w, h, colour);
      }
    }
  }

  /** The picture is the clipped rectangle exactly when position plus size does not wrap around;
      when it does, nothing at all is drawn. */
  lemma DrawnIsClipped(g: Geometry, x: nat, y: nat, w: nat, h: nat, size: nat)
    requires Sane(g) && size == Bytes(g) && x < g.width && y < g.height
    requires 0 < w < 0x1_0000_0000 && 0 < h < 0x1_0000_0000
    ensures (x + w < 0x1_0000_0000 && y + h < 0x1_0000_0000) <==>
      forall fb: seq<Byte>, c: nat :: |fb| == size ==> Drawn(g, fb, x, y, w, h, c) == Rectangle(g, fb, x, y, w, h, c)
    ensures !(x + w < 0x1_0000_0000 && y + h < 0x1_0000_0000) ==>
      forall fb: seq<Byte>, c: nat :: |fb| == size ==> Drawn(g, fb, x, y, w, h, c) == fb
  {
    hide Row, Col, Channel, Offset, Part, Painted, Drawn, Rectangle;
    forall fb: seq<Byte>, c: nat | |fb| == size
      ensures if x + w < 0x1_0000_0000 && y + h < 0x1_0000_0000
        then Drawn(g, fb, x, y, w, h, c) == Rectangle(g, fb, x, y, w, h, c) else Drawn(g, fb, x, y, w, h, c) == fb
    {
      DrawnCase(g, fb, x, y, w, h, c);
    }
    var fb: seq<Byte> := seq(size, k => 0);
    RectangleShows(g, fb, x, y, w, h);
  }

  lemma Wrap(a: nat)
    requires a < 0x2_0000_0000
    ensures U32(a) == if a < 0x1_0000_0000 then a else a - 0x1_0000_0000
  {
  }

  lemma DrawnCase(g: Geometry, fb: seq<Byte>, x: nat, y: nat, w: nat, h: nat, c: nat)
    requires Sane(g) && x < g.width && y < g.height && w < 0x1_0000_0000 && h < 0x1_0000_0000
    ensures if x + w < 0x1_0000_0000 && y + h < 0x1_0000_0000
      then Drawn(g, fb, x, y, w, h, c) == Rectangle(g, fb, x, y, w, h, c) else Drawn(g, fb, x, y, w, h, c) == fb
  {
    hide Row, Col, Channel, Part, U32;
    Wrap(x + w);
    Wrap(y + h);
  }

  lemma RectangleShows(g: Geometry, fb: seq<Byte>, x: nat, y: nat, w: nat, h: nat)
    requires Sane(g) && x < g.width && y < g.height && 0 < w && 0 < h && |fb| == Bytes(g)
    ensures (forall k: nat :: k < |fb| ==> fb[k] == 0) ==> Rectangle(g, fb, x, y, w, h, WHITE) != fb
  {
    hide Row, Col, Channel, Offset, Part;
    OffsetOf(g, x, y, 0);
    WhiteParts();
    assert Rectangle(g, fb, x, y, w, h, WHITE)[Offset(g, x, y)] == 0xFF;
  }

  // The three bytes of a pixel.
  function PixelBytes(fb: seq<Byte>, k: nat): (b: seq<Byte>)
    requires k + 2 < |fb|
    ensures |b| == 3 && b[0] == fb[k] && b[1] == fb[k + 1] && b[2] == fb[k + 2]
  {
    fb[k..k + 3]
  }

  /** Painting in the colour 0xRRGGBB, pixel by pixel: the bytes of a pixel in the block become
      BB, GG and RR, and those of any other pixel stay. */
  lemma PaintedBytes(g: Geometry, fb: seq<Byte>, x0: nat, y0: nat, x1: nat, y1: nat,
                     red: Byte, green: Byte, blue: Byte, x: nat, y: nat)
    requires Sane(g) && |fb| == Bytes(g) && x < g.width && y < g.height
    ensures var k := Offset(g, x, y);
      var r := Painted(g, fb, x0, y0, x1, y1, 0x1_0000 * red + 0x100 * green + blue);
      k + 2 < |fb| && PixelBytes(r, k)
        == if x0 <= x < x1 && y0 <= y < y1 then [blue, green, red] else PixelBytes(fb, k)
  {
    hide Row, Col, Channel, Offset, Part, Pack, Painted, Bytes;
    PackIs(blue, green, red);
    PartOfPack(blue, green, red);
    OffsetOf(g, x, y, 0);
    OffsetOf(g, x, y, 1);
    OffsetOf(g, x, y, 2);
  }

  // The clipped rectangle is the one asked for, on every pixel of the screen.
  lemma RectangleBytes(g: Geometry, fb: seq<Byte>, left: nat, top: nat, w: nat, h: nat,
                       red: Byte, green: Byte, blue: Byte, x: nat, y: nat)
    requires Sane(g) && |fb| == Bytes(g) && x < g.width && y < g.height
    ensures var k := Offset(g, x, y);
      var r := Rectangle(g, fb, left, top, w, h, 0x1_0000 * red + 0x100 * green + blue);
      k + 2 < |fb| == |r| && PixelBytes(r, k)
        == if left <= x < left + w && top <= y < top + h then [blue, green, red] else PixelBytes(fb, k)
  {
    hide Row, Col, Channel, Offset, Part, Painted, Bytes;
    PaintedBytes(g, fb, left, top, Min(left + w, g.width), Min(top + h, g.height), red, green, blue, x, y);
  }

  lemma SameParts(colour: nat)
    ensures forall c: nat :: Part(Pack(Part(colour, 0), Part(colour, 1), Part(colour, 2)), c) == Part(colour, c)
  {
    PartOfPack(Part(colour, 0), Part(colour, 1), Part(colour, 2));
  }

  lemma SameColour(g: Geometry, fb: seq<Byte>, x0: nat, y0: nat, x1: nat, y1: nat, a: nat, b: nat)
    requires Sane(g) && forall c: nat :: Part(a, c) == Part(b, c)
    ensures Painted(g, fb, x0, y0, x1, y1, a) == Painted(g, fb, x0, y0, x1, y1, b)
  {
    hide Part;
  }

  // ---- the short way ----

  /** The 1x1 path stays in the buffer and draws what kdraw_rectangle draws exactly for pixels on
      the screen.  Beyond the right edge it writes into the padding or the next row, and beyond
      the last row it leaves the buffer, or wraps around into it, where the rectangle is clipped. */
  lemma FastPathAgrees(g: Geometry, x: nat, y: nat)
    requires Sane(g)
    ensures OnScreen(g, x, y) <==>
      && Index(g, x, y) + 2 < Bytes(g)
      && forall fb: seq<Byte>, colour: nat :: |fb| == Bytes(g) ==>
           Poke(g, fb, x, y, colour) == Rectangle(g, fb, x, y, 1, 1, colour)
  {
    hide Row, Col, Channel, Offset, Part, Painted, U32, Bytes, Index;
    if OnScreen(g, x, y) {
      forall fb: seq<Byte>, colour: nat | |fb| == Bytes(g)
        ensures Index(g, x, y) + 2 < Bytes(g) && Poke(g, fb, x, y, colour) == Rectangle(g, fb, x, y, 1, 1, colour)
      {
        OnScreenAgrees(g, fb, x, y, colour);
      }
      OnScreenAgrees(g, seq(Bytes(g), k => 0), x, y, 0);
    } else if Index(g, x, y) + 2 < Bytes(g) {
      var fb: seq<Byte> := seq(Bytes(g), k => 0);
      WhiteParts();
      assert Poke(g, fb, x, y, WHITE)[Index(g, x, y) + 2] == 0xFF;
      assert Rectangle(g, fb, x, y, 1, 1, WHITE)[Index(g, x, y) + 2] == 0;
    }
  }

  lemma WhiteParts()
    ensures Part(WHITE, 0) == Part(WHITE, 1) == Part(WHITE, 2) == 0xFF
  {
  }

  // On the screen the index does not wrap and lies in the buffer.
  lemma IndexOnScreen(g: Geometry, x: nat, y: nat)
    requires Sane(g) && OnScreen(g, x, y)
    ensures Index(g, x, y) == Offset(g, x, y) && Offset(g, x, y) + 2 < Bytes(g)
  {
    hide Offset, Bytes, Row, Col, Channel, Steps;
    OffsetOf(g, x, y, 2);
  }

  lemma OnScreenAgrees(g: Geometry, fb: seq<Byte>, x: nat, y: nat, colour: nat)
    requires Sane(g) && |fb| == Bytes(g) && OnScreen(g, x, y)
    ensures Index(g, x, y) + 2 < |fb|
    ensures Poke(g, fb, x, y, colour) == Painted(g, fb, x, y, x + 1, y + 1, colour)
    ensures Poke(g, fb, x, y, colour) == Rectangle(g, fb, x, y, 1, 1, colour)
  {
    hide Row, Col, Channel, Offset, Part, Painted, U32, Bytes, Index;
    IndexOnScreen(g, x, y);
    OffsetOf(g, x, y, 0);
    OffsetOf(g, x, y, 1);
    OffsetOf(g, x, y, 2);
    forall k: nat | k < |fb|
      ensures Poke(g, fb, x, y, colour)[k] == Painted(g, fb, x, y, x + 1, y + 1, colour)[k]
    {
      ByteIsOffset(g, k);
    }
    assert Poke(g, fb, x, y, colour) == Painted(g, fb, x, y, x + 1, y + 1, colour);
  }
}
