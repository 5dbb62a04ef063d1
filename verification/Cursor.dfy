/** The mouse: a three-byte packet decoder, and a cursor painted over the picture while the
    pixels under it are kept aside. */
module Cursor {
  import opened Framebuffer

  const SIZE := 5
  const SENSITIVITY := 5

  // ---- packets, as values ----

  /** The decoder's static state and the cursor position. */
  datatype Mouse = Mouse(counter: nat, xSign: bool, ySign: bool, xMove: Byte, yMove: Byte, x: int, y: int)

  predicate CursorFits(g: Geometry, x: int, y: int) {
    0 <= x && x + SIZE + 1 <= g.width && 0 <= y && y + SIZE + 1 <= g.height
  }

  // C division of a possibly negative number: truncation towards zero.
  function Quotient(a: int, d: int): int
    requires d > 0
  {
    if a >= 0 then a / d else -(-a / d)
  }

  // How far one packet moves the cursor along an axis, before clamping.
  function Delta(sign: bool, move: Byte): int {
    if sign then Quotient(move - 255, SENSITIVITY) else Quotient(move, SENSITIVITY)
  }

  function Clamp(v: int, limit: int): int {
    var w := if v < 0 then 0 else v;
    if w > limit - (SIZE + 1) then limit - (SIZE + 1) else w
  }

  function Moved(g: Geometry, m: Mouse): Mouse {
    m.(x := Clamp(m.x + Delta(m.xSign, m.xMove), g.width), y := Clamp(m.y - Delta(m.ySign, m.yMove), g.height))
  }

  function Feed(g: Geometry, m: Mouse, b: Byte): Mouse {
    if m.counter == 0 then
      if b / 8 % 2 == 0 then m else m.(xSign := b / 16 % 2 == 1, ySign := b / 32 % 2 == 1, counter := 1)
    else if m.counter == 1 then m.(xMove := b, counter := 2)
    else if m.counter == 2 then Moved(g, m.(yMove := b, counter := 0))
    else m
  }

  function FeedAll(g: Geometry, m: Mouse, bytes: seq<Byte>): Mouse
    decreases bytes
  {
    if bytes == [] then m else FeedAll(g, Feed(g, m, bytes[0]), bytes[1..])
  }

  // ---- the packet grammar ----

  datatype Packet = Packet(first: Byte, second: Byte, third: Byte)

  // Skip bytes with bit 3 clear, then take three.
  function Packets(bytes: seq<Byte>): seq<Packet> {
    if bytes == [] then []
    else if bytes[0] / 8 % 2 == 0 then Packets(bytes[1..])
    else if |bytes| < 3 then []
    else [Packet(bytes[0], bytes[1], bytes[2])] + Packets(bytes[3..])
  }

  // The movement of one packet from a position.
  function Step(g: Geometry, x: int, y: int, p: Packet): (int, int) {
    (Clamp(x + Delta(p.first / 16 % 2 == 1, p.second), g.width),
     Clamp(y - Delta(p.first / 32 % 2 == 1, p.third), g.height))
  }

  function Steps(g: Geometry, x: int, y: int, ps: seq<Packet>): (int, int)
    decreases ps
  {
    if ps == [] then (x, y)
    else
      var (u, v) := Step(g, x, y, ps[0]);
      Steps(g, u, v, ps[1..])
  }

  lemma StepBounded(g: Geometry, x: int, y: int, p: Packet)
    requires CursorFits(g, x, y)
    ensures var (u, v) := Step(g, x, y, p);
      CursorFits(g, u, v) && -51 <= u - x <= 51 && -51 <= v - y <= 51
  {
  }

  /** Where a packet moves the cursor.  Bits 4 and 5 of the first byte are the signs.  To the right
      and up the movement is a fifth of the byte, to the left and down a fifth of 255 less the
      byte, rounded towards zero, unless the border comes first. */
  lemma StepMoves(g: Geometry, x: int, y: int, p: Packet)
    requires CursorFits(g, x, y)
    ensures var (u, v) := Step(g, x, y, p);
      && (p.first / 16 % 2 == 0 ==>
            x <= u <= g.width - 6 && 5 * (u - x) <= p.second && (u == g.width - 6 || p.second < 5 * (u + 1 - x)))
      && (p.first / 16 % 2 == 1 ==>
            0 <= u <= x && 5 * (x - u) <= 255 - p.second && (u == 0 || 255 - p.second < 5 * (x - u + 1)))
      && (p.first / 32 % 2 == 0 ==>
            0 <= v <= y && 5 * (y - v) <= p.third && (v == 0 || p.third < 5 * (y - v + 1)))
      && (p.first / 32 % 2 == 1 ==>
            && y <= v <= g.height - 6 && 5 * (v - y) <= 255 - p.third
            && (v == g.height - 6 || 255 - p.third < 5 * (v + 1 - y)))
  {
    FifthRight(g.width, x, p.second);
    FifthRight(g.height, y, 255 - p.third);
    FifthLeft(g.width, x, 255 - p.second);
    FifthLeft(g.height, y, p.third);
  }

  // A fifth of n towards the far border, and towards zero.
  lemma FifthRight(limit: int, x: int, n: nat)
    requires 0 <= x <= limit - 6
    ensures var u := Clamp(x + n / 5, limit);
      x <= u <= limit - 6 && 5 * (u - x) <= n && (u == limit - 6 || n < 5 * (u + 1 - x))
  {
  }

  lemma FifthLeft(limit: int, x: int, n: nat)
    requires 0 <= x <= limit - 6
    ensures var u := Clamp(x - n / 5, limit);
      0 <= u <= x && 5 * (x - u) <= n && (u == 0 || n < 5 * (x - u + 1))
  {
  }

  /** The same of the decoder: between packets a byte with bit 3 clear is skipped, and three bytes
      of which the first has bit 3 set move the cursor, from (x, y) to (u, v). */
  lemma PacketMoves(g: Geometry, m: Mouse, a: Byte, b: Byte, c: Byte)
    requires m.counter == 0 && CursorFits(g, m.x, m.y)
    ensures a / 8 % 2 == 0 ==> FeedAll(g, m, [a]) == m
    ensures a / 8 % 2 == 1 ==>
      var n := FeedAll(g, m, [a, b, c]);
      var (x, y, u, v) := (m.x, m.y, n.x, n.y);
      && n.counter == 0
      && (a / 16 % 2 == 0 ==> x <= u <= g.width - 6 && 5 * (u - x) <= b && (u == g.width - 6 || b < 5 * (u + 1 - x)))
      && (a / 16 % 2 == 1 ==> 0 <= u <= x && 5 * (x - u) <= 255 - b && (u == 0 || 255 - b < 5 * (x - u + 1)))
      && (a / 32 % 2 == 0 ==> 0 <= v <= y && 5 * (y - v) <= c && (v == 0 || c < 5 * (y - v + 1)))
      && (a / 32 % 2 == 1 ==>
            y <= v <= g.height - 6 && 5 * (v - y) <= 255 - c && (v == g.height - 6 || 255 - c < 5 * (v + 1 - y)))
  {
    hide Clamp, Delta;
    StepMoves(g, m.x, m.y, Packet(a, b, c));
    if a / 8 % 2 == 0 {
      assert [a][1..] == [];
    } else {
      FeedThree(g, m, [a, b, c]);
      assert [a, b, c][3..] == [];
    }
  }

  /** For every byte stream: the cursor goes exactly where the packets of the grammar send it,
      the counter stays below 3, and the cursor stays wholly on the screen. */
  lemma {:induction false} StreamFollowsGrammar(g: Geometry, m: Mouse, bytes: seq<Byte>)
    requires m.counter == 0 && CursorFits(g, m.x, m.y)
    ensures var n := FeedAll(g, m, bytes);
      && (n.x, n.y) == Steps(g, m.x, m.y, Packets(bytes))
      && n.counter < 3 && CursorFits(g, n.x, n.y)
    decreases bytes
  {
    if bytes != [] {
      if bytes[0] / 8 % 2 == 0 {
        StreamFollowsGrammar(g, m, bytes[1..]);
      } else if |bytes| >= 3 {
        var p := Packet(bytes[0], bytes[1], bytes[2]);
        StepBounded(g, m.x, m.y, p);
        var a := Feed(g, m, bytes[0]);
        var b := Feed(g, a, bytes[1]);
        var c := Feed(g, b, bytes[2]);
        FeedThree(g, m, bytes);
        assert (c.x, c.y) == Step(g, m.x, m.y, p);
        StreamFollowsGrammar(g, c, bytes[3..]);
        assert ([p] + Packets(bytes[3..]))[1..] == Packets(bytes[3..]);
      } else {
        var a := Feed(g, m, bytes[0]);
        if |bytes| == 2 {
          assert bytes[1..][1..] == [];
          assert FeedAll(g, a, bytes[1..]) == FeedAll(g, Feed(g, a, bytes[1]), bytes[1..][1..]);
        }
      }
    }
  }

  lemma FeedThree(g: Geometry, m: Mouse, bytes: seq<Byte>)
    requires |bytes| >= 3
    ensures FeedAll(g, m, bytes) == FeedAll(g, Feed(g, Feed(g, Feed(g, m, bytes[0]), bytes[1]), bytes[2]), bytes[3..])
  {
    assert bytes[1..][0] == bytes[1] && bytes[1..][1..] == bytes[2..];
    assert bytes[2..][0] == bytes[2] && bytes[2..][1..] == bytes[3..];
  }

  // ---- the picture under the cursor ----

  // The framebuffer with the saved pixels laid over the cursor's block.
  function Canvas(g: Geometry, fb: seq<Byte>, saved: seq<nat>, x: nat, y: nat): (c: seq<Byte>)
    requires Sane(g) && |saved| == SIZE * SIZE
    ensures |c| == |fb|
    ensures forall k: nat :: k < |fb| ==> c[k] == CanvasByte(g, saved, x, y, k, fb[k])
  {
    seq(|fb|, k requires 0 <= k < |fb| => CanvasByte(g, saved, x, y, k, fb[k]))
  }

  function CanvasByte(g: Geometry, saved: seq<nat>, x: nat, y: nat, k: nat, b: Byte): Byte
    requires Sane(g) && |saved| == SIZE * SIZE
  {
    if InBlock(g, k, x, y, x + SIZE, y + SIZE)
    then Part(saved[Col(g, k) - x + (Row(g, k) - y) * SIZE], Channel(g, k)) else b
  }

  // saved holds the colours of the block at (x, y).
  ghost predicate Holds(g: Geometry, fb: seq<Byte>, saved: seq<nat>, x: nat, y: nat)
    requires Sane(g) && |saved| == SIZE * SIZE && |fb| == Bytes(g)
  {
    forall k: nat :: k < |fb| && InBlock(g, k, x, y, x + SIZE, y + SIZE) ==>
      Part(saved[Col(g, k) - x + (Row(g, k) - y) * SIZE], Channel(g, k)) == fb[k]
  }

  // Painting over a block whose colours are saved does not change the canvas.
  lemma PaintOverSaved(g: Geometry, fb: seq<Byte>, saved: seq<nat>, x: nat, y: nat, colour: nat)
    requires Sane(g) && |saved| == SIZE * SIZE && |fb| == Bytes(g) && Holds(g, fb, saved, x, y)
    ensures Canvas(g, Painted(g, fb, x, y, x + SIZE, y + SIZE, colour), saved, x, y) == fb
  {
    hide Row, Col, Channel, Part;
  }

  /** Drawing on the screen draws on the canvas, except under the cursor, where the canvas
      keeps what it had; so a rectangle that misses the cursor is drawn exactly. */
  lemma DrawAroundCursor(g: Geometry, fb: seq<Byte>, saved: seq<nat>, x: nat, y: nat,
                         x0: nat, y0: nat, x1: nat, y1: nat, colour: nat)
    requires Sane(g) && |saved| == SIZE * SIZE && |fb| == Bytes(g)
    ensures var after := Canvas(g, Painted(g, fb, x0, y0, x1, y1, colour), saved, x, y);
      var canvas := Canvas(g, fb, saved, x, y);
      && (forall k: nat :: k < |fb| ==>
            after[k] == if InBlock(g, k, x, y, x + SIZE, y + SIZE) then canvas[k]
                        else Painted(g, canvas, x0, y0, x1, y1, colour)[k])
      && (x1 <= x || x + SIZE <= x0 || y1 <= y || y + SIZE <= y0 ==>
            after == Painted(g, canvas, x0, y0, x1, y1, colour))
  {
    hide Row, Col, Channel, Part;
  }

  // Filling the saved pixels paints the cursor's block of the canvas.
  lemma SavedFill(g: Geometry, fb: seq<Byte>, saved: seq<nat>, filled: seq<nat>, x: nat, y: nat, colour: nat)
    requires Sane(g) && |saved| == |filled| == SIZE * SIZE && |fb| == Bytes(g)
    requires forall i: nat :: i < SIZE * SIZE ==> filled[i] == colour
    ensures Canvas(g, fb, filled, x, y) == Painted(g, Canvas(g, fb, saved, x, y), x, y, x + SIZE, y + SIZE, colour)
  {
    hide Row, Col, Channel, Part;
  }

  lemma CursorDrawn(g: Geometry, fb: seq<Byte>, x: nat, y: nat)
    requires Sane(g) && CursorFits(g, x, y)
    ensures Drawn(g, fb, x, y, SIZE, SIZE, WHITE) == Painted(g, fb, x, y, x + 5, y + 5, 0xFF_FFFF)
  {
    hide Row, Col, Channel, Part;
  }

  lemma PaintedOver(g: Geometry, fb: seq<Byte>, x: nat, y: nat, below: nat, above: nat)
    requires Sane(g)
    ensures Painted(g, Painted(g, fb, x, y, x + SIZE, y + SIZE, below), x, y, x + SIZE, y + SIZE, above)
      == Painted(g, fb, x, y, x + SIZE, y + SIZE, above)
  {
    hide Row, Col, Channel, Part;
  }

  class Pointer {
    const screen: Screen
    const saved: array<nat>
    var mouse: Mouse
    var left: bool
    var right: bool
    var middle: bool

    ghost predicate Valid()
      reads this
    {
      && screen.Valid() && saved.Length == SIZE * SIZE
      && mouse.counter < 3 && CursorFits(screen.g, mouse.x, mouse.y)
    }

    ghost function Picture(): seq<Byte>
      requires Valid()
      reads this, saved, screen.pixel
    {
      Canvas(screen.g, screen.pixel[..], saved[..], mouse.x, mouse.y)
    }

    // The screen shows the picture with a white cursor in front of it.
    ghost predicate Shown()
      requires Valid()
      reads this, saved, screen.pixel
    {
      screen.pixel[..] == Painted(screen.g, Picture(), mouse.x, mouse.y, mouse.x + 5, mouse.y + 5, 0xFF_FFFF)
    }

    // initialize_cursor
    constructor (screen: Screen)
      requires screen.Valid() && CursorFits(screen.g, 100, 100)
      modifies screen.pixel
      ensures Valid() && fresh(saved) && this.screen == screen && mouse.counter == 0 && mouse.x == 100 && mouse.y == 100
      ensures Picture() == old(screen.pixel[..]) && Shown()
    {
      this.screen := screen;
      saved := new nat[SIZE * SIZE](i => 0);
      mouse := Mouse(0, false, false, 0, 0, 100, 100);
      left, right, middle := false, false, false;
      new;
      Show();
    }

    // save_background: reads the block at the cursor into the saved pixels.
    method SaveBackground()
      requires Valid()
      modifies saved
      ensures Holds(screen.g, screen.pixel[..], saved[..], mouse.x, mouse.y)
    {
      hide Row, Col, Channel, Part, Pack, Offset;
      var g := screen.g;
      var fb := screen.pixel;
      var index := Offset(g, mouse.x, mouse.y);
      OffsetStep(g, mouse.x, mouse.y);
      for y := 0 to SIZE
        invariant index == Offset(g, mouse.x, mouse.y + y)
        invariant forall t: nat :: t < y * SIZE ==> SavedAt(g, fb[..], saved[..], mouse.x, mouse.y, t)
      {
        for x := 0 to SIZE
          invariant index == Offset(g, mouse.x + x, mouse.y + y)
          invariant forall t: nat :: t < x + y * SIZE ==> SavedAt(g, fb[..], saved[..], mouse.x, mouse.y, t)
        {
          OffsetOf(g, mouse.x + x, mouse.y + y, 0);
          OffsetOf(g, mouse.x + x, mouse.y + y, 1);
          OffsetOf(g, mouse.x + x, mouse.y + y, 2);
          PartOfPack(fb[index], fb[index + 1], fb[index + 2]);
          ghost var before := saved[..];
          saved[x + y * SIZE] := Pack(fb[index], fb[index + 1], fb[index + 2]);
          MoreSaved(g, fb[..], before, saved[..], mouse.x, mouse.y, x, y);
          OffsetStep(g, mouse.x + x, mouse.y + y);
          index := index + g.pixel;
        }
        OffsetRow(g, mouse.x, mouse.y + y);
        index := index + (g.pitch - g.pixel * SIZE);
      }
      AllSaved(g, fb[..], saved[..], mouse.x, mouse.y);
    }

    // Saves the block at the cursor and paints the cursor over it.
    method Show()
      requires Valid()
      modifies saved, screen.pixel
      ensures Picture() == old(screen.pixel[..]) && Shown()
    {
      hide Row, Col, Channel, Part, Painted, Canvas, Drawn;
      CursorDrawn(screen.g, screen.pixel[..], mouse.x, mouse.y);
      SaveBackground();
      screen.KdrawRectangle(mouse.x, mouse.y, SIZE, SIZE, WHITE);
      PaintOverSaved(screen.g, old(screen.pixel[..]), saved[..], mouse.x, mouse.y, WHITE);
    }

    // Puts the saved pixels back on the screen.
    method Restore()
      requires Valid()
      modifies screen.pixel
      ensures screen.pixel[..] == old(Picture())
    {
      hide Row, Col, Channel, Part, Pack, Painted;
      var g := screen.g;
      ghost var before := screen.pixel[..];
      for i := 0 to SIZE
        invariant forall k: nat :: k < screen.pixel.Length ==>
          screen.pixel[k] == if InBlock(g, k, mouse.x, mouse.y, mouse.x + i, mouse.y + SIZE)
                             then CanvasByte(g, saved[..], mouse.x, mouse.y, k, before[k]) else before[k]
      {
        for j := 0 to SIZE
          invariant forall k: nat :: k < screen.pixel.Length ==>
            screen.pixel[k] == if InBlock(g, k, mouse.x, mouse.y, mouse.x + i, mouse.y + SIZE)
                                  || InBlock(g, k, mouse.x + i, mouse.y, mouse.x + i + 1, mouse.y + j)
                               then CanvasByte(g, saved[..], mouse.x, mouse.y, k, before[k]) else before[k]
        {
          var colour := saved[i + j * SIZE];
          ghost var now := screen.pixel[..];
          SameParts(colour);
          screen.DrawPixel(mouse.x + i, mouse.y + j, Part(colour, 2), Part(colour, 1), Part(colour, 0));
          assert forall k: nat :: k < screen.pixel.Length ==> screen.pixel[k] == screen.pixel[..][k];
        }
      }
      assert screen.pixel[..] == Canvas(g, before, saved[..], mouse.x, mouse.y);
    }

    /** Moves the cursor; the picture stays what it was. */
    method UpdateCursor()
      requires Valid()
      modifies this`mouse, saved, screen.pixel
      ensures Valid() && mouse == Moved(screen.g, old(mouse)) && Picture() == old(Picture()) && Shown()
    {
      Restore();
      var xMove := if mouse.xSign then mouse.xMove - 255 else mouse.xMove;
      var yMove := if mouse.ySign then mouse.yMove - 255 else mouse.yMove;
      var x := mouse.x + Quotient(xMove, SENSITIVITY);
      var y := mouse.y - Quotient(yMove, SENSITIVITY);
      if x < 0 { x := 0; }
      if x > screen.g.width - (SIZE + 1) { x := screen.g.width - (SIZE + 1); }
      if y < 0 { y := 0; }
      if y > screen.g.height - (SIZE + 1) { y := screen.g.height - (SIZE + 1); }
      mouse := mouse.(x := x, y := y);
      Show();
    }

    /** One byte from the mouse: the decoder advances and the picture stays what it was. */
    method StoreMouseData(packet: Byte)
      requires Valid()
      modifies this, saved, screen.pixel
      ensures Valid() && mouse == Feed(screen.g, old(mouse), packet) && Picture() == old(Picture())
      ensures old(Shown()) ==> Shown()
      ensures old(mouse.counter) == 0 ==>
        left == (packet % 2 == 1) && right == (packet / 2 % 2 == 1) && middle == (packet / 4 % 2 == 1)
      ensures old(mouse.counter) != 0 ==> left == old(left) && right == old(right) && middle == old(middle)
    {
      if mouse.counter == 0 {
        left := packet % 2 == 1;
        right := packet / 2 % 2 == 1;
        middle := packet / 4 % 2 == 1;
        if packet / 8 % 2 == 0 { return; }
        mouse := mouse.(xSign := packet / 16 % 2 == 1, ySign := packet / 32 % 2 == 1, counter := 1);
      } else if mouse.counter == 1 {
        mouse := mouse.(xMove := packet, counter := 2);
      } else {
        mouse := mouse.(yMove := packet, counter := 0);
        UpdateCursor();
      }
    }

    /** Every byte stream leaves the picture as it was. */
    method StoreStream(bytes: seq<Byte>)
      requires Valid()
      modifies this, saved, screen.pixel
      ensures Valid() && mouse == FeedAll(screen.g, old(mouse), bytes) && Picture() == old(Picture())
      ensures old(Shown()) ==> Shown()
    {
      for i := 0 to |bytes|
        invariant Valid() && Picture() == old(Picture()) && (old(Shown()) ==> Shown())
        invariant FeedAll(screen.g, mouse, bytes[i..]) == FeedAll(screen.g, old(mouse), bytes)
      {
        StoreMouseData(bytes[i]);
        assert bytes[i..][1..] == bytes[i + 1..];
      }
    }

    /** update_saved_pixels paints the block under the cursor, in the picture only. */
    method UpdateSavedPixels(colour: nat)
      requires Valid()
      modifies saved
      ensures Picture() == Painted(screen.g, old(Picture()), mouse.x, mouse.y, mouse.x + SIZE, mouse.y + SIZE, colour)
      ensures old(Shown()) ==> Shown()
    {
      ghost var picture := Picture();
      ghost var before := saved[..];
      for i := 0 to SIZE * SIZE
        invariant forall j: nat :: j < i ==> saved[j] == colour
      {
        saved[i] := colour;
      }
      SavedFill(screen.g, screen.pixel[..], before, saved[..], mouse.x, mouse.y, colour);
      PaintedOver(screen.g, picture, mouse.x, mouse.y, colour, 0xFF_FFFF);
    }

    /** clear_screen leaves an all black picture. */
    method ClearScreen()
      requires Valid()
      modifies saved, screen.pixel
      ensures Picture() == Painted(screen.g, old(Picture()), 0, 0, screen.g.width, screen.g.height, 0)
      ensures Shown()
    {
      hide Row, Col, Channel, Part;
      screen.Fill(0, 0, screen.g.width, screen.g.height, 0);
      ghost var black := screen.pixel[..];
      UpdateSavedPixels(0);
      screen.KdrawRectangle(mouse.x, mouse.y, SIZE, SIZE, WHITE);
      assert Picture() == black;
    }
  }

  lemma OffsetStep(g: Geometry, x: nat, y: nat)
    ensures Offset(g, x + 1, y) == Offset(g, x, y) + g.pixel
    ensures Offset(g, x + 0, y + 0) == Offset(g, x, y)
  {
  }

  lemma OffsetRow(g: Geometry, x: nat, y: nat)
    requires Sane(g) && x + SIZE <= g.width
    ensures Offset(g, x, y + 1) == Offset(g, x + SIZE, y) + (g.pitch - g.pixel * SIZE)
    ensures g.pixel * SIZE <= g.pitch
  {
    Monotone(SIZE, g.width, g.pixel);
  }

  // Entry t of saved has the colour bytes of pixel t of the block at (x, y), row by row.
  ghost predicate SavedAt(g: Geometry, fb: seq<Byte>, saved: seq<nat>, x: nat, y: nat, t: nat)
    requires |saved| == SIZE * SIZE
  {
    t < SIZE * SIZE ==>
      forall c: nat :: c < 3 && Offset(g, x + t % SIZE, y + t / SIZE) + c < |fb| ==>
        Part(saved[t], c) == fb[Offset(g, x + t % SIZE, y + t / SIZE) + c]
  }

  lemma MoreSaved(g: Geometry, fb: seq<Byte>, before: seq<nat>, saved: seq<nat>, x: nat, y: nat, i: nat, j: nat)
    requires |before| == SIZE * SIZE && i < SIZE && j < SIZE
    requires Offset(g, x + i, y + j) + 2 < |fb|
    requires var o := Offset(g, x + i, y + j); saved == before[i + j * SIZE := Pack(fb[o], fb[o + 1], fb[o + 2])]
    requires forall t: nat :: t < i + j * SIZE ==> SavedAt(g, fb, before, x, y, t)
    ensures forall t: nat :: t < i + 1 + j * SIZE ==> SavedAt(g, fb, saved, x, y, t)
  {
    hide Offset, Part, Pack;
    var o := Offset(g, x + i, y + j);
    PartOfPack(fb[o], fb[o + 1], fb[o + 2]);
    var n := i + j * SIZE;
    assert n % SIZE == i && n / SIZE == j;
    forall t: nat | t < n + 1 ensures SavedAt(g, fb, saved, x, y, t) {
      if t < n { assert SavedAt(g, fb, before, x, y, t); }
    }
  }

  lemma AllSaved(g: Geometry, fb: seq<Byte>, saved: seq<nat>, x: nat, y: nat)
    requires Sane(g) && |saved| == SIZE * SIZE && |fb| == Bytes(g)
    requires forall t: nat :: t < SIZE * SIZE ==> SavedAt(g, fb, saved, x, y, t)
    ensures Holds(g, fb, saved, x, y)
  {
    hide Row, Col, Channel, Part, Offset;
    forall k: nat | k < |fb| && InBlock(g, k, x, y, x + SIZE, y + SIZE)
      ensures Part(saved[Col(g, k) - x + (Row(g, k) - y) * SIZE], Channel(g, k)) == fb[k]
    {
      ByteIsOffset(g, k);
      var i, j := Col(g, k) - x, Row(g, k) - y;
      assert (i + j * SIZE) % SIZE == i && (i + j * SIZE) / SIZE == j;
      assert SavedAt(g, fb, saved, x, y, i + j * SIZE);
    }
  }
}
