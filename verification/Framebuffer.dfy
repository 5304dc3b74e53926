/** The black-and-white framebuffer of the display (src/epd200x200.c): one bit a pixel, most
    significant first, and a clear bit for black. Drawing is specified on the grid of pixels. */
module Framebuffer {
  import opened Bits

  const EPD_WIDTH := 200
  const EPD_HEIGHT := 200
  const EPD_FB_SIZE := 5000

  predicate Visible(x: int, y: int) {
    0 <= x < EPD_WIDTH && 0 <= y < EPD_HEIGHT
  }

  /** A pixel of the grid that the buffer stands for. */
  ghost predicate Black(fb: Bytes, x: int, y: int)
    requires |fb| == EPD_FB_SIZE && Visible(x, y)
  {
    var i := y * EPD_WIDTH + x;
    !BitOf(fb[i / 8], 7 - i % 8)
  }

  /** The display is 200 pixels wide and high; each row has 25 bytes, of which every bit is a pixel,
      the one of weight 128 first, and black if it is clear. */
  lemma PixelIs(fb: Bytes, x: int, y: int)
    requires |fb| == 5000
    ensures Visible(x, y) <==> 0 <= x < 200 && 0 <= y < 200
    ensures Visible(x, y) ==>
      (Black(fb, x, y) <==> fb[25 * y + x / 8] / [128, 64, 32, 16, 8, 4, 2, 1][x % 8] % 2 == 0)
  {
    if Visible(x, y) {
      var i := y * EPD_WIDTH + x;
      assert i / 8 == 25 * y + x / 8 && i % 8 == x % 8;
      BitIsDigit(fb[i / 8], 7 - x % 8);
      Weights(x % 8);
    }
  }

  /** The grid determines the buffer. */
  lemma GridDetermines(a: Bytes, b: Bytes)
    requires |a| == |b| == EPD_FB_SIZE
    requires forall x, y :: Visible(x, y) ==> Black(a, x, y) == Black(b, x, y)
    ensures a == b
  {
    forall p | 0 <= p < 8 * EPD_FB_SIZE
      ensures BitAt(a, p) == BitAt(b, p)
    {
      var i := p / 8 * 8 + (7 - p % 8);
      var x, y := i % EPD_WIDTH, i / EPD_WIDTH;
      assert Visible(x, y) && y * EPD_WIDTH + x == i;
      assert i / 8 == p / 8 && 7 - i % 8 == p % 8;
      assert Black(a, x, y) == Black(b, x, y);
    }
    SameBytes(a, b);
  }

  // ----- Painting -----

  /** A set of pixels, visible or not. */
  type Shape = (int, int) -> bool

  /** The visible pixels of the shape get the colour, and no others change. */
  ghost predicate Painted(before: Bytes, after: Bytes, shape: Shape, black: bool) {
    && |before| == |after| == EPD_FB_SIZE
    && forall x, y :: Visible(x, y) ==> Black(after, x, y) == if shape(x, y) then black else Black(before, x, y)
  }

  /** Two shapes painted after each other. */
  lemma PaintBoth(a: Bytes, b: Bytes, c: Bytes, s: Shape, t: Shape, u: Shape, black: bool)
    requires Painted(a, b, s, black) && Painted(b, c, t, black)
    requires forall x, y :: Visible(x, y) ==> u(x, y) == (s(x, y) || t(x, y))
    ensures Painted(a, c, u, black)
  {
  }

  lemma PaintNothing(a: Bytes, s: Shape, black: bool)
    requires |a| == EPD_FB_SIZE && forall x, y :: Visible(x, y) ==> !s(x, y)
    ensures Painted(a, a, s, black)
  {
  }

  ghost function Point(x: int, y: int): Shape {
    (px, py) => px == x && py == y
  }

  /** The pixels of a line between two columns, given in any order. */
  ghost function HLine(x0: int, x1: int, y: int): Shape {
    (px, py) => py == y && (x0 <= px <= x1 || x1 <= px <= x0)
  }

  ghost function VLine(x: int, y0: int, y1: int): Shape {
    (px, py) => px == x && (y0 <= py <= y1 || y1 <= py <= y0)
  }

  ghost function Filled(x: int, y: int, w: int, h: int): Shape {
    (px, py) => x <= px < x + w && y <= py < y + h
  }

  /** A rectangle without its inside. */
  ghost function Outline(x: int, y: int, w: int, h: int): Shape {
    (px, py) => x <= px < x + w && y <= py < y + h && !(x < px < x + w - 1 && y < py < y + h - 1)
  }

  /** Lines from the lower to the higher end, rectangles of w by h pixels, and the four sides of those. */
  lemma ShapesAre(x: int, y: int, w: int, h: int, x1: int, y1: int, px: int, py: int)
    ensures Point(x, y)(px, py) <==> (px, py) == (x, y)
    ensures HLine(x, x1, y)(px, py) <==> py == y && (if x <= x1 then x else x1) <= px <= (if x <= x1 then x1 else x)
    ensures VLine(x, y, y1)(px, py) <==> px == x && (if y <= y1 then y else y1) <= py <= (if y <= y1 then y1 else y)
    ensures Filled(x, y, w, h)(px, py) <==> 0 <= px - x < w && 0 <= py - y < h
    ensures Outline(x, y, w, h)(px, py) <==>
      0 <= px - x < w && 0 <= py - y < h && (px == x || px == x + w - 1 || py == y || py == y + h - 1)
  {
  }

  // ----- Bits of a byte -----

  lemma ClearedBit(b: byte, n: nat)
    requires n < 8
    ensures And(b, Not(Shl(1, n))) < 256
    ensures forall k :: 0 <= k < 8 ==> BitOf(And(b, Not(Shl(1, n))), k) == (k != n && BitOf(b, k))
  {
    forall k | 0 <= k < 8
      ensures BitOf(And(b, Not(Shl(1, n))), k) == (k != n && BitOf(b, k))
    {
      AndBit(b, Not(Shl(1, n)), k);
      NotBit(Shl(1, n), k);
      OneBit(n, k);
    }
  }

  lemma SetBit(b: byte, n: nat)
    requires n < 8
    ensures Or(b, Shl(1, n)) < 256
    ensures forall k :: 0 <= k < 8 ==> BitOf(Or(b, Shl(1, n)), k) == (k == n || BitOf(b, k))
  {
    Pow2Values();
    BitBelow(n, 8);
    OrBound(b, Shl(1, n), 8);
    forall k | 0 <= k < 8
      ensures BitOf(Or(b, Shl(1, n)), k) == (k == n || BitOf(b, k))
    {
      OrBit(b, Shl(1, n), k);
      OneBit(n, k);
    }
  }

  /** One bit of one byte changes. */
  lemma BitPainted(before: Bytes, after: Bytes, x: int, y: int, black: bool)
    requires Visible(x, y) && |before| == |after| == EPD_FB_SIZE
    requires var i := y * EPD_WIDTH + x;
      && (forall q :: 0 <= q < EPD_FB_SIZE && q != i / 8 ==> after[q] == before[q])
      && (forall k :: 0 <= k < 8 ==>
          BitOf(after[i / 8], k) == if k == 7 - i % 8 then !black else BitOf(before[i / 8], k))
    ensures Painted(before, after, Point(x, y), black)
  {
    var i := y * EPD_WIDTH + x;
    forall px, py | Visible(px, py)
      ensures Black(after, px, py) == if Point(x, y)(px, py) then black else Black(before, px, py)
    {
      var j := py * EPD_WIDTH + px;
      if j / 8 != i / 8 {
        assert after[j / 8] == before[j / 8];
      } else {
        SameIndex(x, y, px, py);
      }
    }
  }

  /** No two pixels share a bit. */
  lemma SameIndex(x: int, y: int, px: int, py: int)
    requires Visible(x, y) && Visible(px, py)
    ensures var i, j := y * EPD_WIDTH + x, py * EPD_WIDTH + px;
      i / 8 == j / 8 && i % 8 == j % 8 <==> x == px && y == py
  {
  }

  // ----- Drawing -----

  class Display {
    const fb: array<byte>

    ghost predicate Valid()
      reads this
    {
      fb.Length == EPD_FB_SIZE
    }

    constructor ()
      ensures Valid() && fresh(fb)
    {
      fb := new byte[EPD_FB_SIZE](_ => 0);
    }

    method Clear(black: bool)
      requires Valid()
      modifies fb
      ensures Painted(old(fb[..]), fb[..], (_, _) => true, black)
    {
      Pow2Values();
      forall q | 0 <= q < fb.Length { fb[q] := if black then 0x00 else 0xFF; }
      forall k: nat
        ensures !BitOf(0x00, k) && (k < 8 ==> BitOf(0xFF, k))
      {
        ZeroBit(k);
        OnesBit(8, k);
      }
    }

    method SetPixel(x: int, y: int, black: bool)
      requires Valid()
      modifies fb
      ensures Painted(old(fb[..]), fb[..], Point(x, y), black)
    {
      if x < 0 || x >= EPD_WIDTH || y < 0 || y >= EPD_HEIGHT {
        PaintNothing(fb[..], Point(x, y), black);
        return;
      }
      var pixelIndex := y * EPD_WIDTH + x;
      var byteIndex := pixelIndex / 8;
      var bit := Shl(1, 7 - pixelIndex % 8);
      ClearedBit(fb[byteIndex], 7 - pixelIndex % 8);
      SetBit(fb[byteIndex], 7 - pixelIndex % 8);
      ghost var before := fb[..];
      if black {
        fb[byteIndex] := And(fb[byteIndex], Not(bit));
      } else {
        fb[byteIndex] := Or(fb[byteIndex], bit);
      }
      BitPainted(before, fb[..], x, y, black);
    }

    method DrawHLine(x0: int, x1: int, y: int, black: bool)
      requires Valid()
      modifies fb
      ensures Painted(old(fb[..]), fb[..], HLine(x0, x1, y), black)
    {
      var left, right := x0, x1;
      if y < 0 || y >= EPD_HEIGHT {
        PaintNothing(fb[..], HLine(x0, x1, y), black);
        return;
      }
      if left > right { left, right := right, left; }
      if left < 0 { left := 0; }
      if right >= EPD_WIDTH { right := EPD_WIDTH - 1; }
      ghost var before := fb[..];
      PaintNothing(before, HRun(left, left, y), black);
      var x := left;
      while x <= right
        invariant left <= x && (x <= right + 1 || x == left)
        invariant Painted(before, fb[..], HRun(left, x, y), black)
      {
        ghost var was := fb[..];
        SetPixel(x, y, black);
        PaintBoth(before, was, fb[..], HRun(left, x, y), Point(x, y), HRun(left, x + 1, y), black);
        x := x + 1;
      }
      SamePaint(before, fb[..], HRun(left, x, y), HLine(x0, x1, y), black);
    }

    method DrawVLine(x: int, y0: int, y1: int, black: bool)
      requires Valid()
      modifies fb
      ensures Painted(old(fb[..]), fb[..], VLine(x, y0, y1), black)
    {
      var top, bottom := y0, y1;
      if x < 0 || x >= EPD_WIDTH {
        PaintNothing(fb[..], VLine(x, y0, y1), black);
        return;
      }
      if top > bottom { top, bottom := bottom, top; }
      if top < 0 { top := 0; }
      if bottom >= EPD_HEIGHT { bottom := EPD_HEIGHT - 1; }
      ghost var before := fb[..];
      PaintNothing(before, VRun(x, top, top), black);
      var y := top;
      while y <= bottom
        invariant top <= y && (y <= bottom + 1 || y == top)
        invariant Painted(before, fb[..], VRun(x, top, y), black)
      {
        ghost var was := fb[..];
        SetPixel(x, y, black);
        PaintBoth(before, was, fb[..], VRun(x, top, y), Point(x, y), VRun(x, top, y + 1), black);
        y := y + 1;
      }
      SamePaint(before, fb[..], VRun(x, top, y), VLine(x, y0, y1), black);
    }

    /** The outline of a rectangle, whatever part of it is visible. */
    method DrawRect(x: int, y: int, w: int, h: int, black: bool)
      requires Valid()
      modifies fb
      ensures Painted(old(fb[..]), fb[..], Outline(x, y, w, h), black)
    {
      ghost var a := fb[..];
      if w <= 0 || h <= 0 {
        PaintNothing(a, Outline(x, y, w, h), black);
        return;
      }
      DrawHLine(x, x + w - 1, y, black);
      ghost var b := fb[..];
      DrawHLine(x, x + w - 1, y + h - 1, black);
      ghost var c := fb[..];
      DrawVLine(x, y, y + h - 1, black);
      ghost var d := fb[..];
      DrawVLine(x + w - 1, y, y + h - 1, black);
      FourSides(a, b, c, d, fb[..], x, y, w, h, black);
    }

    method FillRect(x: int, y: int, w: int, h: int, black: bool)
      requires Valid()
      modifies fb
      ensures Painted(old(fb[..]), fb[..], Filled(x, y, w, h), black)
    {
      ghost var before := fb[..];
      if w <= 0 || h <= 0 {
        PaintNothing(before, Filled(x, y, w, h), black);
        return;
      }
      PaintNothing(before, Filled(x, y, w, 0), black);
      var yy := y;
      while yy < y + h
        invariant y <= yy <= y + h
        invariant Painted(before, fb[..], Filled(x, y, w, yy - y), black)
      {
        ghost var was := fb[..];
        DrawHLine(x, x + w - 1, yy, black);
        PaintBoth(before, was, fb[..], Filled(x, y, w, yy - y), HLine(x, x + w - 1, yy), Filled(x, y, w, yy + 1 - y),
            black);
        yy := yy + 1;
      }
    }
  }

  /** Some consecutive pixels of a row, and of a column. */
  ghost function HRun(left: int, right: int, y: int): Shape {
    (px, py) => py == y && left <= px < right
  }

  ghost function VRun(x: int, top: int, bottom: int): Shape {
    (px, py) => px == x && top <= py < bottom
  }

  lemma SamePaint(a: Bytes, b: Bytes, s: Shape, t: Shape, black: bool)
    requires Painted(a, b, s, black)
    requires forall x, y :: Visible(x, y) ==> s(x, y) == t(x, y)
    ensures Painted(a, b, t, black)
  {
  }

  lemma FourSides(a: Bytes, b: Bytes, c: Bytes, d: Bytes, e: Bytes, x: int, y: int, w: int, h: int, black: bool)
    requires w > 0 && h > 0
    requires Painted(a, b, HLine(x, x + w - 1, y), black) && Painted(b, c, HLine(x, x + w - 1, y + h - 1), black)
    requires Painted(c, d, VLine(x, y, y + h - 1), black) && Painted(d, e, VLine(x + w - 1, y, y + h - 1), black)
    ensures Painted(a, e, Outline(x, y, w, h), black)
  {
    forall px, py | Visible(px, py)
      ensures Black(e, px, py) == if Outline(x, y, w, h)(px, py) then black else Black(a, px, py)
    {
      assert Black(d, px, py) == if VLine(x, y, y + h - 1)(px, py) then black else Black(c, px, py);
      assert Black(b, px, py) == if HLine(x, x + w - 1, y)(px, py) then black else Black(a, px, py);
    }
  }
}
