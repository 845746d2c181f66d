/** The canvas pixel buffer as `getImageData` returns it, and the bounding-box
    locator that `sendData` runs over it to anchor the result overlay. */
module Raster {

  /** One channel of an RGBA pixel, as stored in a `Uint8ClampedArray`. */
  newtype Byte = b: int | 0 <= b < 256

  /** A point of the overlay layer; the centre arithmetic is exact here. */
  datatype Position = Position(x: real, y: real)

  /** The rectangle `{minX, minY, maxX, maxY}` the locator leaves behind. */
  datatype Box = Box(minX: int, minY: int, maxX: int, maxY: int)

  /** Every byte index reached by a pixel inside the canvas is inside the
      buffer of `width * height * 4` bytes. */
  lemma AlphaIndexBound(width: nat, height: nat, x: nat, y: nat)
    requires x < width && y < height
    ensures (y * width + x) * 4 + 3 < width * height * 4
  {
    assert y * width + x < (y + 1) * width;
    assert (y + 1) * width <= height * width;
  }

  /** The index of the alpha byte of pixel (x, y) in the row-major buffer. */
  function AlphaIndex(width: nat, height: nat, x: nat, y: nat): (i: nat)
    requires x < width && y < height
    ensures i < width * height * 4
    ensures i % 4 == 3
  {
    AlphaIndexBound(width, height, x, y);
    (y * width + x) * 4 + 3
  }

  /** Two different pixels never share an alpha byte. */
  lemma AlphaIndexInjective(width: nat, height: nat, x1: nat, y1: nat, x2: nat, y2: nat)
    requires x1 < width && y1 < height && x2 < width && y2 < height
    requires AlphaIndex(width, height, x1, y1) == AlphaIndex(width, height, x2, y2)
    ensures x1 == x2 && y1 == y2
  {
    assert y1 * width + x1 == y2 * width + x2;
    if y1 < y2 {
      RowStartsApart(width, y1, y2);
    } else if y2 < y1 {
      RowStartsApart(width, y2, y1);
    }
  }

  /** A later row starts at least one full row further into the buffer. */
  lemma {:induction false} RowStartsApart(width: nat, y1: nat, y2: nat)
    requires y1 < y2
    ensures y1 * width + width <= y2 * width
    decreases y2 - y1
  {
    assert (y2 - 1) * width + width == y2 * width;
    if y1 < y2 - 1 {
      RowStartsApart(width, y1, y2 - 1);
    }
  }

  /** Pixel (x, y) is ink: it lies on the canvas and its alpha byte is not zero. */
  predicate InkAt(s: seq<Byte>, width: nat, height: nat, x: int, y: int)
  {
    |s| == width * height * 4 && 0 <= x < width && 0 <= y < height &&
    s[AlphaIndex(width, height, x, y)] > 0
  }

  ghost predicate HasInk(s: seq<Byte>, width: nat, height: nat)
  {
    exists x, y :: InkAt(s, width, height, x, y)
  }

  /** Every ink pixel lies inside `b`. */
  ghost predicate Contains(s: seq<Byte>, width: nat, height: nat, b: Box)
  {
    forall x, y :: InkAt(s, width, height, x, y) ==>
      b.minX <= x <= b.maxX && b.minY <= y <= b.maxY
  }

  /** Each of the four edges of `b` touches an ink pixel. */
  ghost predicate Tight(s: seq<Byte>, width: nat, height: nat, b: Box)
  {
    && (exists y :: InkAt(s, width, height, b.minX, y))
    && (exists y :: InkAt(s, width, height, b.maxX, y))
    && (exists x :: InkAt(s, width, height, x, b.minY))
    && (exists x :: InkAt(s, width, height, x, b.maxY))
  }

  /** The result the locator is meant to produce: the smallest rectangle
      around the ink, or the degenerate start values when there is none. */
  ghost predicate IsBoundingBox(s: seq<Byte>, width: nat, height: nat, b: Box)
  {
    if HasInk(s, width, height) then Contains(s, width, height, b) && Tight(s, width, height, b)
    else b == Box(width, height, 0, 0)
  }

  /** Pixel (px, py) comes before (x, y) in the row-by-row scan. */
  ghost predicate Scanned(x: int, y: int, px: int, py: int)
  {
    py < y || (py == y && px < x)
  }

  /** One pass over the buffer with the running minimum and maximum of the
      coordinates of every pixel whose alpha byte is positive. */
  method Locate(data: array<Byte>, width: nat, height: nat) returns (box: Box)
    requires data.Length == width * height * 4
    ensures IsBoundingBox(data[..], width, height, box)
  {
    ghost var s := data[..];
    var minX, minY, maxX, maxY := width as int, height as int, 0, 0;
    // Ghost witnesses: an ink pixel on each edge once some ink has been seen.
    ghost var found := false;
    ghost var lx, ly, rx, ry, tx, ty, dx, dy := 0, 0, 0, 0, 0, 0, 0, 0;
    for y := 0 to height
      invariant forall px, py :: InkAt(s, width, height, px, py) && Scanned(0, y, px, py) ==>
        minX <= px <= maxX && minY <= py <= maxY
      invariant found ==>
        && InkAt(s, width, height, lx, ly) && lx == minX
        && InkAt(s, width, height, rx, ry) && rx == maxX
        && InkAt(s, width, height, tx, ty) && ty == minY
        && InkAt(s, width, height, dx, dy) && dy == maxY
      invariant !found ==>
        && minX == width && minY == height && maxX == 0 && maxY == 0
        && forall px, py :: InkAt(s, width, height, px, py) ==> !Scanned(0, y, px, py)
    {
      for x := 0 to width
        invariant forall px, py :: InkAt(s, width, height, px, py) && Scanned(x, y, px, py) ==>
          minX <= px <= maxX && minY <= py <= maxY
        invariant found ==>
          && InkAt(s, width, height, lx, ly) && lx == minX
          && InkAt(s, width, height, rx, ry) && rx == maxX
          && InkAt(s, width, height, tx, ty) && ty == minY
          && InkAt(s, width, height, dx, dy) && dy == maxY
        invariant !found ==>
          && minX == width && minY == height && maxX == 0 && maxY == 0
          && forall px, py :: InkAt(s, width, height, px, py) ==> !Scanned(x, y, px, py)
      {
        if data[AlphaIndex(width, height, x, y)] > 0 {
          assert InkAt(s, width, height, x, y);
          if x < minX { minX := x; lx, ly := x, y; }
          if x > maxX { maxX := x; rx, ry := x, y; }
          if y < minY { minY := y; tx, ty := x, y; }
          if y > maxY { maxY := y; dx, dy := x, y; }
          if !found { rx, ry, dx, dy := x, y, x, y; }
          found := true;
        }
      }
    }
    box := Box(minX, minY, maxX, maxY);
    if found {
      assert InkAt(s, width, height, lx, ly);
    }
  }

  /** The overlay anchor: the midpoint of the box in each axis. */
  function Centre(b: Box): (c: Position)
    ensures c.x - b.minX as real == b.maxX as real - c.x
    ensures c.y - b.minY as real == b.maxY as real - c.y
  {
    Position((b.minX + b.maxX) as real / 2.0, (b.minY + b.maxY) as real / 2.0)
  }

  /** The locator's result is determined by the buffer: two boxes that both
      satisfy the specification are equal. */
  lemma BoundingBoxUnique(s: seq<Byte>, width: nat, height: nat, b1: Box, b2: Box)
    requires IsBoundingBox(s, width, height, b1) && IsBoundingBox(s, width, height, b2)
    ensures b1 == b2
  {
    if HasInk(s, width, height) {
      var y1 :| InkAt(s, width, height, b1.minX, y1);
      var y2 :| InkAt(s, width, height, b2.minX, y2);
      var y3 :| InkAt(s, width, height, b1.maxX, y3);
      var y4 :| InkAt(s, width, height, b2.maxX, y4);
      var x1 :| InkAt(s, width, height, x1, b1.minY);
      var x2 :| InkAt(s, width, height, x2, b2.minY);
      var x3 :| InkAt(s, width, height, x3, b1.maxY);
      var x4 :| InkAt(s, width, height, x4, b2.maxY);
    }
  }

  /** With ink present, the box is a non-empty rectangle inside the canvas. */
  lemma BoundingBoxInsideCanvas(s: seq<Byte>, width: nat, height: nat, b: Box)
    requires IsBoundingBox(s, width, height, b) && HasInk(s, width, height)
    ensures 0 <= b.minX <= b.maxX < width
    ensures 0 <= b.minY <= b.maxY < height
  {
    var y1 :| InkAt(s, width, height, b.minX, y1);
    var y2 :| InkAt(s, width, height, b.maxX, y2);
    var x1 :| InkAt(s, width, height, x1, b.minY);
    var x2 :| InkAt(s, width, height, x2, b.maxY);
  }

  /** An image with no ink yields exactly the start values of the scan, and
      the anchor is the middle of the canvas. */
  lemma EmptyCanvasCentre(s: seq<Byte>, width: nat, height: nat, b: Box)
    requires IsBoundingBox(s, width, height, b) && !HasInk(s, width, height)
    ensures b == Box(width, height, 0, 0)
    ensures Centre(b) == Position(width as real / 2.0, height as real / 2.0)
  {
  }

  /** A buffer of zero bytes (what `clearRect` leaves) holds no ink. */
  lemma BlankBufferHasNoInk(s: seq<Byte>, width: nat, height: nat)
    requires forall i :: 0 <= i < |s| ==> s[i] == 0
    ensures !HasInk(s, width, height)
  {
  }

  /** With ink present, the anchor lies inside the box and on the canvas. */
  lemma CentreInsideBox(s: seq<Byte>, width: nat, height: nat, b: Box)
    requires IsBoundingBox(s, width, height, b) && HasInk(s, width, height)
    ensures b.minX as real <= Centre(b).x <= b.maxX as real
    ensures b.minY as real <= Centre(b).y <= b.maxY as real
    ensures 0.0 <= Centre(b).x < width as real && 0.0 <= Centre(b).y < height as real
  {
    BoundingBoxInsideCanvas(s, width, height, b);
  }

  /** A single ink pixel at (x, y) gives the box {x, y, x, y}. */
  lemma SinglePixelBox(s: seq<Byte>, width: nat, height: nat, x: int, y: int, b: Box)
    requires InkAt(s, width, height, x, y)
    requires forall px, py :: InkAt(s, width, height, px, py) ==> px == x && py == y
    requires IsBoundingBox(s, width, height, b)
    ensures b == Box(x, y, x, y)
  {
    assert HasInk(s, width, height);
    var y1 :| InkAt(s, width, height, b.minX, y1);
    var y2 :| InkAt(s, width, height, b.maxX, y2);
    var x1 :| InkAt(s, width, height, x1, b.minY);
    var x2 :| InkAt(s, width, height, x2, b.maxY);
  }

  /** Ink on every pixel gives the box of the whole canvas. */
  lemma FullInkBox(s: seq<Byte>, width: nat, height: nat, b: Box)
    requires 0 < width && 0 < height
    requires forall px, py :: 0 <= px < width && 0 <= py < height ==> InkAt(s, width, height, px, py)
    requires IsBoundingBox(s, width, height, b)
    ensures b == Box(0, 0, width - 1, height - 1)
  {
    assert InkAt(s, width, height, 0, 0);
    assert InkAt(s, width, height, width - 1, height - 1);
    BoundingBoxInsideCanvas(s, width, height, b);
  }
}
