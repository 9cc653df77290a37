/** A canvas reduced to what the pipeline uses: a width, a height and a
    dark/light flag per device pixel, painted by `fillRect`. */
module Bitmaps {

  /** `dark[Y][X]` is the pixel in row Y, column X; `false` is the white
      background (`#fff`), `true` is the black fill (`#000`). */
  datatype Bitmap = Bitmap(width: nat, height: nat, dark: seq<seq<bool>>)
  {
    ghost predicate Valid() {
      |dark| == height && forall Y :: 0 <= Y < height ==> |dark[Y]| == width
    }

    /** Pixel (X, Y), with X the column and Y the row. */
    predicate Dark(X: nat, Y: nat)
      requires Valid() && X < width && Y < height
    {
      dark[Y][X]
    }
  }

  /** A canvas of the given size filled white (`fillRect(0, 0, w, h)` with
      `#fff`). */
  function Blank(width: nat, height: nat): (b: Bitmap)
    ensures b.Valid() && b.width == width && b.height == height
    ensures forall Y, X :: 0 <= Y < height && 0 <= X < width ==> !b.Dark(X, Y)
  {
    Bitmap(width, height, seq(height, _ => seq(width, _ => false)))
  }

  /** The argument list of one `fillRect(x, y, w, h)` call. */
  datatype Rect = Rect(x: int, y: int, w: nat, h: nat)
  {
    predicate Covers(X: int, Y: int) {
      x <= X < x + w && y <= Y < y + h
    }
  }

  /** `fillRect` in the dark colour: the pixels the rectangle covers turn
      dark, everything else is kept; the part outside the canvas is
      clipped away. */
  function FillRect(b: Bitmap, r: Rect): (c: Bitmap)
    requires b.Valid()
    ensures c.Valid() && c.width == b.width && c.height == b.height
  {
    Bitmap(b.width, b.height,
      seq(b.height, (Y: int) requires 0 <= Y < b.height =>
        seq(b.width, (X: int) requires 0 <= X < b.width => b.dark[Y][X] || r.Covers(X, Y))))
  }

  /** Some rectangle of the list covers (X, Y). */
  predicate Covered(rects: seq<Rect>, X: int, Y: int) {
    |rects| > 0 && (rects[0].Covers(X, Y) || Covered(rects[1..], X, Y))
  }

  lemma {:induction false} CoveredConcat(a: seq<Rect>, b: seq<Rect>, X: int, Y: int)
    ensures Covered(a + b, X, Y) <==> Covered(a, X, Y) || Covered(b, X, Y)
  {
    if |a| > 0 {
      assert (a + b)[1..] == a[1..] + b;
      CoveredConcat(a[1..], b, X, Y);
    } else {
      assert a + b == b;
    }
  }

  /** The `fillRect` calls of `rects`, issued in order. */
  function Paint(b: Bitmap, rects: seq<Rect>): (c: Bitmap)
    requires b.Valid()
    ensures c.Valid() && c.width == b.width && c.height == b.height
    decreases |rects|
  {
    if |rects| == 0 then b else Paint(FillRect(b, rects[0]), rects[1..])
  }

  /** After a run of `fillRect` calls a pixel is dark exactly when it was
      dark before or one of the rectangles covers it: painting only ever
      darkens, and it darkens nothing outside the rectangles. */
  lemma {:induction false} PaintPixel(b: Bitmap, rects: seq<Rect>, X: nat, Y: nat)
    requires b.Valid() && X < b.width && Y < b.height
    ensures Paint(b, rects).Dark(X, Y) <==> b.Dark(X, Y) || Covered(rects, X, Y)
    decreases |rects|
  {
    if |rects| > 0 {
      PaintPixel(FillRect(b, rects[0]), rects[1..], X, Y);
    }
  }

  /** Pixel-wise OR of two equally sized canvases: the picture obtained by
      stacking two transparencies whose black pixels are opaque. */
  function Overlay(a: Bitmap, b: Bitmap): (c: Bitmap)
    requires a.Valid() && b.Valid() && a.width == b.width && a.height == b.height
    ensures c.Valid() && c.width == a.width && c.height == a.height
    ensures forall Y, X :: 0 <= Y < c.height && 0 <= X < c.width ==>
      (c.Dark(X, Y) <==> a.Dark(X, Y) || b.Dark(X, Y))
  {
    Bitmap(a.width, a.height,
      seq(a.height, (Y: int) requires 0 <= Y < a.height =>
        seq(a.width, (X: int) requires 0 <= X < a.width => a.dark[Y][X] || b.dark[Y][X])))
  }

  /** Number of dark pixels among the `n` pixels of row Y from column X0. */
  function CountRow(b: Bitmap, X0: nat, Y: nat, n: nat): nat
    requires b.Valid() && X0 + n <= b.width && Y < b.height
    decreases n
  {
    if n == 0 then 0
    else CountRow(b, X0, Y, n - 1) + (if b.Dark(X0 + n - 1, Y) then 1 else 0)
  }

  /** Number of dark pixels in the `n` x `n` square whose top-left pixel is
      (X0, Y0). */
  function CountSquare(b: Bitmap, X0: nat, Y0: nat, n: nat): nat
    requires b.Valid() && X0 + n <= b.width && Y0 + n <= b.height
  {
    CountRows(b, X0, Y0, n, n)
  }

  function CountRows(b: Bitmap, X0: nat, Y0: nat, n: nat, rows: nat): nat
    requires b.Valid() && X0 + n <= b.width && Y0 + rows <= b.height
    decreases rows
  {
    if rows == 0 then 0
    else CountRows(b, X0, Y0, n, rows - 1) + CountRow(b, X0, Y0 + rows - 1, n)
  }
}
