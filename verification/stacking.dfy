/** What the two rendered shares show together. Stacked (pixel-wise OR),
    every foreground cell is a fully dark block and every background cell
    a half-dark one, so the stack gives the mask back; flickered, each
    pixel of a foreground cell is dark in exactly one of the two frames.
    Follows from the encoder (index.js:64-79) and the renderer
    (index.js:82-111). */
module Stacking {
  import opened Params
  import opened Patterns
  import opened Encoder
  import opened Bitmaps
  import opened Renderer

  /** The block of cell (x, y) lies inside the canvas. */
  predicate HasBlock(b: Bitmap, x: nat, y: nat) {
    (x + 1) * CELL <= b.width && (y + 1) * CELL <= b.height
  }

  /** Pixel (j, i) of the block of cell (x, y), counted from its top-left
      corner. */
  predicate BlockPixel(b: Bitmap, x: nat, y: nat, i: nat, j: nat)
    requires b.Valid() && HasBlock(b, x, y) && i < CELL && j < CELL
  {
    b.Dark(x * CELL + j, y * CELL + i)
  }

  /** Every device pixel of cell (x, y)'s CELL x CELL block is dark exactly
      when pattern `p` has the sub-pixel it belongs to set. */
  ghost predicate ShowsPattern(b: Bitmap, x: nat, y: nat, p: Pattern)
    requires b.Valid() && HasBlock(b, x, y)
  {
    forall i, j :: 0 <= i < CELL && 0 <= j < CELL ==>
      (BlockPixel(b, x, y, i, j) <==> p.At(i / PIXEL_SIZE, j / PIXEL_SIZE))
  }

  /** Dark pixels in the block of cell (x, y). */
  function BlockCount(b: Bitmap, x: nat, y: nat): nat
    requires b.Valid() && HasBlock(b, x, y)
  {
    CountSquare(b, x * CELL, y * CELL, CELL)
  }

  /** Offset j inside the block of cell x is device coordinate
      x * CELL + j, which lies in cell x and in sub-pixel j / PIXEL_SIZE. */
  lemma Offset(x: nat, j: nat)
    requires j < CELL
    ensures (x * CELL + j) / CELL == x
    ensures ((x * CELL + j) / PIXEL_SIZE) % SUBPIXEL == j / PIXEL_SIZE
  {
  }

  /** The count of one device row of a block showing `p`: each of the
      row's two sub-pixels contributes PIXEL_SIZE pixels. The proof walks
      the CELL = 4 columns one by one, so it is specialised to the 2 x 2
      sub-pixels of PIXEL_SIZE 2 the page uses. */
  lemma RowOfBlock(b: Bitmap, x: nat, y: nat, p: Pattern, i: nat)
    requires b.Valid() && HasBlock(b, x, y) && i < CELL
    requires ShowsPattern(b, x, y, p)
    ensures CountRow(b, x * CELL, y * CELL + i, CELL)
      == PIXEL_SIZE * Count(p.At(i / PIXEL_SIZE, 0)) + PIXEL_SIZE * Count(p.At(i / PIXEL_SIZE, 1))
  {
    var X0, Y := x * CELL, y * CELL + i;
    var left, right := p.At(i / PIXEL_SIZE, 0), p.At(i / PIXEL_SIZE, 1);
    assert BlockPixel(b, x, y, i, 0) == left;
    assert BlockPixel(b, x, y, i, 1) == left;
    assert BlockPixel(b, x, y, i, 2) == right;
    assert BlockPixel(b, x, y, i, 3) == right;
    assert CountRow(b, X0, Y, 1) == Count(left);
    assert CountRow(b, X0, Y, 2) == 2 * Count(left);
    assert CountRow(b, X0, Y, 3) == 2 * Count(left) + Count(right);
  }

  /** The block count is the sum of its CELL = 4 row counts (one
      parameter per row, so specialised like RowOfBlock). */
  lemma BlockSum(b: Bitmap, x: nat, y: nat, r0: nat, r1: nat, r2: nat, r3: nat)
    requires b.Valid() && HasBlock(b, x, y)
    requires CountRow(b, x * CELL, y * CELL, CELL) == r0
    requires CountRow(b, x * CELL, y * CELL + 1, CELL) == r1
    requires CountRow(b, x * CELL, y * CELL + 2, CELL) == r2
    requires CountRow(b, x * CELL, y * CELL + 3, CELL) == r3
    ensures BlockCount(b, x, y) == r0 + r1 + r2 + r3
  {
    var X0, Y0 := x * CELL, y * CELL;
    assert CountRows(b, X0, Y0, CELL, 2) == r0 + r1;
    assert CountRows(b, X0, Y0, CELL, 4) == r0 + r1 + r2 + r3;
  }

  /** A block that shows pattern `p` has PIXEL_SIZE * PIXEL_SIZE dark
      device pixels per dark sub-pixel of `p`. */
  lemma BlockOfPattern(b: Bitmap, x: nat, y: nat, p: Pattern)
    requires b.Valid() && HasBlock(b, x, y)
    requires ShowsPattern(b, x, y, p)
    ensures BlockCount(b, x, y) == PIXEL_SIZE * PIXEL_SIZE * Ones(p)
  {
    var top := PIXEL_SIZE * Count(p.a00) + PIXEL_SIZE * Count(p.a01);
    var bottom := PIXEL_SIZE * Count(p.a10) + PIXEL_SIZE * Count(p.a11);
    RowOfBlock(b, x, y, p, 0);
    RowOfBlock(b, x, y, p, 1);
    RowOfBlock(b, x, y, p, 2);
    RowOfBlock(b, x, y, p, 3);
    BlockSum(b, x, y, top, top, bottom, bottom);
  }

  lemma OrAt(p: Pattern, q: Pattern, py: nat, px: nat)
    requires py < SUBPIXEL && px < SUBPIXEL
    ensures Or(p, q).At(py, px) <==> p.At(py, px) || q.At(py, px)
  {
  }

  lemma DrawPixel(share: Share, x: nat, y: nat, i: nat, j: nat)
    requires Drawable(share) && y < |share| && x < |share[0]| && i < CELL && j < CELL
    ensures HasBlock(Draw(share), x, y)
    ensures BlockPixel(Draw(share), x, y, i, j) <==> share[y][x].At(i / PIXEL_SIZE, j / PIXEL_SIZE)
  {
    Offset(x, j);
    Offset(y, i);
  }

  /** A rendered share shows each of its cells in that cell's block. */
  lemma DrawShows(share: Share, x: nat, y: nat)
    requires Drawable(share) && y < |share| && x < |share[0]|
    ensures HasBlock(Draw(share), x, y)
    ensures ShowsPattern(Draw(share), x, y, share[y][x])
  {
    forall i, j | 0 <= i < CELL && 0 <= j < CELL
      ensures BlockPixel(Draw(share), x, y, i, j) <==> share[y][x].At(i / PIXEL_SIZE, j / PIXEL_SIZE)
    {
      DrawPixel(share, x, y, i, j);
    }
  }

  lemma StackPixel(s1: Share, s2: Share, h: nat, w: nat, x: nat, y: nat, i: nat, j: nat)
    requires h > 0 && HasShape(s1, h, w) && HasShape(s2, h, w) && y < h && x < w
    requires i < CELL && j < CELL
    ensures Drawable(s1) && Drawable(s2)
    ensures HasBlock(Overlay(Draw(s1), Draw(s2)), x, y)
    ensures BlockPixel(Overlay(Draw(s1), Draw(s2)), x, y, i, j)
      <==> Or(s1[y][x], s2[y][x]).At(i / PIXEL_SIZE, j / PIXEL_SIZE)
  {
    DrawPixel(s1, x, y, i, j);
    DrawPixel(s2, x, y, i, j);
    OrAt(s1[y][x], s2[y][x], i / PIXEL_SIZE, j / PIXEL_SIZE);
  }

  /** The stack of the two rendered shares shows, in each cell's block, the
      OR of the two cell patterns. */
  lemma StackShows(s1: Share, s2: Share, h: nat, w: nat, x: nat, y: nat)
    requires h > 0 && HasShape(s1, h, w) && HasShape(s2, h, w) && y < h && x < w
    ensures Drawable(s1) && Drawable(s2)
    ensures HasBlock(Overlay(Draw(s1), Draw(s2)), x, y)
    ensures ShowsPattern(Overlay(Draw(s1), Draw(s2)), x, y, Or(s1[y][x], s2[y][x]))
  {
    var b := Overlay(Draw(s1), Draw(s2));
    forall i, j | 0 <= i < CELL && 0 <= j < CELL
      ensures BlockPixel(b, x, y, i, j) <==> Or(s1[y][x], s2[y][x]).At(i / PIXEL_SIZE, j / PIXEL_SIZE)
    {
      StackPixel(s1, s2, h, w, x, y, i, j);
    }
  }

  /** Stacking the rendered shares turns every foreground cell into a
      fully dark block: all CELL * CELL device pixels are dark. */
  lemma ForegroundFullyDark(mask: Mask, s1: Share, s2: Share, x: nat, y: nat)
    requires |mask| > 0 && EncodesMask(mask, s1, s2)
    requires y < |mask| && x < |mask[0]| && Pixel(mask, y, x) == 1
    ensures Drawable(s1) && Drawable(s2) && HasBlock(Overlay(Draw(s1), Draw(s2)), x, y)
    ensures forall i, j :: 0 <= i < CELL && 0 <= j < CELL ==> BlockPixel(Overlay(Draw(s1), Draw(s2)), x, y, i, j)
    ensures BlockCount(Overlay(Draw(s1), Draw(s2)), x, y) == CELL * CELL
  {
    StackShows(s1, s2, |mask|, |mask[0]|, x, y);
    PatternFamily(s1[y][x]);
    BlockOfPattern(Overlay(Draw(s1), Draw(s2)), x, y, Full());
  }

  /** Stacking the rendered shares shows, in every background cell's
      block, the single pattern both shares hold there. */
  lemma BackgroundShowsShare(mask: Mask, s1: Share, s2: Share, x: nat, y: nat)
    requires |mask| > 0 && EncodesMask(mask, s1, s2)
    requires y < |mask| && x < |mask[0]| && Pixel(mask, y, x) != 1
    ensures Drawable(s1) && Drawable(s2) && HasBlock(Overlay(Draw(s1), Draw(s2)), x, y)
    ensures ShowsPattern(Overlay(Draw(s1), Draw(s2)), x, y, s1[y][x])
  {
    StackShows(s1, s2, |mask|, |mask[0]|, x, y);
    assert Or(s1[y][x], s1[y][x]) == s1[y][x];
  }

  /** Stacking the rendered shares turns every background cell into a
      block with exactly half of its device pixels dark: the two dark
      sub-pixels of that shared pattern. */
  lemma BackgroundHalfDark(mask: Mask, s1: Share, s2: Share, x: nat, y: nat)
    requires |mask| > 0 && EncodesMask(mask, s1, s2)
    requires y < |mask| && x < |mask[0]| && Pixel(mask, y, x) != 1
    ensures Drawable(s1) && Drawable(s2) && HasBlock(Overlay(Draw(s1), Draw(s2)), x, y)
    ensures BlockCount(Overlay(Draw(s1), Draw(s2)), x, y) == CELL * CELL / 2
  {
    BackgroundShowsShare(mask, s1, s2, x, y);
    PatternFamily(s1[y][x]);
    BlockOfPattern(Overlay(Draw(s1), Draw(s2)), x, y, s1[y][x]);
  }

  /** A single rendered share has exactly half of every block dark,
      whatever the mask: on its own it shows no trace of the text. */
  lemma SingleShareUniform(mask: Mask, s1: Share, s2: Share, x: nat, y: nat)
    requires |mask| > 0 && EncodesMask(mask, s1, s2)
    requires y < |mask| && x < |mask[0]|
    ensures Drawable(s1) && Drawable(s2)
    ensures HasBlock(Draw(s1), x, y) && HasBlock(Draw(s2), x, y)
    ensures BlockCount(Draw(s1), x, y) == CELL * CELL / 2
    ensures BlockCount(Draw(s2), x, y) == CELL * CELL / 2
  {
    DrawShows(s1, x, y);
    DrawShows(s2, x, y);
    PatternFamily(s1[y][x]);
    BlockOfPattern(Draw(s1), x, y, s1[y][x]);
    BlockOfPattern(Draw(s2), x, y, s2[y][x]);
  }

  /** Reading a stacked picture back: a cell is foreground exactly when its
      whole block is dark. */
  function ReadMask(b: Bitmap, h: nat, w: nat): (m: Mask)
    requires b.Valid() && b.width == w * CELL && b.height == h * CELL
    ensures HasShape(m, h, w)
  {
    seq(h, (y: int) requires 0 <= y < h =>
      seq(w, (x: int) requires 0 <= x < w =>
        if BlockCount(b, x, y) == CELL * CELL then 1 else 0))
  }

  /** The reconstruction theorem: for any share pair satisfying the
      sharing invariant, reading the stack of the two rendered shares
      yields the mask back (with short rows read as background). */
  lemma StackRecoversMask(mask: Mask, s1: Share, s2: Share)
    requires |mask| > 0 && EncodesMask(mask, s1, s2)
    ensures Drawable(s1) && Drawable(s2)
    ensures ReadMask(Overlay(Draw(s1), Draw(s2)), |mask|, |mask[0]|) == Normalize(mask)
  {
    var h, w := |mask|, |mask[0]|;
    var m, n := ReadMask(Overlay(Draw(s1), Draw(s2)), h, w), Normalize(mask);
    forall y | 0 <= y < h
      ensures m[y] == n[y]
    {
      forall x | 0 <= x < w
        ensures m[y][x] == n[y][x]
      {
        if Pixel(mask, y, x) == 1 {
          ForegroundFullyDark(mask, s1, s2, x, y);
        } else {
          BackgroundHalfDark(mask, s1, s2, x, y);
        }
      }
    }
  }

  /** How many of the two flickered frames show pixel (X, Y) dark. */
  function DarkFrames(a: Bitmap, b: Bitmap, X: nat, Y: nat): nat
    requires a.Valid() && b.Valid() && X < a.width && X < b.width && Y < a.height && Y < b.height
  {
    Count(a.Dark(X, Y)) + Count(b.Dark(X, Y))
  }

  /** What persistence of vision fuses: inside a foreground cell every
      pixel is dark in exactly one of the two frames (an even grey);
      inside a background cell every pixel is dark in both frames or in
      neither (the static pattern both shares share). */
  lemma FlickerFusion(mask: Mask, s1: Share, s2: Share, X: nat, Y: nat)
    requires |mask| > 0 && EncodesMask(mask, s1, s2)
    requires Y < |mask| * CELL && X < |mask[0]| * CELL
    ensures Drawable(s1) && Drawable(s2)
    ensures Pixel(mask, Y / CELL, X / CELL) == 1 ==> DarkFrames(Draw(s1), Draw(s2), X, Y) == 1
    ensures Pixel(mask, Y / CELL, X / CELL) != 1 ==> DarkFrames(Draw(s1), Draw(s2), X, Y) != 1
  {
    PatternFamily(s1[Y / CELL][X / CELL]);
  }
}
