/** The share renderer `drawShareToCanvas` (index.js:82-111): a share grid
    becomes a canvas of `w*SUBPIXEL*PIXEL_SIZE` by `h*SUBPIXEL*PIXEL_SIZE`
    device pixels, white except for one `PIXEL_SIZE` square per dark
    sub-pixel. */
module Renderer {
  import opened Params
  import opened Wrappers
  import opened Patterns
  import opened Encoder
  import opened Bitmaps

  /** `share[0].length` on an empty share, and `pattern[py]` on a cell past
      the end of a row shorter than the first, both throw a TypeError. */
  datatype RenderError = EmptyShare | MissingCell

  /** The share can be drawn without throwing: it has a first row, and no
      row is shorter than the first. */
  predicate Drawable(share: Share) {
    |share| > 0 && forall y :: 0 <= y < |share| ==> |share[y]| >= |share[0]|
  }

  /** The square painted for sub-pixel (py, px) of cell (y, x), lines 100-105. */
  function SubPixelRect(x: nat, y: nat, py: nat, px: nat): Rect {
    Rect((x * SUBPIXEL + px) * PIXEL_SIZE, (y * SUBPIXEL + py) * PIXEL_SIZE, PIXEL_SIZE, PIXEL_SIZE)
  }

  /** The `fillRect` issued, if any, for sub-pixel (py, px) of cell (y, x). */
  function SubPixelRects(p: Pattern, x: nat, y: nat, py: nat, px: nat): seq<Rect>
    requires py < SUBPIXEL && px < SUBPIXEL
  {
    if p.At(py, px) then [SubPixelRect(x, y, py, px)] else []
  }

  /** The `fillRect` calls for one cell: loops `py` then `px` (lines 97-98). */
  function CellRects(p: Pattern, x: nat, y: nat): seq<Rect> {
    SubPixelRects(p, x, y, 0, 0) + SubPixelRects(p, x, y, 0, 1)
      + SubPixelRects(p, x, y, 1, 0) + SubPixelRects(p, x, y, 1, 1)
  }

  /** The `fillRect` calls for cells x .. w-1 of row y (line 95). */
  function RowRects(share: Share, y: nat, x: nat, w: nat): seq<Rect>
    requires y < |share| && x <= w <= |share[y]|
    decreases w - x
  {
    if x == w then [] else CellRects(share[y][x], x, y) + RowRects(share, y, x + 1, w)
  }

  /** The `fillRect` calls for rows y .. h-1, `w` cells each (line 94). */
  function GridRects(share: Share, y: nat, w: nat): seq<Rect>
    requires y <= |share|
    requires forall yy :: 0 <= yy < |share| ==> |share[yy]| >= w
    decreases |share| - y
  {
    if y == |share| then [] else RowRects(share, y, 0, w) + GridRects(share, y + 1, w)
  }

  /** The sub-pixel device pixel (X, Y) belongs to: cell
      (Y / CELL, X / CELL), sub-pixel ((Y / PIXEL_SIZE) % SUBPIXEL,
      (X / PIXEL_SIZE) % SUBPIXEL); false outside the share. */
  predicate ShareBit(share: Share, X: nat, Y: nat) {
    && Y / CELL < |share|
    && X / CELL < |share[Y / CELL]|
    && share[Y / CELL][X / CELL].At((Y / PIXEL_SIZE) % SUBPIXEL, (X / PIXEL_SIZE) % SUBPIXEL)
  }

  /** Device coordinate X lies in the square of sub-pixel `px` of cell `x`
      exactly when X / CELL is the cell and (X / PIXEL_SIZE) % SUBPIXEL the
      sub-pixel. */
  lemma SplitCoordinate(X: nat, x: nat, px: nat)
    requires px < SUBPIXEL
    ensures (x * SUBPIXEL + px) * PIXEL_SIZE <= X < (x * SUBPIXEL + px) * PIXEL_SIZE + PIXEL_SIZE
      <==> X / CELL == x && (X / PIXEL_SIZE) % SUBPIXEL == px
  {
  }

  lemma SubPixelPixel(p: Pattern, x: nat, y: nat, py: nat, px: nat, X: nat, Y: nat)
    requires py < SUBPIXEL && px < SUBPIXEL
    ensures Covered(SubPixelRects(p, x, y, py, px), X, Y)
      <==> X / CELL == x && Y / CELL == y && p.At(py, px)
           && (Y / PIXEL_SIZE) % SUBPIXEL == py && (X / PIXEL_SIZE) % SUBPIXEL == px
  {
    SplitCoordinate(X, x, px);
    SplitCoordinate(Y, y, py);
  }

  lemma CellPixel(p: Pattern, x: nat, y: nat, X: nat, Y: nat)
    ensures Covered(CellRects(p, x, y), X, Y)
      <==> X / CELL == x && Y / CELL == y && p.At((Y / PIXEL_SIZE) % SUBPIXEL, (X / PIXEL_SIZE) % SUBPIXEL)
  {
    var r00, r01 := SubPixelRects(p, x, y, 0, 0), SubPixelRects(p, x, y, 0, 1);
    var r10, r11 := SubPixelRects(p, x, y, 1, 0), SubPixelRects(p, x, y, 1, 1);
    CoveredConcat(r00 + r01 + r10, r11, X, Y);
    CoveredConcat(r00 + r01, r10, X, Y);
    CoveredConcat(r00, r01, X, Y);
    SubPixelPixel(p, x, y, 0, 0, X, Y);
    SubPixelPixel(p, x, y, 0, 1, X, Y);
    SubPixelPixel(p, x, y, 1, 0, X, Y);
    SubPixelPixel(p, x, y, 1, 1, X, Y);
  }

  lemma {:induction false} RowPixel(share: Share, y: nat, x: nat, w: nat, X: nat, Y: nat)
    requires y < |share| && x <= w <= |share[y]|
    ensures Covered(RowRects(share, y, x, w), X, Y)
      <==> x <= X / CELL < w && Y / CELL == y
           && share[y][X / CELL].At((Y / PIXEL_SIZE) % SUBPIXEL, (X / PIXEL_SIZE) % SUBPIXEL)
    decreases w - x
  {
    if x < w {
      CoveredConcat(CellRects(share[y][x], x, y), RowRects(share, y, x + 1, w), X, Y);
      CellPixel(share[y][x], x, y, X, Y);
      RowPixel(share, y, x + 1, w, X, Y);
    }
  }

  lemma {:induction false} GridPixel(share: Share, y: nat, w: nat, X: nat, Y: nat)
    requires y <= |share|
    requires forall yy :: 0 <= yy < |share| ==> |share[yy]| >= w
    ensures Covered(GridRects(share, y, w), X, Y)
      <==> y <= Y / CELL < |share| && X / CELL < w && ShareBit(share, X, Y)
    decreases |share| - y
  {
    if y < |share| {
      CoveredConcat(RowRects(share, y, 0, w), GridRects(share, y + 1, w), X, Y);
      RowPixel(share, y, 0, w, X, Y);
      GridPixel(share, y + 1, w, X, Y);
    }
  }

  /** `drawShareToCanvas` on a drawable share: white canvas of the scaled
      size, then every `fillRect` of the loops in order. */
  function Draw(share: Share): (b: Bitmap)
    requires Drawable(share)
    ensures b.Valid() && b.width == |share[0]| * CELL && b.height == |share| * CELL
    ensures forall Y, X :: 0 <= Y < b.height && 0 <= X < b.width ==>
      (b.Dark(X, Y) <==> ShareBit(share, X, Y))
  {
    var w, h := |share[0]|, |share|;
    var b := Paint(Blank(w * CELL, h * CELL), GridRects(share, 0, w));
    DrawPixels(share, b);
    b
  }

  lemma DrawPixels(share: Share, b: Bitmap)
    requires Drawable(share)
    requires b == Paint(Blank(|share[0]| * CELL, |share| * CELL), GridRects(share, 0, |share[0]|))
    ensures forall Y, X :: 0 <= Y < b.height && 0 <= X < b.width ==>
      (b.Dark(X, Y) <==> ShareBit(share, X, Y))
  {
    var w, h := |share[0]|, |share|;
    forall Y, X | 0 <= Y < b.height && 0 <= X < b.width
      ensures b.Dark(X, Y) <==> ShareBit(share, X, Y)
    {
      PaintPixel(Blank(w * CELL, h * CELL), GridRects(share, 0, w), X, Y);
      GridPixel(share, 0, w, X, Y);
    }
  }

  /** `drawShareToCanvas` with its failure cases: the canvas is
      `w*SUBPIXEL*PIXEL_SIZE` by `h*SUBPIXEL*PIXEL_SIZE`, and a device pixel
      is dark exactly when the sub-pixel it belongs to is set; all other
      pixels keep the white background. */
  function Render(share: Share): (r: Result<Bitmap, RenderError>)
    ensures r.Success? <==> Drawable(share)
    ensures r.Success? ==>
      && r.value.Valid()
      && r.value.width == |share[0]| * SUBPIXEL * PIXEL_SIZE
      && r.value.height == |share| * SUBPIXEL * PIXEL_SIZE
    ensures r.Success? ==> forall Y, X :: 0 <= Y < r.value.height && 0 <= X < r.value.width ==>
      (r.value.Dark(X, Y) <==> ShareBit(share, X, Y))
  {
    if |share| == 0 then Failure(EmptyShare)
    else if exists y :: 0 <= y < |share| && |share[y]| < |share[0]| then Failure(MissingCell)
    else Success(Draw(share))
  }
}
