/** The thresholding half of `createTextMask` (index.js:36-44). Drawing the
    text and reading the pixels back are the browser's business; the RGBA
    bytes `getImageData` returns are this stage's input. */
module Raster {
  import opened Params

  /** Red-channel values below this count as ink (line 41). */
  const THRESHOLD: nat := 128

  /** Index of the red byte of pixel (x, y) in the RGBA buffer (line 40). */
  function RedIndex(y: nat, x: nat): nat {
    (y * WIDTH + x) * CHANNELS
  }

  lemma RedIndexInRange(y: nat, x: nat)
    requires y < HEIGHT && x < WIDTH
    ensures RedIndex(y, x) < WIDTH * HEIGHT * CHANNELS
  {
    assert y * WIDTH + x <= (HEIGHT - 1) * WIDTH + WIDTH - 1;
  }

  /** The mask is HEIGHT rows of WIDTH cells, and cell (y, x) is 1 exactly
      when the red byte of pixel (x, y) is below the threshold. */
  method ThresholdMask(data: seq<Byte>) returns (mask: seq<seq<Bit>>)
    requires |data| == WIDTH * HEIGHT * CHANNELS
    ensures |mask| == HEIGHT
    ensures forall y :: 0 <= y < HEIGHT ==> |mask[y]| == WIDTH
    ensures forall y, x :: 0 <= y < HEIGHT && 0 <= x < WIDTH ==>
      RedIndex(y, x) < |data| && (mask[y][x] == 1 <==> data[RedIndex(y, x)] < THRESHOLD)
  {
    mask := [];
    var y := 0;
    while y < HEIGHT
      invariant 0 <= y <= HEIGHT
      invariant |mask| == y
      invariant forall yy :: 0 <= yy < y ==> |mask[yy]| == WIDTH
      invariant forall yy, x :: 0 <= yy < y && 0 <= x < WIDTH ==>
        RedIndex(yy, x) < |data| && (mask[yy][x] == 1 <==> data[RedIndex(yy, x)] < THRESHOLD)
    {
      var row: seq<Bit> := [];
      var x := 0;
      while x < WIDTH
        invariant 0 <= x <= WIDTH
        invariant |row| == x
        invariant forall xx :: 0 <= xx < x ==>
          RedIndex(y, xx) < |data| && (row[xx] == 1 <==> data[RedIndex(y, xx)] < THRESHOLD)
      {
        RedIndexInRange(y, x);
        var idx := RedIndex(y, x);
        row := row + [if data[idx] < THRESHOLD then 1 else 0];
        x := x + 1;
      }
      mask := mask + [row];
      y := y + 1;
    }
  }
}
