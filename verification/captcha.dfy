/** The whole pipeline of `generateNewCaptcha` (index.js:140-145) and the
    rendering half of `startFlickering` (index.js:113-124): challenge
    string, thresholded raster, two shares, two rendered canvases, one
    flicker session. */
module Captcha {
  import opened Params
  import opened Wrappers
  import opened Encoder
  import opened Bitmaps
  import opened Renderer
  import opened Stacking
  import opened Flicker
  import opened Raster
  import opened Challenge

  /** The page's module-level state: `currentWord` (line 6) and everything
      `flickerInterval` (line 7) and the visible canvas stand for. */
  datatype Page = Page(currentWord: string, compositor: Compositor)

  /** `generateNewCaptcha` asks for five symbols (line 141). */
  const WORD_LENGTH: nat := 5

  /** `startFlickering(share1, share2)`: render both shares (either render
      may throw, before the visible canvas is touched), then start the
      session. On success the only live interval alternates exactly the two
      renderings, and each rendering is the exact picture of its share. */
  function StartFlickering(c: Compositor, share1: Share, share2: Share): (r: Result<Compositor, RenderError>)
    ensures r.Success? <==> Drawable(share1) && Drawable(share2)
    ensures r.Success? ==>
      && r.value.flickerInterval.Some? && r.value.flickerInterval.value in r.value.timers
      && r.value.timers[r.value.flickerInterval.value] == Session(true, Draw(share1), Draw(share2))
      && r.value.surface == Surface(|share1[0]| * CELL, |share1| * CELL, Cleared)
    ensures r.Success? && Valid(c) ==> Valid(r.value) && r.value.timers.Keys == {r.value.flickerInterval.value}
  {
    match Render(share1)
    case Failure(e) => Failure(e)
    case Success(c1) =>
      match Render(share2)
      case Failure(e) => Failure(e)
      case Success(c2) => Success(Start(c, c1, c2))
  }

  /** The session currently installed in `c`, if any. */
  function Current(c: Compositor): Option<Session> {
    if c.flickerInterval.Some? && c.flickerInterval.value in c.timers
    then Some(c.timers[c.flickerInterval.value]) else None
  }

  /** The compositor holds a session that will show its first canvas on
      its next tick, whose two canvases are the size of a
      rendered WIDTH x HEIGHT mask and, stacked, read back as the
      thresholded `image` (cell (y, x) is ink exactly when the red byte of
      pixel (x, y) is below the threshold), while each canvas alone has
      every cell's block exactly half dark. */
  ghost predicate Displays(c: Compositor, image: seq<Byte>)
    requires |image| == WIDTH * HEIGHT * CHANNELS
  {
    && Current(c).Some?
    && var s := Current(c).value;
    && s.showFirst
    && s.first.Valid() && s.second.Valid()
    && s.first.width == s.second.width == WIDTH * CELL
    && s.first.height == s.second.height == HEIGHT * CELL
    && var m := ReadMask(Overlay(s.first, s.second), HEIGHT, WIDTH);
    && (forall y, x :: 0 <= y < HEIGHT && 0 <= x < WIDTH ==>
         RedIndex(y, x) < |image| && (m[y][x] == 1 <==> image[RedIndex(y, x)] < THRESHOLD))
    && (forall y, x :: 0 <= y < HEIGHT && 0 <= x < WIDTH ==>
         BlockCount(s.first, x, y) == CELL * CELL / 2 && BlockCount(s.second, x, y) == CELL * CELL / 2)
  }

  /** Lines 142-145 for one raster `image`: threshold it, split the mask
      into shares with the coins `rand`, and start flickering them. The
      new session shows `image`, starts with the rendering of the share
      the coins alone select, on a cleared canvas of the rendered size,
      and replaces any prior session. */
  method ShowImage(c: Compositor, image: seq<Byte>, rand: Coins) returns (d: Compositor)
    requires |image| == WIDTH * HEIGHT * CHANNELS
    ensures Displays(d, image)
    ensures d.surface == Surface(WIDTH * CELL, HEIGHT * CELL, Cleared)
    ensures Drawable(CoinShare(rand, HEIGHT, WIDTH))
    ensures Current(d).value.first == Draw(CoinShare(rand, HEIGHT, WIDTH))
    ensures Valid(c) ==> Valid(d) && d.timers.Keys == {d.flickerInterval.value}
    ensures Valid(c) && c.flickerInterval.Some? ==> c.flickerInterval.value !in d.timers
  {
    var mask := ThresholdMask(image);
    var encoded := Encode(mask, rand);
    var shares := encoded.value;
    StackRecoversMask(mask, shares.share1, shares.share2);
    NormalizeRectangular(mask);
    forall y, x | 0 <= y < HEIGHT && 0 <= x < WIDTH
      ensures BlockCount(Draw(shares.share1), x, y) == CELL * CELL / 2
      ensures BlockCount(Draw(shares.share2), x, y) == CELL * CELL / 2
    {
      SingleShareUniform(mask, shares.share1, shares.share2, x, y);
    }
    var started := StartFlickering(c, shares.share1, shares.share2);
    d := started.value;
  }

  /** `generateNewCaptcha` with its foreign inputs made explicit: `random`
      is what `crypto.getRandomValues` writes, `raster` is what drawing a
      text and calling `getImageData` yields, and `rand` is the per-cell
      `Math.random` coin. The new challenge is five alphabet symbols; the
      page shows one fresh session on a cleared canvas of the rendered
      size, which starts with the first frame (the rendering of the share
      the coins alone select), whose stacked frames read back exactly
      the thresholded picture of that challenge, and whose frames alone are
      half dark in every cell; a prior session no longer runs. */
  method GenerateNewCaptcha(page: Page, random: seq<Byte>, raster: string -> seq<Byte>, rand: Coins)
    returns (next: Page)
    requires |random| == WORD_LENGTH
    requires forall t :: |raster(t)| == WIDTH * HEIGHT * CHANNELS
    ensures |next.currentWord| == WORD_LENGTH
    ensures forall i :: 0 <= i < WORD_LENGTH ==>
      next.currentWord[i] == Alphabet()[random[i] % 32] && InAlphabet(next.currentWord[i])
    ensures Displays(next.compositor, raster(next.currentWord))
    ensures next.compositor.surface == Surface(WIDTH * CELL, HEIGHT * CELL, Cleared)
    ensures Drawable(CoinShare(rand, HEIGHT, WIDTH))
    ensures Current(next.compositor).value.first == Draw(CoinShare(rand, HEIGHT, WIDTH))
    ensures Valid(page.compositor) ==>
      Valid(next.compositor) && next.compositor.timers.Keys == {next.compositor.flickerInterval.value}
    ensures Valid(page.compositor) && page.compositor.flickerInterval.Some? ==>
      page.compositor.flickerInterval.value !in next.compositor.timers
  {
    AlphabetShape();
    var word := RandomString(random);
    var shown := ShowImage(page.compositor, raster(word), rand);
    next := Page(word, shown);
  }
}
