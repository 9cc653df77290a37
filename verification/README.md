# Temporal visual-cryptography captcha, modelled in Dafny

The captcha page (`index.js`) works in five steps. It draws a five-symbol
challenge string as text and thresholds the pixels into a 150 x 60 mask.
It splits the mask into two shares of a (2,2) visual secret-sharing scheme,
where every mask cell becomes one of two complementary 2x2 sub-pixel
patterns. It renders each share to a canvas at 2 device pixels per
sub-pixel. Finally it flickers the two canvases on the visible canvas,
so that persistence of vision fuses them. This project models that
pipeline as pure functions and small methods, and proves the following:

- the sharing invariant;
- that share1 alone depends only on the coins, and share2 is built the
  same way from the coins XOR the mask, a one-to-one relabelling of coin
  functions;
- that each rendered share alone is half dark in every cell;
- the exact pixel geometry of the renderer;
- that stacking the two rendered shares gives the mask back;
- the strict A/B alternation and single-session behaviour of the flicker
  loop;
- the thresholding rule;
- the shape of the challenge string.

Foreign inputs are parameters:

- the bytes `crypto.getRandomValues` writes are a `seq<Byte>`;
- the RGBA bytes `getImageData` returns (after the browser has drawn the
  text) are a `seq<Byte>`, or a function from the text to those bytes;
- the per-cell `Math.random() < 0.5` coin is a function
  `rand: (nat, nat) -> Bit` that is 0 exactly when the draw is below 0.5.

Modules, one per stage:

- `Params` holds the constants of lines 1-4.
- `Patterns` holds the two sub-pixel patterns.
- `Encoder` holds `generateVisualCryptography`.
- `Bitmaps` is a canvas as a dark/light grid with `fillRect`.
- `Renderer` holds `drawShareToCanvas`, modelled as the list of `fillRect`
  calls its loops issue, painted onto a white canvas.
- `Stacking` holds what the two rendered shares show together.
- `Flicker` holds `startFlickering` as a start/tick state machine.
- `Raster` holds the threshold loop of `createTextMask`.
- `Challenge` holds `generateRandomString` and an ASCII model of the
  comparison.
- `Captcha` holds `generateNewCaptcha` end to end.

Notes on the code:

- Only the red byte of each pixel is compared with 128; the other
  channels are ignored.
- The visible canvas is resized, which also clears it, before the old
  interval is cleared.
- Flickering ends only when a new session replaces it.
- An empty mask is not rejected up front. `mask[0].length` throws a
  TypeError, which is modelled as `Failure(EmptyMask)`.
- A cell missing from a short mask row reads as `undefined`, which is not
  `1`, so it is encoded as background.
- A share row shorter than the first makes the renderer throw, which is
  modelled as `Failure(MissingCell)`.

## Model

| member | source | states |
|---|---|---|
| Patterns.PatternOf | index.js:53-62 | `patterns[rand]` is a family member, and the other coin selects its complement, which is a different pattern |
| Patterns.PatternFamily | index.js:53-62 | each family pattern has exactly 2 of 4 sub-pixels dark; its complement is the other family member; their OR is all dark and their AND all light |
| Patterns.StackedFamily | index.js:70-76 | two family patterns stack to a fully dark block iff they are complements; two equal ones leave exactly 2 sub-pixels dark |
| Encoder.Encode | index.js:47-80 | fails iff the mask is empty (the TypeError of line 49). Otherwise both shares are `mask.length` x `mask[0].length`. Foreground cells get complementary patterns and background cells identical ones. share1 is the share the coins select (`patterns[rand(y,x)]`) whatever the mask, and share2 the share the masked coins `rand XOR mask` select |
| Encoder.MaskingInvolution | index.js:69-76 | XOR-ing the coins with the mask bits twice gives the coins back, so masking pairs coin functions one to one, and the share the twice-masked coins select is share1 again |
| Encoder.RecoverEncoded | index.js:64-79 | decoding inverts encoding: a cell's stacked patterns are fully dark iff the mask cell is 1. So any pair meeting the sharing invariant decodes to the mask as the encoder reads it: short rows padded with 0, every row cut to the first row's width. For a rectangular mask that is exactly the mask (NormalizeRectangular) |
| Bitmaps.PaintPixel | index.js:99-105 | after the `fillRect` calls a pixel is dark iff it was dark before or some painted rectangle covers it |
| Renderer.GridPixel | index.js:94-110 | the rectangles the nested loops paint cover device pixel (X, Y) iff it falls in the share, and the sub-pixel `[(Y/2)%2][(X/2)%2]` of cell `[Y/4][X/4]` is set |
| Renderer.Render | index.js:82-111 | fails iff the share is empty or has a row shorter than the first. Otherwise the canvas is `w*SUBPIXEL*PIXEL_SIZE` by `h*SUBPIXEL*PIXEL_SIZE`, and pixel (X, Y) is dark iff its sub-pixel in the share is set; every other pixel stays white |
| Stacking.ForegroundFullyDark | index.js:70-72 | in the OR of the two rendered shares every pixel of a foreground cell's 4x4 block is dark (16 of 16) |
| Stacking.BackgroundShowsShare | index.js:73-76 | in the OR of the two rendered shares a background cell's block shows exactly that cell's share1 pattern, the same pattern both shares hold there |
| Stacking.BackgroundHalfDark | index.js:73-76 | in the OR of the two rendered shares a background cell's block has exactly 8 of 16 pixels dark |
| Stacking.SingleShareUniform | index.js:68-76 | each rendered share alone has exactly 8 of 16 pixels dark in every cell's block, whatever the mask |
| Stacking.StackRecoversMask | index.js:64-111 | reading the stack of the two rendered shares (cell = 1 iff its block is fully dark) yields the mask as the encoder reads it: short rows padded with 0, every row cut to the first row's width. For a rectangular mask, such as the thresholded raster, that is exactly the mask |
| Stacking.FlickerFusion | index.js:68-76 | over the two flickered frames, a foreground pixel is dark in exactly one frame, and a background pixel in both or in neither |
| Flicker.Init | index.js:7 | before any captcha no interval is held or live, and the single-session invariant holds |
| Flicker.Start | index.js:122-130 | resizes and clears the visible canvas to `c1`'s size. The held interval stops being live. A fresh handle becomes the only live interval, with `showFirst = true` and buffers `c1`, `c2` |
| Flicker.Tick | index.js:130-137 | a callback of a dead handle changes nothing. A live one draws the buffer its flag selects, flips only its own flag and leaves other sessions alone. If that buffer has a zero width or height, `drawImage` throws, and nothing is drawn or flipped. The set of live intervals and the canvas size are kept |
| Flicker.Alternation | index.js:126-137 | from a start with two drawable (non-empty) buffers, tick n (0-based) draws `c1` iff n is even, otherwise `c2`. Before the first tick the canvas is cleared |
| Flicker.EmptyFrameStalls | index.js:126-137 | from a start whose `c1` has a zero dimension, any number of ticks leave the state exactly as the start left it: the canvas stays cleared and the flag stays set |
| Flicker.StaleTicksInert | index.js:128 | after a new start, however many ticks later, a callback of the previous handle draws nothing and changes nothing |
| Flicker.StartTwice | index.js:128-130 | two starts in a row leave exactly one live interval, the second session's, and the first session's handle is gone |
| Raster.ThresholdMask | index.js:36-44 | the mask is HEIGHT rows of WIDTH cells, and `mask[y][x] = 1` iff byte `(y*WIDTH+x)*4` is below 128 |
| Challenge.AlphabetShape | index.js:10 | the alphabet literal has 32 pairwise different symbols, all upper-case letters other than I and O or digits other than 0 and 1 |
| Challenge.RandomString | index.js:9-18 | one character per injected byte, namely `chars[b % 32]`, so the result has the requested length and contains no `0`, `O`, `1` or `I` |
| Challenge.NoModuloBias | index.js:15 | each of the 32 symbols is selected by exactly 8 of the 256 byte values |
| Challenge.AcceptsAnyCase | index.js:154-160 | an entry that is the challenge in any letter case, surrounded by ASCII whitespace, passes the trimmed, upper-cased comparison |
| Challenge.ComparisonExamples | index.js:154-160 | `"kx9p2 "` passes against `KX9P2`, and `"KX9P3"` fails |
| Captcha.StartFlickering | index.js:113-130 | fails iff either share cannot be drawn. Otherwise the only live interval alternates exactly the two renderings, and the visible canvas is resized to them |
| Captcha.ShowImage | index.js:142-145 | for a raster of the page's size, the one live session's canvases stacked read back exactly its thresholded mask, and each canvas alone is half dark in every cell. The first frame is the rendering of the share the coins alone select, and the flag says it is shown first. The canvas is resized to WIDTH*4 x HEIGHT*4 and cleared. The previous interval is no longer live |
| Captcha.GenerateNewCaptcha | index.js:140-145 | the new challenge is five alphabet symbols picked by the bytes. The visible canvas is resized to the rendered WIDTH*4 x HEIGHT*4 and cleared. The one live session's first frame, shown on its first tick, is the rendering of the share the coins alone select (`Draw(CoinShare(rand))`). Its two canvases, stacked, read back exactly the thresholded raster of that challenge, and each canvas alone is half dark in every cell. The previous interval is no longer live |

## Left out

- Text drawing (`fillText`, font, alignment) and `getImageData` (index.js:20-34) are browser rasterisation. Their output bytes are an input of the model.
- `crypto.getRandomValues` and `Math.random` are foreign, and the latter returns a float. Both are replaced by injected bytes and coins, so the model states which share each coin produces, not probabilities.
- Real time is not modelled: the 50 ms period, `setInterval` scheduling and frame timing. A tick is one callback, and callbacks never interleave with `startFlickering`, because the page is single-threaded.
- The DOM plumbing is not modelled: the input and message resets (index.js:147-150), the event wiring (index.js:176-181), and the messages and redirect of `checkCaptcha` (index.js:161-173).
- Challenge.AcceptsAnyCase: trimming and upper-casing cover ASCII only. JavaScript's `trim` also removes Unicode spaces, and `toUpperCase` maps non-ASCII letters.
- `drawImage` is modelled as "the visible canvas now shows that buffer". Partial blits, when the two buffers differ in size, are not modelled; the pipeline always renders both at the same size.
- When `drawShareToCanvas` throws, the canvas it has already resized and partly painted is not modelled, only the failure.
- Share cells that are not 2x2 patterns, and mask cells other than 0 and 1, are excluded by the types. The JavaScript arrays could hold anything.
- Interval handles are modelled as fresh: a counter that is never reused. The host only guarantees that a handle differs from the other active ones; the stale-tick property rests on the cleared callback never firing again, which holds either way.
