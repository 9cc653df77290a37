/** Display configuration shared by every stage of the captcha pipeline
    (index.js:1-4), together with the small value types the stages exchange. */
module Params {

  /** Width and height, in mask cells, of the rasterised challenge text. */
  const WIDTH: nat := 150
  const HEIGHT: nat := 60

  /** Device pixels per sub-pixel side, and sub-pixels per mask-cell side. */
  const PIXEL_SIZE: nat := 2
  const SUBPIXEL: nat := 2

  /** Device pixels per mask-cell side once a share is rendered. */
  const CELL: nat := SUBPIXEL * PIXEL_SIZE

  /** Bytes per pixel in the RGBA buffer the canvas hands back. */
  const CHANNELS: nat := 4

  /** A 0/1 value, as stored in the mask and in a sub-pixel pattern. */
  type Bit = b: int | 0 <= b <= 1

  /** One byte of a `Uint8Array` / `Uint8ClampedArray`. */
  type Byte = b: int | 0 <= b < 256
}
