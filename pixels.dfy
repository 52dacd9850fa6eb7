/**
 * The decoded image both background-removal scripts work on: the flat list
 * of RGBA pixels that PIL returns for an image converted to "RGBA" mode.
 */
module Pixels {

  /** One 8-bit colour channel. */
  type Byte = x: int | 0 <= x <= 255

  /** An (R, G, B, A) tuple as produced by `getdata()` on an RGBA image. */
  datatype Pixel = Pixel(r: Byte, g: Byte, b: Byte, a: Byte)

  /** What every erased pixel becomes: white, fully transparent. */
  const Transparent: Pixel := Pixel(255, 255, 255, 0)

  /** Red, green and blue all strictly exceed `bound`; alpha is not looked at. */
  predicate AllChannelsAbove(p: Pixel, bound: int)
  {
    p.r > bound && p.g > bound && p.b > bound
  }

  /** `p` and `q` have the same colour and may differ in alpha only. */
  predicate SameColour(p: Pixel, q: Pixel)
  {
    p.r == q.r && p.g == q.g && p.b == q.b
  }
}
