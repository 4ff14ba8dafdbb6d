/** 8-bit channel values and RGBA pixels, as Pillow and NumPy hand them to the scripts. */
module Pixels {

  /** One 8-bit channel value ("L" images, and each band of "RGB"/"RGBA" images). */
  type byte = x: int | 0 <= x < 256

  /** One pixel of an "RGBA" image. */
  datatype Rgba = Rgba(r: byte, g: byte, b: byte, a: byte)

  /** One pixel of an "RGB" image (what `getpixel` returns after `convert('RGB')`). */
  datatype Rgb = Rgb(r: byte, g: byte, b: byte)

  /** The colour bands a statistic can be taken over. */
  datatype Channel = R | G | B

  /** `convert('RGB')` of an RGBA pixel drops the alpha band. */
  function ToRgb(p: Rgba): Rgb
  {
    Rgb(p.r, p.g, p.b)
  }

  function Band(p: Rgb, c: Channel): byte
  {
    match c
    case R => p.r
    case G => p.g
    case B => p.b
  }

  function Min(a: int, b: int): int
  {
    if a <= b then a else b
  }

  function Max(a: int, b: int): int
  {
    if a >= b then a else b
  }

  /** Python's `max(r, g, b)`. */
  function Max3(a: int, b: int, c: int): (m: int)
    ensures m >= a && m >= b && m >= c
    ensures m == a || m == b || m == c
  {
    Max(a, Max(b, c))
  }

  /** Python's `min(r, g, b)`. */
  function Min3(a: int, b: int, c: int): (m: int)
    ensures m <= a && m <= b && m <= c
    ensures m == a || m == b || m == c
  {
    Min(a, Min(b, c))
  }

  /** `r + g + b` in exact (Python int) arithmetic. */
  function Sum(p: Rgba): (s: int)
    ensures 0 <= s <= 765
  {
    p.r + p.g + p.b
  }

  /** The scripts' "saturation": `max(r, g, b) - min(r, g, b)`. */
  function Sat(p: Rgba): (s: int)
    ensures 0 <= s <= 255
  {
    Max3(p.r, p.g, p.b) - Min3(p.r, p.g, p.b)
  }

  /** The scripts' `mean = (r + g + b) / 3` as an exact real number. */
  function Mean(p: Rgba): real
  {
    (p.r + p.g + p.b) as real / 3.0
  }
}
