/** Colour values as the QR tool sees them through PIL: 8-bit RGB and RGBA
    pixels, and the integer form of the BT.601 brightness test. */
module Colour {

  /** One 8-bit colour channel. */
  type Channel = x: int | 0 <= x <= 255

  datatype Rgb = Rgb(r: Channel, g: Channel, b: Channel)

  datatype Rgba = Rgba(r: Channel, g: Channel, b: Channel, a: Channel)

  /** Names one of the three colour channels, so that per-channel facts are
      stated once. */
  datatype Component = Red | Green | Blue

  datatype Option<T> = None | Some(value: T)

  function Get(p: Rgb, c: Component): Channel
  {
    match c
    case Red => p.r
    case Green => p.g
    case Blue => p.b
  }

  /** One thousand times the ITU-R BT.601 luma 0.299 R + 0.587 G + 0.114 B,
      kept in integers so that no rounding is involved. */
  function Luma1000(p: Rgb): (l: int)
    ensures 0 <= l <= 255000
    ensures p == Black <==> l == 0
  {
    299 * p.r + 587 * p.g + 114 * p.b
  }

  /** The integer form of the source's "brightness < 128" test. It agrees
      with the floating-point test except at a luma of exactly 128000, such
      as (128, 128, 128), where the floating-point sum falls just below 128. */
  function IsDark(p: Rgb): (dark: bool)
    ensures p.r < 128 && p.g < 128 && p.b < 128 ==> dark
    ensures p.r >= 128 && p.g >= 128 && p.b >= 128 ==> !dark
  {
    Luma1000(p) < 128000
  }

  /** Python's two-argument `min` and `max`. */
  function Min(a: int, b: int): int { if a <= b then a else b }
  function Max(a: int, b: int): int { if a >= b then a else b }

  const Black := Rgb(0, 0, 0)
  const White := Rgb(255, 255, 255)
}
