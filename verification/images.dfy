/**
 * The host-side values the codec layer produces and consumes: image info,
 * 32-bit RGBA images, and the outcome of a call into the codec module.
 */
module Images {
  import opened Int32Words

  datatype Option<T> = None | Some(value: T)

  /**
   * How a call ends: with a value, with the `error(...)` the code raises
   * (an IllegalStateException carrying `message`), or with a read outside
   * every live region of the module's memory, which the marshaling layer
   * treats as a fatal boundary violation.
   */
  datatype Outcome<T> = Ok(value: T) | Error(message: string) | BoundaryViolation

  /** `CoreImageInfo`: `bpp` is bits per pixel. */
  datatype CoreImageInfo = CoreImageInfo(width: i32, height: i32, bpp: i32)

  /** `CoreImage32`: row-major packed RGBA words, with a flag for the alpha model. */
  datatype CoreImage32 = CoreImage32(width: i32, height: i32, data: seq<i32>, premultiplied: bool)

  /** The shape a `CoreImage32` is meant to have: one word per pixel; nothing enforces it. */
  predicate WellFormed(img: CoreImage32) {
    0 <= img.width && 0 <= img.height && |img.data| == img.width * img.height
  }

  /**
   * The per-pixel conversions behind `premultiplied()` and `depremultiplied()`.
   * Their rounding is not part of this model: they are any functions on words.
   */
  datatype AlphaConversion = AlphaConversion(toPremultiplied: i32 -> i32, toStraight: i32 -> i32)

  function MapPixels(f: i32 -> i32, s: seq<i32>): (r: seq<i32>)
    ensures |r| == |s|
    ensures forall i :: 0 <= i < |s| ==> r[i] == f(s[i])
  {
    seq(|s|, i requires 0 <= i < |s| => f(s[i]))
  }

  /** `premultiplied()`: an image already premultiplied is returned as it is. */
  function Premultiplied(img: CoreImage32, alpha: AlphaConversion): (r: CoreImage32)
    ensures r.premultiplied
    ensures r.width == img.width && r.height == img.height && |r.data| == |img.data|
    ensures WellFormed(img) ==> WellFormed(r)
  {
    if img.premultiplied then img
    else CoreImage32(img.width, img.height, MapPixels(alpha.toPremultiplied, img.data), true)
  }

  /** `depremultiplied()`: an image already in straight alpha is returned as it is. */
  function Depremultiplied(img: CoreImage32, alpha: AlphaConversion): (r: CoreImage32)
    ensures !r.premultiplied
    ensures r.width == img.width && r.height == img.height && |r.data| == |img.data|
    ensures WellFormed(img) ==> WellFormed(r)
  {
    if !img.premultiplied then img
    else CoreImage32(img.width, img.height, MapPixels(alpha.toStraight, img.data), false)
  }
}
