/** The pixel types of the one-shot object detection compositing pipeline:
    8-bit channels, opaque RGB pixels and RGBA pixels with an alpha channel,
    the two fill colours, and the per-pixel RGB to RGBA conversion. */
module Pixels {

  /** One 8-bit unsigned channel (boost::gil's bits8). */
  type Channel = x: int | 0 <= x < 256

  /** The fully opaque alpha value; 0 is fully transparent. */
  const OpaqueAlpha: Channel := 255

  /** An rgb8 pixel. */
  datatype Rgb8 = Rgb8(r: Channel, g: Channel, b: Channel)

  /** An rgba8 pixel; `a` is the alpha channel. */
  datatype Rgba8 = Rgba8(r: Channel, g: Channel, b: Channel, a: Channel)

  /** Fill colour of the output buffer: opaque white. */
  const RgbWhite: Rgb8 := Rgb8(255, 255, 255)

  /** Fill colour of the transformed buffer: white with alpha 0, i.e. fully
      transparent, although the constant is named as if it were white. */
  const RgbaWhite: Rgba8 := Rgba8(255, 255, 255, 0)

  /** The colour channels of an RGBA pixel, alpha dropped. */
  function ColorOf(p: Rgba8): Rgb8
  {
    Rgb8(p.r, p.g, p.b)
  }

  /** What copy_and_convert_pixels does to one pixel when it converts rgb8 to
      rgba8: the colour is kept and the missing alpha is set to the channel's
      maximum, so the converted pixel is fully opaque. */
  function RgbToRgba(p: Rgb8): (q: Rgba8)
    ensures ColorOf(q) == p
    ensures q.a == OpaqueAlpha
  {
    Rgba8(p.r, p.g, p.b, 255)
  }
}
