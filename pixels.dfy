/** Value types shared by the render loop and the pixel sink. */
module Pixels {

  /** Rust `u8`. */
  type U8 = x: int | 0 <= x < 0x100

  /** Rust `u32`. */
  type U32 = x: int | 0 <= x < 0x1_0000_0000

  /** An 8-bit-per-channel colour (`Srgb8`). */
  datatype Srgb8 = Srgb8(red: U8, green: U8, blue: U8)

  /** One staged pixel of the strip: a colour and a per-pixel brightness (`Pixel`). */
  datatype Pixel = Pixel(red: U8, green: U8, blue: U8, brightness: U8)

  /** An animated segment, with the five values `Segment::new` is given:
      pixel count, direction flag, the two colours it moves between, and its period. */
  datatype Segment = Segment(length: nat, mirrored: bool, startColor: Srgb8, endColor: Srgb8, period: nat)

  /** `Segment::color_at`: the colour of a segment at a time in milliseconds.
      Its definition lives outside this model, so the render loop takes it as a parameter. */
  type ColorAt = (Segment, U32) -> Srgb8

  /** The brightness every segment pixel is staged with. */
  const SegmentBrightness: U8 := 40

  /** The pixel a segment of colour `c` is painted with. */
  function SegmentPixel(c: Srgb8): Pixel
  {
    Pixel(c.red, c.green, c.blue, SegmentBrightness)
  }
}
