/**
 * The three-channel pixel. In the program a pixel is an object with three
 * `unsigned int` fields that is only ever replaced as a whole (setPixels
 * writes all three channels at once) and read channel by channel
 * (getPixel1 .. getPixel3), so it is a value here.
 */
module Pixels {
  import opened Word

  datatype Pixel = Pixel(p1: u32, p2: u32, p3: u32)

  /** Channel `c` of `p`: 0 is getPixel1, 1 is getPixel2, 2 is getPixel3. */
  function Channel(p: Pixel, c: nat): u32
    requires c < 3
  {
    if c == 0 then p.p1 else if c == 1 then p.p2 else p.p3
  }

  /** The `(unsigned char)` cast used when a channel is written back as a byte. */
  function ToByte(v: u32): (b: u8)
    ensures v < 256 ==> b == v
    ensures (v - b) % 256 == 0
  {
    v % 256
  }
}
