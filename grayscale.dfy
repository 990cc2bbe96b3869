/**
 * Grayscale reduction (convert_grayscale). The function's comment promises
 * the average of the three channels, but the code adds the FIRST channel to
 * itself three times in 32-bit unsigned arithmetic and divides by 3; the
 * model follows the code: the second and third channels never matter.
 */
module Grayscale {
  import opened Word
  import opened Pixels

  /** The largest value `Gray` can produce: (2^32 - 1) / 3. */
  const MAX_GRAY: int := 0x5555_5555

  /** `(P1 + P1 + P1) / 3`, each addition wrapping at 2^32. */
  function Gray(p1: u32): (g: u32)
    ensures g <= MAX_GRAY
    ensures p1 <= MAX_GRAY <==> g == p1
  {
    Add(Add(p1, p1), p1) / 3
  }

  /** The pixel setPixels(val1, val1, val1) stores for an input pixel. */
  function GrayPixel(p: Pixel): Pixel {
    var g := Gray(p.p1);
    Pixel(g, g, g)
  }

  /** The second and third channels never influence the grayscale result. */
  lemma GrayIgnoresGreenBlue(p: Pixel, q: Pixel)
    requires p.p1 == q.p1
    ensures GrayPixel(p) == GrayPixel(q)
  {
  }

  /** For a pixel read from a byte (0..255) the result is the first channel repeated. */
  lemma GrayOfByte(p: Pixel)
    requires p.p1 < 256
    ensures GrayPixel(p) == Pixel(p.p1, p.p1, p.p1)
  {
  }

  /** A second reduction changes nothing. */
  lemma GrayIdempotent(p: Pixel)
    ensures GrayPixel(GrayPixel(p)) == GrayPixel(p)
  {
  }

  /**
   * The documented average is not what is computed: a pure green-blue pixel
   * reduces to black although its average is 170.
   */
  lemma GrayIsNotTheAverage()
    ensures GrayPixel(Pixel(0, 255, 255)).p1 == 0 != (0 + 255 + 255) / 3
  {
  }
}
