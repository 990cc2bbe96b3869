/**
 * Machine words of the edge detector. Every channel, accumulator and mask
 * entry in the program is a 32-bit `unsigned int`, so every sum and product
 * is taken modulo 2^32; bytes of the image payload are `unsigned char`.
 */
module Word {
  const MOD: int := 0x1_0000_0000

  /** A 32-bit unsigned integer. */
  type u32 = x: int | 0 <= x < 0x1_0000_0000

  /** An 8-bit unsigned integer (one byte of the image payload). */
  type u8 = x: int | 0 <= x < 256

  /** The value of `x` reduced into an `unsigned int` (wrap-around). */
  function Wrap(x: int): (r: u32)
    ensures (r - x) % MOD == 0
    ensures 0 <= x < MOD ==> r == x
  {
    x % MOD
  }

  /** Unsigned 32-bit addition. */
  function Add(a: u32, b: u32): u32 {
    Wrap(a + b)
  }

  /** Unsigned 32-bit multiplication. */
  function Mul(a: u32, b: u32): u32 {
    Wrap(a * b)
  }

  /** Wrapping is insensitive to adding a multiple of the modulus. */
  lemma WrapShift(x: int, k: int)
    ensures Wrap(x + k * MOD) == Wrap(x)
  {
  }

  /** Adding after a wrap gives the same word as wrapping once at the end. */
  lemma WrapAdd(x: int, y: int)
    ensures Wrap(Wrap(x) + y) == Wrap(x + y)
  {
    WrapShift(x + y, -(x / MOD));
  }

  /** Multiplying by a non-negative factor keeps order. */
  lemma MulLeft(a: nat, b: nat, c: nat)
    requires a <= b
    ensures a * c <= b * c
  {
  }
}
