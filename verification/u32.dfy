/**
 * Unsigned 32-bit arithmetic (SDL's Uint32). Millisecond ticks, frame delays and
 * animation durations are all Uint32 in the source, so every sum and difference
 * of them wraps modulo 2^32.
 */
module U32 {
  const Modulus: int := 0x1_0000_0000

  type u32 = x: int | 0 <= x < 0x1_0000_0000

  /** Reduction of an unbounded integer to the Uint32 it is stored as. */
  function Wrap(x: int): (r: u32)
    ensures 0 <= x < Modulus ==> r == x
    ensures (r - x) % Modulus == 0
  {
    x % Modulus
  }

  /** Uint32 addition, as C performs it. */
  function Add32(a: u32, b: u32): (r: u32)
    ensures a + b < Modulus ==> r == a + b
    ensures a + b >= Modulus ==> r == a + b - Modulus
  {
    Wrap(a + b)
  }

  /** Uint32 subtraction, as C performs it. */
  function Sub32(a: u32, b: u32): (r: u32)
    ensures b <= a ==> r == a - b
    ensures a < b ==> r == a - b + Modulus
  {
    Wrap(a - b)
  }

  /** Wrapping is compatible with addition: wrapping a partial sum early changes nothing. */
  lemma WrapAddLeft(a: int, b: int)
    ensures Wrap(Wrap(a) + b) == Wrap(a + b)
  {
    var q := a / Modulus;
    assert a == q * Modulus + Wrap(a);
    assert a + b == q * Modulus + (Wrap(a) + b);
    ModShift(Wrap(a) + b, q);
  }

  lemma ModShift(x: int, q: int)
    ensures (q * Modulus + x) % Modulus == x % Modulus
  {
    var r := x % Modulus;
    var d := x / Modulus;
    assert x == d * Modulus + r;
    assert q * Modulus + x == (q + d) * Modulus + r;
  }
}
