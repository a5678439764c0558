/**
 * Java's 32-bit `int`: every `+` and `*` on ints keeps only the low 32 bits of
 * the exact result and reads them back in two's complement. `Wrap` is that
 * reduction; the lemmas say it depends only on the residue modulo 2^32.
 */
module JavaInt {

  const Modulus: int := 0x1_0000_0000

  newtype int32 = x: int | -0x8000_0000 <= x < 0x8000_0000

  /** The Java `int` holding the low 32 bits of `x`. */
  function Wrap(x: int): (r: int32)
    ensures (x - r as int) % Modulus == 0
    ensures -0x8000_0000 <= x < 0x8000_0000 ==> r as int == x
  {
    var low := x % Modulus;
    if low < 0x8000_0000 then low as int32 else (low - Modulus) as int32
  }

  /** Adding a multiple of 2^32 does not change a residue. */
  lemma ModShift(y: int, q: int)
    ensures (y + Modulus * q) % Modulus == y % Modulus
  {
  }

  /** Two integers congruent modulo 2^32 wrap to the same Java `int`. */
  lemma WrapCongruent(x: int, y: int)
    requires (x - y) % Modulus == 0
    ensures Wrap(x) == Wrap(y)
  {
  }

  /** Congruence is kept by `a * _ + c`. */
  lemma MulAddCongruent(x: int, y: int, a: int, c: int)
    requires (x - y) % Modulus == 0
    ensures ((a * x + c) - (a * y + c)) % Modulus == 0
  {
    var q := (x - y) / Modulus;
    assert x - y == Modulus * q;
    calc {
      (a * x + c) - (a * y + c);
      a * (x - y);
      Modulus * (a * q);
    }
    ModShift(0, a * q);
  }

  /**
   * Wrapping an intermediate result changes nothing: computing `a * x + c` in
   * Java `int` arithmetic from an already wrapped `x` gives the same `int` as
   * wrapping the exact value once at the end.
   */
  lemma WrapMulAdd(x: int, a: int, c: int)
    ensures Wrap(a * (Wrap(x) as int) + c) == Wrap(a * x + c)
  {
    var w := Wrap(x) as int;
    assert (w - x) % Modulus == 0 by {
      ModShift(-(x - w), (x - w) / Modulus);
    }
    MulAddCongruent(w, x, a, c);
    WrapCongruent(a * w + c, a * x + c);
  }
}
