/**
 * The user-assigned marker id sent from the Dart side. Its Java class wraps a
 * single String and takes equality and `hashCode` from it, so the model is a
 * string wrapper whose hash is `java.lang.String.hashCode`: the UTF-16 code
 * units folded as `h = 31 * h + unit` in `int` arithmetic.
 */
module MarkerIds {
  import opened JavaInt

  datatype MarkerId = MarkerId(value: string) {

    /** `MarkerId.equals`: two ids are equal when their strings are, which for a one-string wrapper is value equality. */
    predicate Equals(other: MarkerId)
      ensures Equals(other) <==> this == other
    {
      value == other.value
    }

    /** `MarkerId.hashCode`: the hash of the wrapped string. */
    function HashCode(): (h: int32)
      ensures h == Wrap(Polynomial(Utf16(value)))
    {
      StringHashLemma(Utf16(value));
      StringHash(value)
    }
  }

  /** Java keeps strings as UTF-16: one code unit per character below U+10000, a surrogate pair otherwise. */
  function CodeUnits(c: char): (units: seq<int>)
    ensures |units| == 1 <==> c as int < 0x10000
    ensures |units| == 1 ==> units[0] == c as int
    ensures |units| != 1 ==>
      && |units| == 2
      && 0xD800 <= units[0] < 0xDC00 <= units[1] < 0xE000
      && 0x10000 + (units[0] - 0xD800) * 0x400 + (units[1] - 0xDC00) == c as int
  {
    var n := c as int;
    if n < 0x10000 then [n]
    else [0xD800 + (n - 0x10000) / 0x400, 0xDC00 + (n - 0x10000) % 0x400]
  }

  function Utf16(s: string): (units: seq<int>)
    ensures |s| <= |units| <= 2 * |s|
    ensures forall i :: 0 <= i < |units| ==> 0 <= units[i] < 0x10000
  {
    if s == [] then [] else CodeUnits(s[0]) + Utf16(s[1..])
  }

  /** The loop of `String.hashCode`, run from hash `h` over the remaining code units. */
  function HashFrom(h: int32, units: seq<int>): int32
    decreases |units|
  {
    if units == [] then h else HashFrom(Wrap(31 * h as int + units[0]), units[1..])
  }

  function StringHash(s: string): int32 {
    HashFrom(0, Utf16(s))
  }

  function Pow31(n: nat): nat {
    if n == 0 then 1 else 31 * Pow31(n - 1)
  }

  /**
   * The documented value of `String.hashCode` before overflow:
   * s[0]*31^(n-1) + s[1]*31^(n-2) + ... + s[n-1] over the code units.
   */
  function Polynomial(units: seq<int>): int {
    if units == [] then 0 else units[0] * Pow31(|units| - 1) + Polynomial(units[1..])
  }

  /** The overflowing loop computes the polynomial modulo 2^32, from any starting hash. */
  lemma {:induction false} HashFromIsPolynomial(h: int32, units: seq<int>)
    ensures HashFrom(h, units) == Wrap(h as int * Pow31(|units|) + Polynomial(units))
    decreases |units|
  {
    if units != [] {
      var rest := units[1..];
      var h' := Wrap(31 * h as int + units[0]);
      HashFromIsPolynomial(h', rest);
      HornerStep(h as int, units[0], Pow31(|rest|), Polynomial(rest), Pow31(|units|), Polynomial(units));
    }
  }

  /**
   * One step of the loop: wrapping `31 * x + u` before multiplying by the
   * weight `p` of the remaining units gives the same `int` as the exact sum.
   */
  lemma HornerStep(x: int, u: int, p: int, tail: int, pn: int, poly: int)
    requires pn == 31 * p && poly == u * p + tail
    ensures Wrap(Wrap(31 * x + u) as int * p + tail) == Wrap(x * pn + poly)
  {
    var y := 31 * x + u;
    var w := Wrap(y) as int;
    WrapMulAdd(y, p, tail);
    Regroup(x, u, p, tail, pn, poly);
    assert w * p + tail == p * w + tail;
  }

  lemma Regroup(x: int, u: int, p: int, tail: int, pn: int, poly: int)
    requires pn == 31 * p && poly == u * p + tail
    ensures p * (31 * x + u) + tail == x * pn + poly
  {
  }

  /** `String.hashCode` equals the documented polynomial, wrapped to 32 bits. */
  lemma StringHashLemma(units: seq<int>)
    ensures HashFrom(0, units) == Wrap(Polynomial(units))
  {
    HashFromIsPolynomial(0, units);
  }

  /** Equal ids hash alike, as `hashCode` must for `equals`. */
  lemma EqualIdsHashAlike(a: MarkerId, b: MarkerId)
    requires a.Equals(b)
    ensures a.HashCode() == b.HashCode()
  {
  }
}
