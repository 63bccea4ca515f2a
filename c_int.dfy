/**
 * The C integer semantics that the firmware relies on, written out over
 * Dafny's unbounded integers: truncating division, arithmetic right shift,
 * reduction to uint32_t, two's-complement reinterpretation of 16- and 32-bit
 * values, and strtol's saturation at LONG_MAX (long is 32 bits on AVR).
 */
module CInt {

  const Uint16Range: int := 0x1_0000
  const Uint32Range: int := 0x1_0000_0000
  const LongMax: int := 0x7FFF_FFFF

  /** A uint8_t / char, as its 8-bit pattern. */
  type Byte = bv8

  function Abs(x: int): int { if x < 0 then -x else x }

  /** 2^k */
  function Pow2(k: nat): (r: nat)
    ensures r >= 1
  {
    if k == 0 then 1 else 2 * Pow2(k - 1)
  }

  /**
   * C's `/`: the quotient truncated toward zero, characterised by the
   * remainder a - q*b being smaller than |b| and carrying the sign of a.
   */
  function TruncDiv(a: int, b: int): (q: int)
    requires b != 0
    ensures a >= 0 ==> 0 <= a - q * b < Abs(b)
    ensures a < 0 ==> -Abs(b) < a - q * b <= 0
  {
    var m := Abs(a) / Abs(b);
    if (a >= 0) == (b > 0) then m else -m
  }

  /**
   * `>>` on a signed value as avr-gcc compiles it (arithmetic shift):
   * division by 2^k rounded toward minus infinity.
   */
  function Shr(a: int, k: nat): (r: int)
    ensures r * Pow2(k) <= a < (r + 1) * Pow2(k)
  {
    a / Pow2(k)
  }

  /** Shifting a non-negative value right keeps it non-negative. */
  lemma ShrNonNegative(a: int, k: nat)
    requires a >= 0
    ensures Shr(a, k) >= 0
  {
    var r := Shr(a, k);
    if r < 0 {
      MulMono(r + 1, 0, Pow2(k));
    }
  }

  lemma MulMono(a: int, b: int, c: int)
    requires a <= b && c >= 0
    ensures a * c <= b * c
  {
  }

  /** Conversion to uint32_t: the representative of x modulo 2^32. */
  function U32(x: int): (r: int)
    ensures 0 <= r < Uint32Range
    ensures (x - r) % Uint32Range == 0
  {
    x % Uint32Range
  }

  /** A uint16_t bit pattern read back as int16_t. */
  function ToInt16(u: int): (r: int)
    requires 0 <= u < Uint16Range
    ensures -0x8000 <= r < 0x8000
    ensures r == u || r == u - Uint16Range
    ensures r < 0 <==> u >= 0x8000
  {
    if u < 0x8000 then u else u - Uint16Range
  }

  /** A uint32_t bit pattern read back as int32_t. */
  function ToInt32(u: int): (r: int)
    requires 0 <= u < Uint32Range
    ensures -0x8000_0000 <= r < 0x8000_0000
    ensures r == u || r == u - Uint32Range
    ensures r < 0 <==> u >= 0x8000_0000
  {
    if u < 0x8000_0000 then u else u - Uint32Range
  }

  /** strtol's result for a digit string of value v: saturated at LONG_MAX. */
  function Strtol(v: nat): (r: nat)
    ensures r <= LongMax
    ensures v <= LongMax ==> r == v
    ensures v > LongMax ==> r == LongMax
  {
    if v <= LongMax then v else LongMax
  }
}
