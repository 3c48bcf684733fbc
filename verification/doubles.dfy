/** The `double` values of the clock mapper. A double is kept as its IEEE-754
    binary64 bit pattern. The one comparison the mapper makes, `x <= 0.0`, is
    defined on the bits; the arithmetic it performs (division,
    multiplication, conversion from and truncation to `int64_t`) is rounding
    hardware arithmetic that this model does not interpret: it is supplied as
    a record of operations, and every statement of the model holds whatever
    those operations compute. */
module Doubles {
  import opened Words

  const MANTISSA_SPAN: int := 0x10_0000_0000_0000   // 2^52
  const EXPONENT_ALL_ONES: int := 0x7FF

  /** A binary64 value, by its bit pattern. */
  datatype Double = Bits(bits: u64)

  /** `0.0`, the default argument of `init`. */
  const ZERO: Double := Bits(0)
  /** `-0.0`. */
  const NEG_ZERO: Double := Bits(0x8000_0000_0000_0000)
  /** `1.0`, the initial ratio and the numerator of both reciprocals. */
  const ONE: Double := Bits(0x3FF0_0000_0000_0000)

  predicate SignBit(d: Double) {
    d.bits >= TWO_63
  }

  function Exponent(d: Double): int {
    (d.bits / MANTISSA_SPAN) % (EXPONENT_ALL_ONES + 1)
  }

  function Mantissa(d: Double): int {
    d.bits % MANTISSA_SPAN
  }

  predicate IsNaN(d: Double) {
    Exponent(d) == EXPONENT_ALL_ONES && Mantissa(d) != 0
  }

  /** The IEEE-754 comparison `d <= 0.0`: false for every NaN, true for both
      zeros and for every negative number including negative infinity. */
  predicate AtMostZero(d: Double) {
    !IsNaN(d) && (SignBit(d) || d.bits == 0)
  }

  /** Which doubles `init` treats as "ratio not known": exactly the zeros and
      the negative numbers. A NaN or any positive value, however small, is
      taken as a known ratio. */
  lemma AtMostZeroCases(d: Double)
    ensures AtMostZero(ZERO) && AtMostZero(NEG_ZERO) && !AtMostZero(ONE)
    ensures IsNaN(d) ==> !AtMostZero(d)
    ensures !IsNaN(d) && SignBit(d) ==> AtMostZero(d)
    ensures !SignBit(d) && d.bits != 0 ==> !AtMostZero(d)
  {
  }

  /** The exponent field is all ones and the mantissa zero: an infinity. */
  predicate IsInfinite(d: Double) {
    Exponent(d) == EXPONENT_ALL_ONES && Mantissa(d) == 0
  }

  /** 2^k as a real, for any integer k. */
  function Pow2(k: int): real
    decreases if k < 0 then -k else k
  {
    if k == 0 then 1.0 else if k > 0 then 2.0 * Pow2(k - 1) else Pow2(k + 1) / 2.0
  }

  lemma {:induction false} Pow2Positive(k: int)
    ensures Pow2(k) > 0.0
    decreases if k < 0 then -k else k
  {
    if k > 0 {
      Pow2Positive(k - 1);
    } else if k < 0 {
      Pow2Positive(k + 1);
    }
  }

  /** The number a finite binary64 pattern denotes, by the IEEE-754
      encoding: (-1)^sign * 1.mantissa * 2^(exponent - 1023) for a normal
      number, (-1)^sign * 0.mantissa * 2^-1022 for a subnormal one or a zero. */
  ghost function Value(d: Double): real
    requires !IsNaN(d) && !IsInfinite(d)
  {
    var e := Exponent(d);
    var significand := if e == 0 then Mantissa(d) else MANTISSA_SPAN + Mantissa(d);
    var magnitude := significand as real * Pow2(if e == 0 then -1074 else e - 1075);
    if SignBit(d) then -magnitude else magnitude
  }

  /** A pattern without the sign bit whose exponent and mantissa fields are
      zero is the all-zero word. */
  lemma UnsignedZeroFieldsAreZeroWord(d: Double)
    requires !SignBit(d) && Exponent(d) == 0 && Mantissa(d) == 0
    ensures d.bits == 0
  {
    var q := d.bits / MANTISSA_SPAN;
    assert d.bits == q * MANTISSA_SPAN + Mantissa(d);
    assert q < EXPONENT_ALL_ONES + 1;
    assert q == 0;
  }

  /** The bit-level test `AtMostZero` is the IEEE-754 comparison `d <= 0.0`:
      no NaN compares, an infinity compares by its sign, and a finite value
      by the number it denotes. */
  lemma AtMostZeroIsIeeeAtMostZero(d: Double)
    ensures AtMostZero(d) <==>
              !IsNaN(d) && (if IsInfinite(d) then SignBit(d) else Value(d) <= 0.0)
  {
    if !IsNaN(d) && !IsInfinite(d) {
      var e := Exponent(d);
      var significand := if e == 0 then Mantissa(d) else MANTISSA_SPAN + Mantissa(d);
      var scale := Pow2(if e == 0 then -1074 else e - 1075);
      Pow2Positive(if e == 0 then -1074 else e - 1075);
      if d.bits == 0 {
        assert significand == 0;
      } else if !SignBit(d) {
        if e == 0 && Mantissa(d) == 0 {
          UnsignedZeroFieldsAreZeroWord(d);
        }
        assert significand > 0;
        assert significand as real * scale > 0.0;
      } else {
        assert significand >= 0;
        assert significand as real * scale >= 0.0;
      }
    } else if IsInfinite(d) {
      assert d.bits != 0;
    }
  }

  /** The hardware floating-point operations the mapper uses, left
      uninterpreted.
      - div(x, y) is `x / y`;
      - mul(x, y) is `x * y`;
      - fromInt(i) is `(double)i` for an `int64_t` i;
      - trunc(x) is `(int64_t)x`, truncation toward zero. */
  datatype FloatOps = FloatOps(
    div: (Double, Double) -> Double,
    mul: (Double, Double) -> Double,
    fromInt: i64 -> Double,
    trunc: Double -> i64)
}
