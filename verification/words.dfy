/** Fixed-width machine words as the C++ source uses them: `uint64_t` and
    `int64_t`, with the wrap-around of unsigned arithmetic and the
    two's-complement reinterpretation of the casts between them written out. */
module Words {

  const TWO_63: int := 0x8000_0000_0000_0000
  const TWO_64: int := 0x1_0000_0000_0000_0000

  /** An `uint64_t` value. */
  type u64 = x: int | 0 <= x < 0x1_0000_0000_0000_0000

  /** An `int64_t` value. */
  type i64 = x: int | -0x8000_0000_0000_0000 <= x < 0x8000_0000_0000_0000

  /** `a + b` on `uint64_t`: the sum, less 2^64 when it overflows. */
  function Add(a: u64, b: u64): u64 {
    if a + b < 0x1_0000_0000_0000_0000 then a + b else a + b - 0x1_0000_0000_0000_0000
  }

  /** `a - b` on `uint64_t`: the difference, plus 2^64 when it underflows. */
  function Sub(a: u64, b: u64): u64 {
    if b <= a then a - b else a - b + 0x1_0000_0000_0000_0000
  }

  /** `(int64_t)u`: the same 64 bits read as a two's-complement number. */
  function ToI64(u: u64): i64 {
    if u < 0x8000_0000_0000_0000 then u else u - 0x1_0000_0000_0000_0000
  }

  /** `(uint64_t)x`, also the implicit conversion when an `int64_t` meets a
      `uint64_t` in `+` or `-`: the value modulo 2^64. */
  function ToU64(x: i64): u64 {
    if 0 <= x then x else x + 0x1_0000_0000_0000_0000
  }

  /** The three operations are arithmetic modulo 2^64. */
  lemma WrapIsModular(a: u64, b: u64, x: i64)
    ensures Add(a, b) == (a + b) % TWO_64
    ensures Sub(a, b) == (a - b) % TWO_64
    ensures ToU64(x) == x % TWO_64
  {
  }

  /** The two casts are inverse to each other: they only reinterpret bits. */
  lemma CastRoundTrip(u: u64, x: i64)
    ensures ToU64(ToI64(u)) == u
    ensures ToI64(ToU64(x)) == x
  {
  }

  /** Subtracting and adding back the same word cancels, and the difference is
      the only word that does so. */
  lemma SubIsUniqueInverse(a: u64, b: u64, c: u64)
    ensures Add(Sub(a, b), b) == a
    ensures Add(c, b) == a <==> c == Sub(a, b)
  {
  }
}
