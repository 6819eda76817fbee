/**
 * Fixed-width unsigned integers, little-endian field reads, the C-locale
 * character classes the decoders use, and the helpers that spell out the
 * 32-bit wrap-around and float-to-byte conversions of the original code.
 */
module Bytes {
  type uint8 = x: int | 0 <= x < 0x100
  type uint16 = x: int | 0 <= x < 0x1_0000
  type uint32 = x: int | 0 <= x < 0x1_0000_0000

  const TWO_32: int := 0x1_0000_0000

  /** Unsigned 32-bit addition as C performs it: the sum, less 2^32 when it does not fit. */
  function Add32(a: uint32, b: uint32): uint32
  {
    if a + b < TWO_32 then a + b else a + b - TWO_32
  }

  function Pow2(n: nat): (r: nat)
    ensures r >= 1
  {
    if n == 0 then 1 else 2 * Pow2(n - 1)
  }

  /** Two bytes at `p`, least significant first. */
  function Le16(s: seq<uint8>, p: nat): uint16
    requires p + 2 <= |s|
  {
    s[p] as int + 0x100 * s[p + 1] as int
  }

  /** Four bytes at `p`, least significant first. */
  function Le32(s: seq<uint8>, p: nat): uint32
    requires p + 4 <= |s|
  {
    s[p] as int + 0x100 * s[p + 1] as int + 0x1_0000 * s[p + 2] as int + 0x100_0000 * s[p + 3] as int
  }

  /** The byte at `p`, or 0 where the file has none: a zero-initialised field that a short read left alone. */
  function ByteOr0(s: seq<uint8>, p: nat): uint8
  {
    if p < |s| then s[p] else 0
  }

  /** A little-endian 32-bit field read with `fread` into a zero-initialised variable: bytes past the end read as 0. */
  function Le32Or0(s: seq<uint8>, p: nat): (v: uint32)
    ensures p + 4 <= |s| ==> v == Le32(s, p)
  {
    ByteOr0(s, p) as int + 0x100 * ByteOr0(s, p + 1) as int + 0x1_0000 * ByteOr0(s, p + 2) as int
      + 0x100_0000 * ByteOr0(s, p + 3) as int
  }

  /** Reinterpretation of an unsigned 32-bit value as a two's complement signed one. */
  function AsInt32(v: uint32): (r: int)
    ensures -0x8000_0000 <= r < 0x8000_0000
    ensures r == v || r == v - TWO_32
  {
    if v < 0x8000_0000 then v else v - TWO_32
  }

  /** Bitwise AND of two unsigned 32-bit values. */
  function And32(a: uint32, b: uint32): uint32
  {
    ((a as bv32) & (b as bv32)) as int
  }

  /**
   * `(uint8_t)(float(v) / max * 255)`: the scaled value, truncated and then
   * reduced to eight bits as the usual float-to-integer conversion does.
   */
  function ScaleToByte(v: nat, max: nat): uint8
    requires max > 0
  {
    Quot(v * 255, max) % 0x100
  }

  /** Quotient and remainder are the only ones that fit `p == q * d + r`. */
  lemma DivModUnique(p: int, d: int, q: int, r: int)
    requires d > 0 && 0 <= r < d && p == q * d + r
    ensures p / d == q && p % d == r
  {
    var q', r' := p / d, p % d;
    var t := q' - q;
    assert t * d == r - r' by {
      assert q' * d + r' == q * d + r;
      assert t * d == q' * d - q * d;
    }
  }

  /**
   * `a * b` as repeated addition. The header checks multiply two unknowns;
   * spelled this way the solver unfolds the product one step at a time
   * instead of searching over nonlinear arithmetic. `MulIsProduct` connects
   * the two.
   */
  function Mul(a: nat, b: nat): nat
  {
    if a == 0 then 0 else b + Mul(a - 1, b)
  }

  lemma {:induction false} MulIsProduct(a: nat, b: nat)
    ensures Mul(a, b) == a * b
  {
    if a > 0 {
      MulIsProduct(a - 1, b);
    }
  }

  /** One more row of `c` at least: a larger first factor adds `c` or more. */
  lemma {:induction false} MulGrows(a: nat, b: nat, c: nat)
    requires a < b
    ensures Mul(a, c) + c <= Mul(b, c)
    decreases b
  {
    if a < b - 1 {
      MulGrows(a, b - 1, c);
    }
  }

  /** `a / d` as repeated subtraction, for the same reason as `Mul`. */
  function Quot(a: nat, d: nat): nat
    requires d > 0
  {
    if a < d then 0 else 1 + Quot(a - d, d)
  }

  lemma {:induction false} QuotIsDiv(a: nat, d: nat)
    requires d > 0
    ensures Quot(a, d) == a / d
  {
    if a >= d {
      QuotIsDiv(a - d, d);
      DivModUnique(a, d, (a - d) / d + 1, (a - d) % d);
    } else {
      DivModUnique(a, d, 0, a);
    }
  }

  /** Bit `k` of `b`, counting from the least significant. */
  function Bit(b: uint8, k: nat): nat
  {
    Quot(b, Pow2(k)) % 2
  }

  /** `weight` when the flag is set, else nothing: one term of a packed bit field. */
  function BitValue(b: bool, weight: nat): nat { if b then weight else 0 }

  function Min(a: int, b: int): int
  {
    if a < b then a else b
  }

  // Character classes of the C locale, for bytes.
  predicate IsSpace(c: int) { c == 32 || 9 <= c <= 13 }
  predicate IsDigit(c: int) { '0' as int <= c <= '9' as int }
  predicate IsAlpha(c: int) { 'A' as int <= c <= 'Z' as int || 'a' as int <= c <= 'z' as int }
}
