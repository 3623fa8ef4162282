/** Fixed-width machine arithmetic of a 32-bit x86 kernel, over unbounded integers.
    Unsigned operations wrap modulo the word size; signed ones wrap to two's complement;
    the C division operator truncates toward zero. */
module Machine {
  const B31 := 0x8000_0000
  const B32 := 0x1_0000_0000
  const B63 := 0x8000_0000_0000_0000
  const B64 := 0x1_0000_0000_0000_0000

  // The case split below changes no value: it spares the solver a remainder where nothing wraps.

  /** The value of an `uint32_t` or `uint64_t` holding `x`. */
  function Wrap32(x: int): nat { if IsUint32(x) then x else x % B32 }
  function Wrap64(x: int): nat { if IsUint64(x) then x else x % B64 }

  /** The value of an `int32_t` or `int64_t` holding `x`. */
  function Signed32(x: int): int {
    if IsInt32(x) then x else (x + B31) % B32 - B31
  }

  function Signed64(x: int): int {
    if IsInt64(x) then x else (x + B63) % B64 - B63
  }

  predicate IsInt32(x: int) { -B31 <= x < B31 }
  predicate IsInt64(x: int) { -B63 <= x < B63 }
  predicate IsUint32(x: int) { 0 <= x < B32 }
  predicate IsUint64(x: int) { 0 <= x < B64 }

  function Abs(x: int): nat { if x < 0 then -x else x }
  function Min(a: int, b: int): int { if a < b then a else b }
  function Max(a: int, b: int): int { if a < b then b else a }

  /** The C quotient, which truncates toward zero, and the matching remainder. */
  function TruncDiv(n: int, d: int): int
    requires d != 0
  {
    if (n < 0) == (d < 0) then Abs(n) / Abs(d) else -(Abs(n) / Abs(d))
  }

  function TruncMod(n: int, d: int): int
    requires d != 0
  {
    n - d * TruncDiv(n, d)
  }

  function Pow2(k: nat): (p: nat)
    ensures p > 0
  {
    if k == 0 then 1 else 2 * Pow2(k - 1)
  }

  /** `x << k` before it is cut to a word. */
  function ShiftLeft(x: nat, k: nat): nat {
    if k == 0 then x else 2 * ShiftLeft(x, k - 1)
  }
}
