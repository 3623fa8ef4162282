/** 17.14 fixed-point arithmetic in a 32-bit `int` (lib/reals.c).  Products and quotients of two
    reals go through 64 bits; everything is cut to 32 bits at the end. */
module Reals {
  import opened Machine

  const F := 16384

  function IntToReal(n: int): int { Signed32(n * F) }
  function FloorRealToInt(x: int): int { TruncDiv(x, F) }
  function SumReals(x: int, y: int): int { Signed32(x + y) }
  function SumRealInt(x: int, n: int): int { Signed32(x + Signed32(n * F)) }
  function DiffRealInt(x: int, n: int): int { Signed32(x - Signed32(n * F)) }
  function MultReals(x: int, y: int): int { Signed32(TruncDiv(Signed64(x * y), F)) }
  function MultRealInt(x: int, n: int): int { Signed32(x * n) }
  function DivReals(x: int, y: int): int
    requires y != 0
  {
    Signed32(TruncDiv(Signed64(x * F), y))
  }
  function DivRealInt(x: int, n: int): int
    requires n != 0
  {
    Signed32(TruncDiv(x, n))
  }
}
