/** 64-bit division out of 32-bit steps (lib/arithmetic.c).  `divl` divides 64 bits by 32 bits and
    traps unless the quotient fits in 32 bits, so every call below carries that obligation. */
module Division {
  import opened Machine
  import opened Arith

  /** The DIVL instruction: a quotient that does not fit in 32 bits is a divide error. */
  function Divl(n: nat, d: nat): nat
    requires IsUint64(n) && 0 < d < B32
    requires n / d < B32
  {
    n / d
  }

  /** A slightly smaller divisor gives the same quotient or one more. */
  lemma CloseDivisors(n: nat, lo: nat, d: nat)
    requires 0 < lo <= d
    requires n * (d - lo) < lo * d
    ensures n / d <= n / lo <= n / d + 1
  {
    var q := n / d;
    var e := n / lo;
    DivBounds(n, d);
    DivBounds(n, lo);
    MulLe(lo, d, q);
    if e < q { MulLe(e + 1, q, lo); }
    if e > q + 1 {
      MulLe(q + 2, e, lo);
      GapTooLarge(n, lo, d, q);
    }
  }

  lemma GapTooLarge(n: nat, lo: nat, d: nat, q: nat)
    requires 0 < lo <= d && n < d * q + d && lo * (q + 2) <= n
    ensures n * (d - lo) > lo * d
  {
    MulLe(lo * (q + 2), n, d);
    MulLt(n, d * q + d, lo);
    var a := d * lo;
    assert d * (lo * (q + 2)) == a * q + 2 * a;
    assert lo * (d * q + d) == a * q + a;
    assert n * (d - lo) == d * n - lo * n;
  }

  /** The normalised estimate of a 64/64 quotient: dividing half of `n` by the top 32 bits of
      `d` shifted left until its top bit is set, then shifting back, gives the quotient or one
      more than it, and the 32-bit division involved cannot trap.  Here p = 2^s and m = 2^(31-s). */
  lemma EstimateIsFloorOrOneMore(n: nat, d: nat, p: nat, m: nat)
    requires IsUint64(n) && p > 0 && m > 0
    requires p * m == B31
    requires B63 <= d * p < B64
    ensures B31 <= d * p / B32 < B32
    ensures n / 2 / (d * p / B32) < B32
    ensures n / d <= n / 2 / (d * p / B32) / m <= n / d + 1
  {
    var v := d * p / B32;
    var half := n / 2;
    var lo := v * m * 2;
    QuotientFits(half, v);
    NestedDiv(n, 2, v);
    NestedDiv(n, 2 * v, m);
    assert 2 * v * m == lo;
    NormalisedGap(d, p, m, v);
    MulLe(B31, v, m);
    GapIsSmall(n, d, m, lo);
    CloseDivisors(n, lo, d);
  }

  lemma QuotientFits(half: nat, v: nat)
    requires half < B63 && B31 <= v
    ensures half / v < B32
  {
    var q := half / v;
    DivBounds(half, v);
    if q >= B32 { MulMono(B31, v, B32, q); }
  }

  lemma NormalisedGap(d: nat, p: nat, m: nat, v: nat)
    requires p > 0 && m > 0 && p * m == B31
    requires B63 <= d * p < B64 && v == d * p / B32
    ensures v * m * 2 <= d < v * m * 2 + 2 * m
  {
    assert B32 * v == p * (v * m * 2) by { assert p * (v * m * 2) == 2 * v * (p * m); }
    assert B32 == p * (2 * m) by { assert p * (2 * m) == 2 * (p * m); }
    assert p * (v * m * 2 + 2 * m) == p * (v * m * 2) + p * (2 * m);
    if d < v * m * 2 { MulLt(d, v * m * 2, p); }
    if v * m * 2 + 2 * m <= d { MulLe(v * m * 2 + 2 * m, d, p); }
  }

  lemma GapIsSmall(n: nat, d: nat, m: nat, lo: nat)
    requires IsUint64(n) && m > 0
    requires B32 * m <= lo <= d < lo + 2 * m
    ensures n * (d - lo) < lo * d
  {
    var g := d - lo;
    MulMono(B32 * m, lo, B32 * m, d);
    assert (B32 * m) * (B32 * m) == B64 * (m * m);
    assert m > 0 && 2 * m - 1 <= m * m by { assert (m - 1) * (m - 1) == m * m - 2 * m + 1; }
    MulMono(n, B64 - 1, g, m * m);
    MulLt(0, m, m);
    assert (B64 - 1) * (m * m) == B64 * (m * m) - m * m;
  }

  lemma Pow2Add(a: nat, b: nat)
    ensures Pow2(a + b) == Pow2(a) * Pow2(b)
  {
    if a != 0 {
      Pow2Add(a - 1, b);
      var x, y := Pow2(a - 1), Pow2(b);
      assert 2 * (x * y) == (2 * x) * y;
    }
  }

  lemma ShiftIsProduct(x: nat, k: nat)
    ensures ShiftLeft(x, k) == x * Pow2(k)
  {
    if k != 0 {
      ShiftIsProduct(x, k - 1);
      assert x * (2 * Pow2(k - 1)) == 2 * (x * Pow2(k - 1));
    }
  }

  lemma ShiftTwice(x: nat, a: nat, b: nat)
    ensures ShiftLeft(x, a + b) == ShiftLeft(ShiftLeft(x, a), b)
  {
  }

  lemma ShiftSmall(x: nat)
    ensures ShiftLeft(x, 1) == 2 * x && ShiftLeft(x, 2) == 4 * x && ShiftLeft(x, 4) == 0x10 * x
  {
  }

  lemma ShiftConst(x: nat)
    ensures ShiftLeft(x, 1) == 2 * x && ShiftLeft(x, 2) == 4 * x && ShiftLeft(x, 4) == 0x10 * x
    ensures ShiftLeft(x, 8) == 0x100 * x && ShiftLeft(x, 16) == 0x1_0000 * x
  {
    ShiftSmall(x);
    ShiftSmall(0x10 * x);
    ShiftSmall(0x100 * x);
    ShiftSmall(0x1000 * x);
    ShiftTwice(x, 4, 4);
    ShiftTwice(x, 8, 4);
    ShiftTwice(x, 12, 4);
  }

  /** The number of leading zero bits: the shift that brings the top set bit to bit 31. */
  method Nlz(x0: nat) returns (n: nat)
    requires 0 < x0 < B32
    ensures n < 32 && B31 <= ShiftLeft(x0, n) < B32
  {
    var x := x0;
    n := 0;
    x, n := ShiftIfAtMost(x, n, 0x0000_FFFF, 16, 0x1_0000, x0);
    x, n := ShiftIfAtMost(x, n, 0x00FF_FFFF, 8, 0x100, x0);
    x, n := ShiftIfAtMost(x, n, 0x0FFF_FFFF, 4, 0x10, x0);
    x, n := ShiftIfAtMost(x, n, 0x3FFF_FFFF, 2, 4, x0);
    if x <= 0x7FFF_FFFF { n := n + 1; }
  }

  /** One step of the binary search for the top bit: `if (x <= limit) { n += k; x <<= k; }`. */
  method ShiftIfAtMost(x: nat, n: nat, limit: nat, k: nat, c: nat, ghost x0: nat)
    returns (x': nat, n': nat)
    requires (k, c) in {(16, 0x1_0000), (8, 0x100), (4, 0x10), (2, 4)}
    requires 0 < x < B32 && x == ShiftLeft(x0, n) && (limit + 1) * c == B32
    ensures x' == ShiftLeft(x0, n') && x <= x' < B32
    ensures if x <= limit then n' == n + k && x' == c * x else n' == n && x' == x
  {
    x', n' := x, n;
    if x <= limit {
      ShiftMore(x0, n, k, c);
      n' := n + k;
      x' := Wrap32(x * c);
    }
  }

  lemma ShiftMore(x: nat, n: nat, k: nat, c: nat)
    requires (k, c) in {(16, 0x1_0000), (8, 0x100), (4, 0x10), (2, 4)}
    ensures ShiftLeft(x, n + k) == c * ShiftLeft(x, n)
  {
    ShiftTwice(x, n, k);
    ShiftConst(ShiftLeft(x, n));
  }

  /** Shifting a divisor whose upper half is `d1` by the leading zeros of `d1` sets bit 63. */
  lemma Normalise(d: nat, d1: nat, s: nat)
    requires IsUint64(d) && d1 == d / B32
    requires s < 32 && B31 <= ShiftLeft(d1, s) < B32
    ensures Pow2(s) * Pow2(31 - s) == B31
    ensures B63 <= ShiftLeft(d, s) < B64 && ShiftLeft(d, s) == d * Pow2(s)
  {
    var p, m := Pow2(s), Pow2(31 - s);
    ShiftIsProduct(d, s);
    ShiftIsProduct(d1, s);
    Pow2Add(s, 31 - s);
    PowerOf31();
    UpperHalfShift(d, d1, p, m);
  }

  lemma PowerOf31()
    ensures Pow2(31) == B31
  {
    ShiftConst(1);
    ShiftTwice(1, 16, 8);
    ShiftConst(0x1_0000);
    ShiftTwice(1, 24, 4);
    ShiftConst(0x100_0000);
    ShiftIsProduct(1, 28);
  }

  lemma UpperHalfShift(d: nat, d1: nat, p: nat, m: nat)
    requires p > 0 && p * m == B31
    requires B32 * d1 <= d < B32 * d1 + B32 && B31 <= d1 * p < B32
    ensures B63 <= d * p < B64
  {
    MulLe(B32 * d1, d, p);
    assert p * (B32 * d1) == B32 * (d1 * p);
    var w := 2 * m;
    assert p * w == B32;
    if d1 >= w { MulLe(w, d1, p); }
    MulLe(d1 + 1, w, p);
    MulLt(d, B32 * (d1 + 1), p);
    assert p * (B32 * (d1 + 1)) == B32 * (p * (d1 + 1));
  }

  /** Wide division by a 32-bit divisor: divide the upper word first; what is left fits. */
  lemma ShortDivisor(n: nat, d: nat, n1: nat, rem: nat, high: nat)
    requires IsUint64(n) && 0 < d < B32
    requires n1 == n / B32 && rem == n1 % d && high == n1 / d
    ensures var m := B32 * rem + n % B32;
      m < B64 && m / d < B32 && m / d + B32 * high == n / d && n / d < B64
  {
    var low := n % B32;
    assert n == B32 * n1 + low;
    DivMod(n1, d);
    MulLe(rem, d - 1, B32);
    LowQuotientFits(B32 * rem + low, d);
    PartsAddUp(B32, n1, low, d, rem, high);
    DivLe(n, d);
  }

  /** What is left after the upper word has a quotient of one word. */
  lemma LowQuotientFits(m: nat, d: nat)
    requires d > 0 && m < B32 * d
    ensures m / d < B32
  {
    DivBounds(m, d);
    if m / d >= B32 { MulLe(B32, m / d, d); }
  }

  /** Long division with two digits to a base. */
  lemma PartsAddUp(base: nat, n1: nat, low: nat, d: nat, rem: nat, high: nat)
    requires d > 0 && n1 == high * d + rem
    ensures (base * rem + low) / d + base * high == (base * n1 + low) / d
  {
    var m := base * rem + low;
    var q := m / d;
    DivBounds(m, d);
    assert base * n1 == d * (base * high) + base * rem;
    assert d * (q + base * high) == d * q + d * (base * high);
    DivUnique(base * n1 + low, d, q + base * high);
  }

  /** Unsigned 64-bit division is exact for every dividend and nonzero divisor.  The calls of
      Divl show that no divide error is raised. */
  method Udiv64(n: nat, d: nat) returns (quotient: nat)
    requires IsUint64(n) && 0 < d < B64
    ensures quotient == n / d
  {
    if d / B32 == 0 {
      quotient := DivideByWord(n, d);
    } else if n < d {
      DivUnique(n, d, 0);
      quotient := 0;
    } else {
      var d1 := Wrap32(d / B32);
      var s := Nlz(d1);
      Normalise(d, d1, s);
      EstimateIsFloorOrOneMore(n, d, Pow2(s), Pow2(31 - s));
      var q := Divl(n / 2, Wrap64(ShiftLeft(d, s)) / B32) / Pow2(31 - s);
      quotient := CorrectEstimate(n, d, q);
    }
  }

  /** The branch of Udiv64 for a divisor that fits in 32 bits. */
  method DivideByWord(n: nat, d: nat) returns (quotient: nat)
    requires IsUint64(n) && 0 < d < B32
    ensures quotient == n / d
  {
    var n1 := Wrap32(n / B32);
    var n0 := Wrap32(n);
    var rem, high := n1 % d, n1 / d;
    ShortDivisor(n, d, n1, rem, high);
    var top := Wrap64(Wrap64(B32 * rem) + n0);
    quotient := Wrap64(Divl(top, d) + Wrap64(B32 * high));
  }

  /** The last line of Udiv64, on 64-bit words. */
  method CorrectEstimate(n: nat, d: nat, q: nat) returns (quotient: nat)
    requires 2 <= d <= n < B64 && n / d <= q <= n / d + 1
    ensures quotient == n / d
  {
    CorrectionStep(n, d, q);
    var product := Wrap64((q - 1) * d);
    quotient := if Wrap64(n - product) < d then Wrap64(q - 1) else q;
  }

  lemma DivLe(n: nat, d: nat)
    requires d > 0
    ensures n / d <= n
  {
    DivBounds(n, d);
    MulLe(1, d, n / d);
  }

  /** The off-by-one correction: an estimate of floor or floor + 1 is lowered exactly when the
      remainder it leaves with one less is already smaller than the divisor. */
  lemma CorrectionStep(n: nat, d: nat, q: nat)
    requires 2 <= d <= n < B64 && n / d <= q <= n / d + 1
    ensures 1 <= q < B64 && 0 <= (q - 1) * d <= n
    ensures n / d == if n - (q - 1) * d < d then q - 1 else q
  {
    var e := n / d;
    DivBounds(n, d);
    DivLe(n, d);
    if e < 1 { MulLe(e, 0, d); }
    MulLe(2, d, e);
    MulLe(q - 1, e, d);
    MulLe(0, q - 1, d);
    if q == e { assert d * (q - 1) == d * e - d; }
  }

  /** Unsigned remainder: the function returns 32 bits, so the exact remainder comes back only
      modulo 2^32. */
  method Umod64(n: nat, d: nat) returns (r: nat)
    requires IsUint64(n) && 0 < d < B64
    ensures r == (n % d) % B32
    ensures r == n % d <==> n % d < B32
  {
    var q := Udiv64(n, d);
    DivBounds(n, d);
    var product := d * q;
    assert n % d == n - product;
    assert 0 <= product by { MulLe(0, q, d); }
    r := Wrap32(Wrap64(n - Wrap64(product)));
  }

  /** Signed division truncates toward zero, except for the one quotient that does not fit. */
  method Sdiv64(n: int, d: int) returns (q: int)
    requires IsInt64(n) && IsInt64(d) && d != 0
    ensures q == TruncDiv(n, d) <==> !(n == -B63 && d == -1)
    ensures n == -B63 && d == -1 ==> q == n
  {
    var nAbs := Magnitude(n);
    var dAbs := Magnitude(d);
    var qAbs := Udiv64(nAbs, dAbs);
    QuotientMagnitude(nAbs, dAbs);
    SignedQuotient((n < 0) == (d < 0), qAbs);
    assert (n < 0) == (d < 0) && qAbs == B63 <==> n == -B63 && d == -1;
    q := if (n < 0) == (d < 0) then Signed64(qAbs) else Signed64(0 - Signed64(qAbs));
  }

  /** `n >= 0 ? (uint64_t) n : -(uint64_t) n` is the absolute value, also for the least integer. */
  function Magnitude(n: int): (m: nat)
    requires IsInt64(n)
    ensures m == Abs(n)
  {
    if n >= 0 then Wrap64(n) else Wrap64(0 - Wrap64(n))
  }

  lemma SignedQuotient(same: bool, q: nat)
    requires q <= B63
    ensures !same ==> Signed64(0 - Signed64(q)) == 0 - q
    ensures same ==> (Signed64(q) == q <==> q < B63) && (q == B63 ==> Signed64(q) == -B63)
  {
  }

  lemma QuotientMagnitude(n: nat, d: nat)
    requires n <= B63 && 0 < d
    ensures n / d <= B63
    ensures n / d == B63 <==> n == B63 && d == 1
  {
    DivLe(n, d);
    DivBounds(n, d);
    if d >= 2 && n / d == B63 { MulLe(2, d, B63); }
  }

  /** Truncating division as the C standard describes it: the remainder has the sign of the
      dividend and is smaller than the divisor, and these two facts determine the quotient. */
  lemma TruncDivIsTheCQuotient(n: int, d: int, q: int)
    requires d != 0
    ensures q == TruncDiv(n, d) <==>
      Abs(n - d * q) < Abs(d) && (n >= 0 ==> n - d * q >= 0) && (n <= 0 ==> n - d * q <= 0)
  {
    hide TruncDiv;
    var a, b := Abs(n), Abs(d);
    var k := if (n < 0) == (d < 0) then q else 0 - q;
    QuotientOfMagnitudes(n, d, q);
    QuotientIff(a, b, k);
    var x, y := b * k, d * q;
    assert y == if n < 0 then 0 - x else x;
  }

  lemma QuotientOfMagnitudes(n: int, d: int, q: int)
    requires d != 0
    ensures q == TruncDiv(n, d) <==> (if (n < 0) == (d < 0) then q else 0 - q) == Abs(n) / Abs(d)
  {}

  /** Signed remainder: the truncating remainder, again cut to 32 bits. */
  method Smod64(n: int, d: int) returns (r: int)
    requires IsInt64(n) && IsInt64(d) && d != 0
    ensures r == Signed32(TruncMod(n, d))
    ensures r == TruncMod(n, d) <==> IsInt32(TruncMod(n, d))
  {
    var q := Sdiv64(n, d);
    RemainderFits(n, d);
    var product := d * q;
    r := Signed32(Signed64(n - Signed64(product)));
  }

  lemma RemainderFits(n: int, d: int)
    requires IsInt64(n) && IsInt64(d) && d != 0
    ensures IsInt64(TruncMod(n, d)) && IsInt64(d * TruncDiv(n, d))
    ensures n == -B63 && d == -1 ==> TruncMod(n, d) == 0
  {
    TruncDivIsTheCQuotient(n, d, TruncDiv(n, d));
    if n == -B63 && d == -1 { TruncDivIsTheCQuotient(n, d, B63); }
  }

  /** A remainder of 2^32 comes back as 0. */
  method Umod64Example() returns (r: nat)
    ensures r == 0 && B32 % (2 * B32) == B32
  {
    r := Umod64(B32, 2 * B32);
  }

  /** A remainder of 2^31 comes back negative. */
  method Smod64Example() returns (r: int)
    ensures r == -B31 && TruncMod(B31, 2 * B31) == B31
  {
    r := Smod64(B31, 2 * B31);
  }
}
