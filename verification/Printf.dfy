/** Integer output of printf (lib/stdio.c) and integer input by atoi (lib/stdlib.c).
    A C string is the sequence of characters before its null byte. */
module Printf {
  import opened Machine
  import opened Arith

  /** Flags, minimum field width and precision of a conversion; a negative precision means none. */
  datatype Conversion = Conversion(
    minus: bool, plus: bool, space: bool, pound: bool, zero: bool, group: bool,
    width: int, precision: int)

  /** A base, its digits, its `x` prefix character if any, and its digit group size. */
  datatype IntegerBase = IntegerBase(base: nat, digits: string, x: string, group: nat)

  const BASE_D := IntegerBase(10, "0123456789", "", 3)
  const BASE_O := IntegerBase(8, "01234567", "", 3)
  const BASE_X := IntegerBase(16, "0123456789abcdef", "x", 4)
  const BASE_XX := IntegerBase(16, "0123456789ABCDEF", "X", 4)

  const BUF_SIZE := 64

  predicate KnownBase(b: IntegerBase) { b in {BASE_D, BASE_O, BASE_X, BASE_XX} }

  function Dup(ch: char, cnt: int): string {
    seq(Max(cnt, 0), _ => ch)
  }

  function Reverse(s: string): string {
    if s == [] then [] else Reverse(s[1..]) + [s[0]]
  }

  // ---- what format_integer prints ----

  function Sign(isSigned: bool, negative: bool, c: Conversion): string {
    if !isSigned then ""
    else if c.plus then if negative then "-" else "+"
    else if c.space then if negative then "-" else " "
    else if negative then "-" else ""
  }

  function Separator(b: IntegerBase, group: bool, cnt: nat): string
    requires b.group > 0
  {
    if group && cnt > 0 && cnt % b.group == 0 then "," else ""
  }

  /** The digits of `value`, last digit first, with group separators; `cnt` digits came before. */
  function ReversedDigits(value: nat, b: IntegerBase, group: bool, cnt: nat): string
    requires b.base >= 2 && b.base <= |b.digits| && b.group > 0
  {
    if value == 0 then []
    else
      DivLess(value, b.base);
      Separator(b, group, cnt) + [b.digits[value % b.base]] +
      ReversedDigits(value / b.base, b, group, cnt + 1)
  }

  lemma DivLess(n: nat, d: nat)
    requires n > 0 && d >= 2
    ensures 0 <= n / d < n
  {
    DivBounds(n, d);
    var q := n / d;
    if q < 0 { MulLe(q, -1, d); }
    if q >= n { MulLe(n, q, d); MulLe(2, d, n); }
  }

  /** Zeros up to the precision (the buffer holds one character less than its size here), and the
      leading zero of the `#` flag with octal. */
  function Padded(digits: string, b: IntegerBase, c: Conversion): string {
    var precision := if c.precision < 0 then 1 else c.precision;
    var padded := digits + Dup('0', Min(precision, BUF_SIZE - 1) - |digits|);
    padded + if c.pound && b.base == 8 && (padded == [] || padded[|padded| - 1] != '0') then "0" else ""
  }

  /** The content of the digit buffer, last digit first. */
  function BufferContent(value: nat, b: IntegerBase, c: Conversion): string
    requires KnownBase(b)
  {
    Padded(ReversedDigits(value, b, c.group, 0), b, c)
  }

  function Prefix(value: nat, b: IntegerBase, c: Conversion): string {
    if c.pound && value != 0 && b.x != "" then "0" + b.x else ""
  }

  function PadCount(value: nat, isSigned: bool, negative: bool, b: IntegerBase, c: Conversion): int
    requires KnownBase(b)
  {
    Max(0, c.width - |BufferContent(value, b, c)| - |Prefix(value, b, c)| - |Sign(isSigned, negative, c)|)
  }

  function Formatted(value: nat, isSigned: bool, negative: bool, b: IntegerBase, c: Conversion): string
    requires KnownBase(b)
  {
    var pad := PadCount(value, isSigned, negative, b, c);
    (if !c.minus && !c.zero then Dup(' ', pad) else "") +
    Sign(isSigned, negative, c) + Prefix(value, b, c) +
    (if c.zero then Dup('0', pad) else "") +
    Reverse(BufferContent(value, b, c)) +
    (if c.minus then Dup(' ', pad) else "")
  }

  // ---- format_integer itself ----

  /** Eight digits to a power of eight at least: how many digits fit a 64-bit value. */
  function Pow8(k: nat): (p: nat)
    ensures p > 0
  {
    if k == 0 then 1 else 8 * Pow8(k - 1)
  }

  lemma {:induction false} DigitsFit(value: nat, b: IntegerBase, group: bool, cnt: nat, k: nat)
    requires KnownBase(b) && value < Pow8(k)
    ensures |ReversedDigits(value, b, group, cnt)| <= 2 * k
  {
    if value != 0 {
      var q := value / b.base;
      assert k > 0;
      DivBounds(value, b.base);
      assert 8 * q <= value;
      DigitsFit(q, b, group, cnt + 1, k - 1);
    }
  }

  /** A 64-bit value has at most 22 digits in any base used, hence at most 44 characters. */
  lemma DigitsOf64Bits(value: nat, b: IntegerBase, group: bool)
    requires KnownBase(b) && IsUint64(value)
    ensures |ReversedDigits(value, b, group, 0)| <= 44
  {
    assert Pow8(11) == 0x2_0000_0000;
    assert Pow8(22) == 0x2_0000_0000 * Pow8(11);
    DigitsFit(value, b, group, 0, 22);
  }

  method OutputDup(ch: char, cnt: int, out: string) returns (out': string)
    ensures out' == out + Dup(ch, cnt)
  {
    out' := out;
    var k := cnt;
    while k > 0
      invariant k <= Max(cnt, 0) && (k >= 0 || cnt < 0)
      invariant out' == out + Dup(ch, cnt - Max(k, 0))
    {
      out' := out' + [ch];
      k := k - 1;
    }
  }

  /** The first loop of format_integer: accumulates digits, last digit first. */
  method AccumulateDigits(buf: array<char>, value0: nat, b: IntegerBase, group: bool) returns (cp: nat)
    requires IsUint64(value0) && KnownBase(b) && buf.Length == BUF_SIZE
    modifies buf
    ensures cp <= 44 && buf[..cp] == ReversedDigits(value0, b, group, 0)
  {
    hide ReversedDigits, KnownBase, Separator;
    BaseHas(b);
    ghost var digits := ReversedDigits(value0, b, group, 0);
    DigitsOf64Bits(value0, b, group);
    var value: nat, digitCnt: nat := value0, 0;
    cp := 0;
    while value > 0
      invariant 0 <= cp <= |digits|
      invariant digits == buf[..cp] + ReversedDigits(value, b, group, digitCnt)
    {
      DivLess(value, b.base);
      NextDigit(value, b, group, digitCnt);
      ghost var done, rest := buf[..cp], ReversedDigits(value / b.base, b, group, digitCnt + 1);
      ghost var step := Separator(b, group, digitCnt) + [b.digits[value % b.base]];
      assert digits == done + step + rest;
      cp := PutDigit(buf, cp, b, group, digitCnt, value % b.base);
      assert buf[..cp] == done + step;
      value := value / b.base;
      digitCnt := digitCnt + 1;
    }
    NoDigits(b, group, digitCnt);
  }

  method PutDigit(buf: array<char>, cp: nat, b: IntegerBase, group: bool, digitCnt: nat, digit: nat)
    returns (cp': nat)
    requires KnownBase(b) && digit < b.base && cp + 2 <= buf.Length
    modifies buf
    ensures cp' <= cp + 2
    ensures buf[..cp'] == old(buf[..cp]) + Separator(b, group, digitCnt) + [b.digits[digit]]
  {
    cp' := cp;
    if group && digitCnt > 0 && digitCnt % b.group == 0 {
      buf[cp'] := ',';
      cp' := cp' + 1;
    }
    buf[cp'] := b.digits[digit];
    cp' := cp' + 1;
  }

  lemma NextDigit(value: nat, b: IntegerBase, group: bool, cnt: nat)
    requires KnownBase(b) && value > 0
    ensures value / b.base >= 0
    ensures ReversedDigits(value, b, group, cnt) == Separator(b, group, cnt) + [b.digits[value % b.base]] +
      ReversedDigits(value / b.base, b, group, cnt + 1)
  {
    DivLess(value, b.base);
  }

  lemma NoDigits(b: IntegerBase, group: bool, cnt: nat)
    requires KnownBase(b)
    ensures ReversedDigits(0, b, group, cnt) == ""
  {
  }

  /** The second part: zeros up to the precision, and one more for `#` with octal. */
  method AppendZeros(buf: array<char>, cp0: nat, b: IntegerBase, c: Conversion) returns (cp: nat)
    requires cp0 <= 44 && buf.Length == BUF_SIZE
    modifies buf
    ensures cp <= BUF_SIZE
    ensures buf[..cp] == Padded(old(buf[..cp0]), b, c)
  {
    cp := cp0;
    ghost var digits := buf[..cp0];
    var precision := if c.precision < 0 then 1 else c.precision;
    while cp < precision && cp < BUF_SIZE - 1
      invariant cp0 <= cp <= BUF_SIZE - 1 && (cp <= precision || cp == cp0)
      invariant buf[..cp] == digits + Dup('0', cp - cp0)
    {
      buf[cp] := '0';
      cp := cp + 1;
    }
    assert buf[..cp] == digits + Dup('0', Min(precision, BUF_SIZE - 1) - cp0);
    if c.pound && b.base == 8 && (cp == 0 || buf[cp - 1] != '0') {
      buf[cp] := '0';
      cp := cp + 1;
    }
  }

  /** Outputs the buffer backwards. */
  method OutputReversed(buf: array<char>, cp0: nat, out: string) returns (out': string)
    requires cp0 <= buf.Length
    ensures out' == out + Reverse(buf[..cp0])
  {
    var cp := cp0;
    out' := out;
    while cp > 0
      invariant 0 <= cp <= cp0
      invariant out' + Reverse(buf[..cp]) == out + Reverse(buf[..cp0])
    {
      cp := cp - 1;
      ReverseLast(buf[..cp + 1]);
      assert buf[..cp + 1][..cp] == buf[..cp];
      out' := out' + [buf[cp]];
    }
  }

  /** format_integer.  Every write is inside the 64-character digit buffer. */
  method FormatInteger(value: nat, isSigned: bool, negative: bool, b: IntegerBase, c: Conversion)
    returns (out: string)
    requires IsUint64(value) && KnownBase(b)
    ensures out == Formatted(value, isSigned, negative, b, c)
  {
    var buf := new char[BUF_SIZE];
    hide *;
    var sign := Sign(isSigned, negative, c);
    var x := Prefix(value, b, c);
    var cp := AccumulateDigits(buf, value, b, c.group);
    cp := AppendZeros(buf, cp, b, c);
    var padCnt := c.width - cp - |x| - |sign|;
    if padCnt < 0 { padCnt := 0; }
    FormattedParts(value, isSigned, negative, b, c, buf[..cp], padCnt);
    out := OutputPad(!c.minus && !c.zero, ' ', padCnt, "");
    out := out + sign + x;
    out := OutputPad(c.zero, '0', padCnt, out);
    out := OutputReversed(buf, cp, out);
    out := OutputPad(c.minus, ' ', padCnt, out);
  }

  /** `if (flag) output_dup (ch, cnt, ...)`. */
  method OutputPad(flag: bool, ch: char, cnt: int, out: string) returns (out': string)
    ensures out' == out + if flag then Dup(ch, cnt) else ""
  {
    out' := out;
    if flag { out' := OutputDup(ch, cnt, out); }
  }

  lemma FormattedParts(value: nat, isSigned: bool, negative: bool, b: IntegerBase, c: Conversion,
                       content: string, pad: int)
    requires KnownBase(b) && content == Padded(ReversedDigits(value, b, c.group, 0), b, c)
    requires var w := c.width - |content| - |Prefix(value, b, c)| - |Sign(isSigned, negative, c)|;
      pad == if w < 0 then 0 else w
    ensures Formatted(value, isSigned, negative, b, c) ==
      "" + (if !c.minus && !c.zero then Dup(' ', pad) else "") + Sign(isSigned, negative, c) + Prefix(value, b, c) +
      (if c.zero then Dup('0', pad) else "") + Reverse(content) + (if c.minus then Dup(' ', pad) else "")
  {
    var lead := if !c.minus && !c.zero then Dup(' ', pad) else "";
    assert "" + lead == lead;
  }

  lemma {:induction false} ReverseLast(s: string)
    requires s != []
    ensures Reverse(s) == [s[|s| - 1]] + Reverse(s[..|s| - 1])
  {
    if |s| > 1 {
      ReverseLast(s[1..]);
      assert s[1..][..|s| - 2] == s[..|s| - 1][1..];
    }
  }

  // ---- reading numbers ----

  predicate IsSpace(c: char) {
    c == ' ' || c == '\U{0C}' || c == '\n' || c == '\r' || c == '\t' || c == '\U{0B}'
  }

  predicate IsDigit(c: char) { '0' <= c <= '9' }

  function SkipSpaces(s: string): string {
    if s != [] && IsSpace(s[0]) then SkipSpaces(s[1..]) else s
  }

  predicate DigitsIn(s: string, base: nat) {
    forall i | 0 <= i < |s| :: '0' <= s[i] && s[i] as int - '0' as int < base
  }

  /** The number that a string of digits denotes. */
  function Number(s: string, base: nat): nat
    requires DigitsIn(s, base)
  {
    if s == [] then 0
    else Number(s[..|s| - 1], base) * base + (s[|s| - 1] as int - '0' as int)
  }

  function LeadingDigits(s: string): (r: string)
    ensures DigitsIn(r, 10)
  {
    if s != [] && IsDigit(s[0]) then [s[0]] + LeadingDigits(s[1..]) else []
  }

  /** The integer at the start of a string: white space, an optional sign, digits. */
  function LeadingInt(s: string): int {
    var t := SkipSpaces(s);
    var negative := t != [] && t[0] == '-';
    var u := if t != [] && (t[0] == '+' || t[0] == '-') then t[1..] else t;
    var n := Number(LeadingDigits(u), 10);
    if negative then 0 - n else n
  }

  lemma Signed32Congruent(x: int, y: int, k: int)
    requires x == y + k * B32
    ensures Signed32(x) == Signed32(y)
  {
  }

  lemma AtoiStep(v: nat, d: nat)
    ensures Signed32(Signed32(Signed32(0 - v) * 10) - d) == Signed32(0 - (v * 10 + d))
  {
    var x := Signed32(0 - v);
    var k := (x + v) / B32;
    assert x == k * B32 - v;
    var y := Signed32(x * 10);
    var j := (y - x * 10) / B32;
    assert y == x * 10 + j * B32;
    Signed32Congruent(y - d, 0 - (v * 10 + d), 10 * k + j);
  }

  /** atoi: the leading integer of the string, cut to 32 bits.  Index |s| reads the null byte. */
  method Atoi(s: string) returns (value: int)
    ensures value == Signed32(LeadingInt(s))
  {
    var i := 0;
    while i < |s| && IsSpace(s[i])
      invariant 0 <= i <= |s| && SkipSpaces(s[i..]) == SkipSpaces(s)
    {
      i := i + 1;
    }
    assert SkipSpaces(s) == s[i..];
    var negative := false;
    if i < |s| && s[i] == '+' {
      i := i + 1;
    } else if i < |s| && s[i] == '-' {
      negative := true;
      i := i + 1;
    }
    ghost var u := s[i..];
    ghost var n: int := Number(LeadingDigits(u), 10);
    assert LeadingInt(s) == if negative then 0 - n else n;
    hide LeadingInt, SkipSpaces, Signed32;
    value := AtoiDigits(s, i);
    Signed32Negate(n);
    if !negative { value := Signed32(0 - value); }
  }

  /** The digit loop has read `k` digits of `u`. */
  ghost predicate AtoiRead(u: string, k: nat, value: int) {
    k <= |u| && DigitsIn(u[..k], 10) && value == Signed32(0 - Number(u[..k], 10)) &&
    LeadingDigits(u) == u[..k] + LeadingDigits(u[k..])
  }

  lemma AtoiReadNothing(u: string)
    ensures AtoiRead(u, 0, 0)
  {
    assert u[..0] == "" && u[0..] == u;
  }

  lemma AtoiReadDigit(u: string, k: nat, value: int)
    requires k < |u| && AtoiRead(u, k, value) && IsDigit(u[k])
    ensures '0' <= u[k]
    ensures AtoiRead(u, k + 1, Signed32(Signed32(value * 10) - (u[k] as int - '0' as int)))
  {
    var c := u[k];
    OneMoreDigit(u[..k], c, u[k..]);
    AtoiStep(Number(u[..k], 10), c as int - '0' as int);
    assert u[..k + 1] == u[..k] + [c] && u[k..][1..] == u[k + 1..];
    hide Signed32, Number, LeadingDigits;
  }

  lemma AtoiReadAll(u: string, k: nat, value: int)
    requires AtoiRead(u, k, value) && (k == |u| || !IsDigit(u[k]))
    ensures value == Signed32(0 - Number(LeadingDigits(u), 10))
  {
    hide Number, Signed32, LeadingDigits;
    NoLeadingDigits(u[k..]);
    assert LeadingDigits(u) == u[..k];
  }

  lemma NoLeadingDigits(s: string)
    requires s == [] || !IsDigit(s[0])
    ensures LeadingDigits(s) == []
  {}

  /** The digit loop of atoi, which accumulates the negated value. */
  method AtoiDigits(s: string, i0: nat) returns (value: int)
    requires i0 <= |s|
    ensures value == Signed32(0 - Number(LeadingDigits(s[i0..]), 10))
  {
    hide *;
    ghost var u := s[i0..];
    var i := i0;
    value := 0;
    AtoiReadNothing(u);
    while i < |s| && IsDigit(s[i])
      invariant i0 <= i <= |s| && AtoiRead(u, i - i0, value)
    {
      AtoiReadDigit(u, i - i0, value);
      value := Signed32(Signed32(value * 10) - (s[i] as int - '0' as int));
      i := i + 1;
    }
    AtoiReadAll(u, i - i0, value);
  }

  lemma OneMoreDigit(read: string, c: char, rest: string)
    requires DigitsIn(read, 10) && IsDigit(c) && rest != [] && rest[0] == c
    ensures DigitsIn(read + [c], 10) && '0' <= c
    ensures Number(read + [c], 10) == Number(read, 10) * 10 + (c as int - '0' as int)
    ensures read + LeadingDigits(rest) == read + [c] + LeadingDigits(rest[1..])
  {
    hide Number, DigitsIn, LeadingDigits;
    FirstDigit(rest);
    AppendDigit(read, c, 10);
    var more := LeadingDigits(rest[1..]);
    assert read + ([c] + more) == read + [c] + more;
  }

  lemma FirstDigit(s: string)
    requires s != [] && IsDigit(s[0])
    ensures LeadingDigits(s) == [s[0]] + LeadingDigits(s[1..])
  {}

  lemma Signed32Negate(n: nat)
    ensures Signed32(0 - Signed32(0 - n)) == Signed32(n)
  {
    var x := Signed32(0 - n);
    Signed32Congruent(0 - x, n, 0 - (x + n) / B32);
  }

  // ---- atoi undoes format_integer ----

  lemma {:induction false} ReverseAppend(a: string, b: string)
    ensures Reverse(a + b) == Reverse(b) + Reverse(a)
  {
    if a == [] {
      assert a + b == b;
    } else {
      assert (a + b)[1..] == a[1..] + b;
      ReverseAppend(a[1..], b);
    }
  }

  lemma {:induction false} ReverseSame(s: string, ch: char)
    requires forall c | c in s :: c == ch
    ensures |Reverse(s)| == |s| && forall c | c in Reverse(s) :: c == ch
  {
    if s != [] {
      assert s[0] in s && forall c | c in s[1..] :: c in s;
      ReverseSame(s[1..], ch);
    }
  }

  lemma {:induction false} ReverseLength(s: string)
    ensures |Reverse(s)| == |s|
  {
    if s != [] { ReverseLength(s[1..]); }
  }

  lemma DigitCharacter(b: IntegerBase, k: nat)
    requires b in {BASE_D, BASE_O} && k < b.base
    ensures '0' <= b.digits[k] && b.digits[k] as int - '0' as int == k
  {
  }

  lemma AppendDigit(s: string, digit: char, base: nat)
    requires DigitsIn(s, base) && '0' <= digit && digit as int - '0' as int < base
    ensures DigitsIn(s + [digit], base)
    ensures Number(s + [digit], base) == Number(s, base) * base + (digit as int - '0' as int)
  {
    assert (s + [digit])[..|s|] == s;
  }

  /** The digits of a value in base 8 or 10, in order, denote that value. */
  lemma {:induction false} DigitsDenoteValue(value: nat, b: IntegerBase, cnt: nat)
    requires b in {BASE_D, BASE_O}
    ensures var s := Reverse(ReversedDigits(value, b, false, cnt));
      DigitsIn(s, b.base) && Number(s, b.base) == value
  {
    assert Separator(b, false, cnt) == "" && KnownBase(b) && 8 <= b.base <= |b.digits| && b.group > 0;
    hide *;
    if value == 0 {
      NoDigits(b, false, cnt);
      NothingIsZero(b.base);
    } else {
      var q, r := value / b.base, value % b.base;
      DivLess(value, b.base);
      DivMod(value, b.base);
      NextDigit(value, b, false, cnt);
      DigitsDenoteValue(q, b, cnt + 1);
      DigitCharacter(b, r);
      LastDigit(b.digits[r], ReversedDigits(q, b, false, cnt + 1), b.base);
    }
  }

  /** The last digit comes first in the buffer, and last in the output. */
  lemma LastDigit(digit: char, rest: string, base: nat)
    requires DigitsIn(Reverse(rest), base) && '0' <= digit && digit as int - '0' as int < base
    ensures var s := Reverse([] + [digit] + rest);
      DigitsIn(s, base) && Number(s, base) == Number(Reverse(rest), base) * base + (digit as int - '0' as int)
  {
    hide *;
    assert [] + [digit] + rest == [digit] + rest;
    ReverseAppend([digit], rest);
    ReverseSingle(digit);
    AppendDigit(Reverse(rest), digit, base);
  }

  lemma NothingIsZero(base: nat)
    ensures Reverse("") == "" && DigitsIn("", base) && Number("", base) == 0
  {
  }

  lemma ReverseSingle(ch: char)
    ensures Reverse([ch]) == [ch]
  {
  }

  /** Leading zeros change nothing. */
  lemma {:induction false} LeadingZeros(zeros: string, s: string, base: nat)
    requires base > 0 && (forall c | c in zeros :: c == '0') && DigitsIn(s, base)
    ensures DigitsIn(zeros + s, base) && Number(zeros + s, base) == Number(s, base)
  {
    forall i | 0 <= i < |zeros + s|
      ensures '0' <= (zeros + s)[i] && (zeros + s)[i] as int - '0' as int < base
    {
      if i < |zeros| { assert (zeros + s)[i] in zeros; }
    }
    if s == [] {
      assert zeros + s == zeros;
      LeadingZerosOnly(zeros, base);
    } else {
      var front := s[..|s| - 1];
      LeadingZeros(zeros, front, base);
      assert (zeros + s)[..|zeros + s| - 1] == zeros + front;
    }
  }

  lemma {:induction false} LeadingZerosOnly(zeros: string, base: nat)
    requires base > 0 && (forall c | c in zeros :: c == '0') && DigitsIn(zeros, base)
    ensures Number(zeros, base) == 0
  {
    if zeros != [] {
      var front := zeros[..|zeros| - 1];
      assert zeros[|zeros| - 1] in zeros && forall c | c in front :: c in zeros;
      LeadingZerosOnly(front, base);
    }
  }

  /** The printed digit buffer denotes the value, whatever the precision and the `#` flag. */
  lemma BufferDenotesValue(value: nat, b: IntegerBase, c: Conversion)
    requires b in {BASE_D, BASE_O} && !c.group
    ensures var s := Reverse(BufferContent(value, b, c));
      DigitsIn(s, b.base) && Number(s, b.base) == value
  {
    var digits := ReversedDigits(value, b, false, 0);
    assert BufferContent(value, b, c) == Padded(digits, b, c) && b.base > 0;
    hide *;
    var zeros := PaddedWithZeros(digits, b, c);
    ReverseAppend(digits, zeros);
    ReverseSame(zeros, '0');
    DigitsDenoteValue(value, b, 0);
    LeadingZeros(Reverse(zeros), Reverse(digits), b.base);
  }

  lemma PaddedWithZeros(digits: string, b: IntegerBase, c: Conversion) returns (zeros: string)
    ensures Padded(digits, b, c) == digits + zeros && forall ch | ch in zeros :: ch == '0'
  {
    zeros := Padded(digits, b, c)[|digits|..];
  }

  lemma {:induction false} SkipDup(n: int, s: string)
    ensures SkipSpaces(Dup(' ', n) + s) == SkipSpaces(s)
  {
    if n <= 0 {
      assert Dup(' ', n) + s == s;
    } else {
      SkipDup(n - 1, s);
      assert (Dup(' ', n) + s)[1..] == Dup(' ', n - 1) + s;
    }
  }

  lemma {:induction false} DigitsThenSpaces(body: string, n: int)
    requires DigitsIn(body, 10)
    ensures LeadingDigits(body + Dup(' ', n)) == body
  {
    if body != [] {
      DigitsThenSpaces(body[1..], n);
      assert (body + Dup(' ', n))[1..] == body[1..] + Dup(' ', n);
    }
  }

  lemma SignedDigits(sign: string, body: string, trail: int)
    requires sign in {"+", "-"} && DigitsIn(body, 10)
    ensures LeadingInt(sign + (body + Dup(' ', trail))) ==
      if sign == "-" then 0 - Number(body, 10) else Number(body, 10)
  {
    var rest := body + Dup(' ', trail);
    assert (sign + rest)[1..] == rest;
    DigitsThenSpaces(body, trail);
  }

  lemma UnsignedDigits(body: string, trail: int)
    requires DigitsIn(body, 10)
    ensures LeadingInt(body + Dup(' ', trail)) == Number(body, 10)
  {
    var rest := body + Dup(' ', trail);
    DigitsThenSpaces(body, trail);
    if body == [] {
      OnlySpaces(trail);
      assert rest == Dup(' ', trail);
    } else {
      assert rest[0] == body[0] && IsDigit(body[0]);
      StartsWithDigit(rest);
    }
    hide *;
  }

  lemma OnlySpaces(n: int)
    ensures LeadingInt(Dup(' ', n)) == 0
  {
    SkipDup(n, []);
    assert Dup(' ', n) + [] == Dup(' ', n);
  }

  lemma StartsWithDigit(s: string)
    requires s != [] && IsDigit(s[0])
    ensures LeadingInt(s) == Number(LeadingDigits(s), 10)
  {
    hide Number, LeadingDigits, DigitsIn;
    assert !IsSpace(s[0]);
  }

  /** A sign, digits and trailing spaces after leading spaces are read back. */
  lemma ReadBack(lead: int, sign: string, body: string, trail: int)
    requires sign in {"", "+", "-", " "} && DigitsIn(body, 10)
    ensures LeadingInt(Dup(' ', lead) + sign + body + Dup(' ', trail)) ==
      if sign == "-" then 0 - Number(body, 10) else Number(body, 10)
  {
    hide *;
    var rest := body + Dup(' ', trail);
    assert Dup(' ', lead) + sign + body + Dup(' ', trail) == Dup(' ', lead) + (sign + rest);
    SpacesFirst(lead, sign + rest);
    if sign == "+" || sign == "-" {
      SignedDigits(sign, body, trail);
    } else {
      UnsignedDigits(body, trail);
      SpacesFirst(|sign|, rest);
      OneSpace();
      assert sign + rest == Dup(' ', |sign|) + rest;
    }
  }

  lemma SpacesFirst(n: int, s: string)
    ensures LeadingInt(Dup(' ', n) + s) == LeadingInt(s)
  {
    SkipDup(n, s);
  }

  lemma OneSpace()
    ensures Dup(' ', 1) == " " && Dup(' ', 0) == ""
  {
  }

  /** atoi reads back every signed decimal that format_integer prints without grouping. */
  lemma FormatThenAtoi(v: int, c: Conversion)
    requires IsInt32(v) && !c.group
    ensures LeadingInt(Formatted(Abs(v), true, v < 0, BASE_D, c)) == v
  {
    var n := Abs(v);
    var pad := PadCount(n, true, v < 0, BASE_D, c);
    var digits := Reverse(BufferContent(n, BASE_D, c));
    var sign := Sign(true, v < 0, c);
    var zeros := if c.zero then Dup('0', pad) else "";
    var lead, trail := if !c.minus && !c.zero then pad else 0, if c.minus then pad else 0;
    BufferDenotesValue(n, BASE_D, c);
    LeadingZeros(zeros, digits, 10);
    ReadBack(lead, sign, zeros + digits, trail);
    FormattedDecimal(n, v < 0, c, lead, zeros, trail);
  }

  lemma FormattedDecimal(n: nat, negative: bool, c: Conversion, lead: int, zeros: string, trail: int)
    requires var pad := PadCount(n, true, negative, BASE_D, c);
      && lead == (if !c.minus && !c.zero then pad else 0) && trail == (if c.minus then pad else 0)
      && zeros == if c.zero then Dup('0', pad) else ""
    ensures Formatted(n, true, negative, BASE_D, c) ==
      Dup(' ', lead) + Sign(true, negative, c) + (zeros + Reverse(BufferContent(n, BASE_D, c))) + Dup(' ', trail)
  {
    var a, d := Sign(true, negative, c), Reverse(BufferContent(n, BASE_D, c));
    assert Prefix(n, BASE_D, c) == "";
    assert Formatted(n, true, negative, BASE_D, c) == Dup(' ', lead) + a + "" + zeros + d + Dup(' ', trail);
    hide *;
    assert Dup(' ', lead) + a + "" + zeros + d == Dup(' ', lead) + a + (zeros + d);
  }

  /** The round trip of the two functions themselves. */
  method PrintThenRead(v: int, c: Conversion) returns (value: int)
    requires IsInt32(v) && !c.group
    ensures value == v
  {
    var s := FormatInteger(Abs(v), true, v < 0, BASE_D, c);
    FormatThenAtoi(v, c);
    value := Atoi(s);
  }

  // ---- zero-padded octal fields ----

  lemma {:induction false} OctalDigitCount(value: nat, cnt: nat, k: nat)
    requires value < Pow8(k)
    ensures |ReversedDigits(value, BASE_O, false, cnt)| <= k
  {
    if value != 0 {
      DivLess(value, 8);
      OctalDigitCount(value / 8, cnt + 1, k - 1);
    }
  }

  /** The conversion `%0<width>` followed by a type. */
  function ZeroPad(width: int): Conversion {
    Conversion(false, false, false, false, true, false, width, -1)
  }

  /** `%0<width>o`: exactly `width` octal digits that denote the value, if it fits. */
  lemma ZeroPaddedOctal(value: nat, width: nat)
    requires 1 <= width < BUF_SIZE && value < Pow8(width)
    ensures var s := Formatted(value, false, false, BASE_O, ZeroPad(width));
      |s| == width && DigitsIn(s, 8) && Number(s, 8) == value
  {
    assert KnownBase(BASE_O) && BASE_O in {BASE_D, BASE_O} && BASE_O.base == 8 && !ZeroPad(width).group;
    hide *;
    var digits := Reverse(BufferContent(value, BASE_O, ZeroPad(width)));
    var zeros := Dup('0', width - |digits|);
    BufferDenotesValue(value, BASE_O, ZeroPad(width));
    ReverseLength(BufferContent(value, BASE_O, ZeroPad(width)));
    OctalContentLength(value, width);
    DupIsSame('0', width - |digits|);
    LeadingZeros(zeros, digits, 8);
    OctalParts(value, width);
  }

  lemma DupIsSame(ch: char, n: nat)
    ensures |Dup(ch, n)| == n && forall c | c in Dup(ch, n) :: c == ch
  {
  }

  lemma OctalParts(value: nat, width: nat)
    requires |BufferContent(value, BASE_O, ZeroPad(width))| <= width
    ensures var content := BufferContent(value, BASE_O, ZeroPad(width));
      Formatted(value, false, false, BASE_O, ZeroPad(width)) == Dup('0', width - |content|) + Reverse(content)
  {
    var c := ZeroPad(width);
    var content := BufferContent(value, BASE_O, c);
    assert Sign(false, false, c) == "" && Prefix(value, BASE_O, c) == "";
    FormattedParts(value, false, false, BASE_O, c, content, width - |content|);
    hide *;
    var zeros, digits := Dup('0', width - |content|), Reverse(content);
    assert "" + "" + "" + "" + zeros + digits + "" == zeros + digits;
  }

  lemma OctalContentLength(value: nat, width: nat)
    requires 1 <= width < BUF_SIZE && value < Pow8(width)
    ensures |BufferContent(value, BASE_O, ZeroPad(width))| <= width
  {
    OctalDigitCount(value, 0, width);
  }

  // ---- what the output means ----

  /** The value of a digit up to base 16, or -1. */
  function DigitValue(ch: char): int {
    if '0' <= ch <= '9' then ch as int - '0' as int
    else if 'a' <= ch <= 'f' then ch as int - 'a' as int + 10
    else if 'A' <= ch <= 'F' then ch as int - 'A' as int + 10
    else -1
  }

  predicate AreDigits(s: string, base: nat) {
    forall i | 0 <= i < |s| :: 0 <= DigitValue(s[i]) < base
  }

  function NumberOf(s: string, base: nat): int {
    if s == [] then 0 else NumberOf(s[..|s| - 1], base) * base + DigitValue(s[|s| - 1])
  }

  /** A string without its commas. */
  function Ungrouped(s: string): string {
    if s == [] then [] else (if s[0] == ',' then [] else [s[0]]) + Ungrouped(s[1..])
  }

  lemma {:induction false} UngroupedAppend(a: string, b: string)
    ensures Ungrouped(a + b) == Ungrouped(a) + Ungrouped(b)
  {
    if a == [] {
      assert a + b == b;
    } else {
      assert (a + b)[1..] == a[1..] + b;
      UngroupedAppend(a[1..], b);
    }
  }

  lemma NumberOfAppend(s: string, ch: char, base: nat)
    requires AreDigits(s, base) && 0 <= DigitValue(ch) < base
    ensures AreDigits(s + [ch], base) && NumberOf(s + [ch], base) == NumberOf(s, base) * base + DigitValue(ch)
  {
    assert (s + [ch])[..|s|] == s;
  }

  /** The digits of each base; those above 9 are letters of the case of its prefix. */
  lemma DigitOfBase(b: IntegerBase, k: nat)
    requires KnownBase(b) && k < b.base
    ensures k < |b.digits| && DigitValue(b.digits[k]) == k && b.digits[k] != ','
    ensures b == BASE_X ==> !('A' <= b.digits[k] <= 'Z')
    ensures b == BASE_XX ==> !('a' <= b.digits[k] <= 'z')
  {}

  lemma SeparatorIsComma(b: IntegerBase, group: bool, cnt: nat)
    requires KnownBase(b)
    ensures var sep := Separator(b, group, cnt);
      && Reverse(sep) == sep && Ungrouped(sep) == "" && (sep == "" || sep == ",")
      && (sep == "," <==> group && cnt > 0 && cnt % b.group == 0)
  {}

  /** In every base the digits denote the value, with or without separators between them, and the first one is
      not 0. */
  lemma {:induction false} DigitsDenoteInEveryBase(value: nat, b: IntegerBase, group: bool, cnt: nat)
    requires KnownBase(b)
    ensures var s := Ungrouped(Reverse(ReversedDigits(value, b, group, cnt)));
      && AreDigits(s, b.base) && NumberOf(s, b.base) == value
      && (value > 0 <==> s != []) && (s != [] ==> s[0] != '0')
  {
    assert 8 <= b.base <= |b.digits| && b.group > 0;
    hide *;
    if value == 0 {
      NoDigits(b, group, cnt);
      NothingDenoted(b.base);
    } else {
      var q, r := value / b.base, value % b.base;
      DivLess(value, b.base);
      DivMod(value, b.base);
      NextDigit(value, b, group, cnt);
      DigitsDenoteInEveryBase(q, b, group, cnt + 1);
      DigitOfBase(b, r);
      SeparatorIsComma(b, group, cnt);
      LastDigitInBase(Separator(b, group, cnt), b.digits[r], ReversedDigits(q, b, group, cnt + 1), b.base);
      ZeroIsZero(b.digits[r]);
    }
  }

  lemma ZeroIsZero(ch: char)
    ensures DigitValue(ch) > 0 ==> ch != '0'
  {}

  lemma NothingDenoted(base: nat)
    ensures Ungrouped(Reverse("")) == "" && AreDigits("", base) && NumberOf("", base) == 0
  {}

  lemma LastDigitInBase(sep: string, digit: char, rest: string, base: nat)
    requires Reverse(sep) == sep && Ungrouped(sep) == "" && digit != ',' && 0 <= DigitValue(digit) < base
    requires AreDigits(Ungrouped(Reverse(rest)), base)
    ensures var s, t := Ungrouped(Reverse(sep + [digit] + rest)), Ungrouped(Reverse(rest));
      s == t + [digit] && AreDigits(s, base) && NumberOf(s, base) == NumberOf(t, base) * base + DigitValue(digit)
  {
    var t := Ungrouped(Reverse(rest));
    JustDigit(digit);
    hide *;
    assert sep + [digit] + rest == sep + ([digit] + rest);
    ReverseAppend(sep, [digit] + rest);
    ReverseAppend([digit], rest);
    ReverseSingle(digit);
    UngroupedAppend(Reverse(rest) + [digit], sep);
    UngroupedAppend(Reverse(rest), [digit]);
    assert t + [digit] + "" == t + [digit];
    NumberOfAppend(t, digit, base);
  }

  lemma JustDigit(digit: char)
    requires digit != ','
    ensures Ungrouped([digit]) == [digit]
  {}

  lemma {:induction false} ZerosInFront(zeros: string, s: string, base: nat)
    requires base > 0 && (forall c | c in zeros :: c == '0') && AreDigits(s, base)
    ensures AreDigits(zeros + s, base) && NumberOf(zeros + s, base) == NumberOf(s, base)
    decreases |zeros|, |s|
  {
    if s != [] {
      var front := s[..|s| - 1];
      ZerosInFront(zeros, front, base);
      NumberOfAppend(zeros + front, s[|s| - 1], base);
      assert zeros + s == zeros + front + [s[|s| - 1]];
    } else if zeros != [] {
      var front := zeros[..|zeros| - 1];
      assert zeros[|zeros| - 1] in zeros && forall c | c in front :: c in zeros;
      ZerosInFront(front, [], base);
      assert front + [] == front && zeros + [] == front + [zeros[|zeros| - 1]];
      NumberOfAppend(front, zeros[|zeros| - 1], base);
    } else {
      assert zeros + s == [];
    }
  }

  lemma {:induction false} UngroupedZeros(zeros: string)
    requires forall c | c in zeros :: c == '0'
    ensures Ungrouped(zeros) == zeros
  {
    if zeros != [] {
      assert zeros[0] in zeros && forall c | c in zeros[1..] :: c in zeros;
      UngroupedZeros(zeros[1..]);
    }
  }

  /** What is printed between sign or prefix and padding denotes the value, for every base and conversion. */
  lemma BufferDenotesInEveryBase(value: nat, b: IntegerBase, c: Conversion)
    requires KnownBase(b)
    ensures var s := Ungrouped(Reverse(BufferContent(value, b, c)));
      AreDigits(s, b.base) && NumberOf(s, b.base) == value
  {
    var digits := ReversedDigits(value, b, c.group, 0);
    assert BufferContent(value, b, c) == Padded(digits, b, c) && b.base > 0;
    hide *;
    var zeros := PaddedWithZeros(digits, b, c);
    ReverseAppend(digits, zeros);
    ReverseSame(zeros, '0');
    UngroupedAppend(Reverse(zeros), Reverse(digits));
    UngroupedZeros(Reverse(zeros));
    DigitsDenoteInEveryBase(value, b, c.group, 0);
    ZerosInFront(Reverse(zeros), Ungrouped(Reverse(digits)), b.base);
  }

  /** With the flag for it there is a comma between any two groups of digits, counted from the last digit, and none
      in front; without it there is none. */
  lemma {:induction false} CommasBetweenGroups(value: nat, b: IntegerBase, group: bool, cnt: nat, pos: nat)
    requires KnownBase(b) && pos == cnt + if cnt == 0 then 0 else (cnt - 1) / b.group
    ensures var s := ReversedDigits(value, b, group, cnt);
      && (forall k | 0 <= k < |s| :: s[k] == ',' <==> group && (pos + k + 1) % (b.group + 1) == 0)
      && (s != [] ==> s[|s| - 1] != ',')
    decreases value
  {
    hide *;
    BaseHas(b);
    if value == 0 {
      NoDigits(b, group, cnt);
    } else {
      var sep, rest := Separator(b, group, cnt), ReversedDigits(value / b.base, b, group, cnt + 1);
      DivLess(value, b.base);
      NextDigit(value, b, group, cnt);
      DigitOfBase(b, value % b.base);
      SeparatorIsComma(b, group, cnt);
      CommaPlaces(cnt, b.group, pos);
      CommasBetweenGroups(value / b.base, b, group, cnt + 1, cnt + 1 + cnt / b.group);
      CommasInParts(sep, b.digits[value % b.base], rest, group, pos, cnt + 1 + cnt / b.group, b.group + 1);
    }
  }

  lemma BaseHas(b: IntegerBase)
    requires KnownBase(b)
    ensures 8 <= b.base <= |b.digits| && (b.group == 3 || b.group == 4)
  {}

  lemma CommaPlaces(cnt: nat, g: nat, pos: nat)
    requires (g == 3 || g == 4) && pos == cnt + if cnt == 0 then 0 else (cnt - 1) / g
    ensures cnt > 0 && cnt % g == 0 ==>
      (pos + 1) % (g + 1) == 0 && (pos + 2) % (g + 1) != 0 && pos + 2 == cnt + 1 + cnt / g
    ensures !(cnt > 0 && cnt % g == 0) ==> (pos + 1) % (g + 1) != 0 && pos + 1 == cnt + 1 + cnt / g
  {
    var m, r := cnt / g, cnt % g;
    DivMod(cnt, g);
    assert g * m == if g == 3 then 3 * m else 4 * m;
    if cnt > 0 && r == 0 {
      QuotientAndRest(cnt - 1, g, m - 1, g - 1);
      assert pos + 1 == (g + 1) * m + 0;
      QuotientAndRest(pos + 1, g + 1, m, 0);
      QuotientAndRest(pos + 2, g + 1, m, 1);
    } else {
      if cnt > 0 {
        QuotientAndRest(cnt - 1, g, m, r - 1);
      }
      assert pos + 1 == (g + 1) * m + (r + 1);
      QuotientAndRest(pos + 1, g + 1, m, r + 1);
    }
  }

  lemma QuotientAndRest(n: nat, d: nat, q: nat, r: nat)
    requires d > 0 && n == d * q + r && r < d
    ensures n / d == q && n % d == r
  {
    DivUnique(n, d, q);
    DivMod(n, d);
  }

  lemma CommasInParts(sep: string, digit: char, rest: string, group: bool, pos: nat, next: nat, n: nat)
    requires n > 0 && (sep == "" || sep == ",") && digit != ',' && (group ==> next == pos + |sep| + 1)
    requires sep == "," ==> group && (pos + 1) % n == 0
    requires group ==> (pos + |sep| + 1) % n != 0
    requires forall k | 0 <= k < |rest| :: rest[k] == ',' <==> group && (next + k + 1) % n == 0
    requires rest != [] ==> rest[|rest| - 1] != ','
    ensures var s := sep + [digit] + rest;
      && (forall k | 0 <= k < |s| :: s[k] == ',' <==> group && (pos + k + 1) % n == 0)
      && s[|s| - 1] != ','
  {
    var s := sep + [digit] + rest;
    forall k | 0 <= k < |s|
      ensures s[k] == ',' <==> group && (pos + k + 1) % n == 0
    {
      if k > |sep| {
        var j := k - |sep| - 1;
        assert s[k] == rest[j];
        assert group ==> pos + k + 1 == next + j + 1;
      }
    }
  }

  lemma {:induction false} ReverseHas(s: string)
    ensures forall ch :: ch in Reverse(s) <==> ch in s
  {
    if s != [] {
      ReverseHas(s[1..]);
      assert s == [s[0]] + s[1..];
    }
  }

  /** A digit, in the case of the base. */
  predicate IsDigitOf(b: IntegerBase, ch: char) {
    && DigitValue(ch) >= 0
    && (b == BASE_X ==> !('A' <= ch <= 'Z')) && (b == BASE_XX ==> !('a' <= ch <= 'z'))
  }

  lemma {:induction false} OnlyDigits(value: nat, b: IntegerBase, group: bool, cnt: nat)
    requires KnownBase(b)
    ensures forall ch | ch in ReversedDigits(value, b, group, cnt) :: ch == ',' || IsDigitOf(b, ch)
  {
    if value > 0 {
      DivLess(value, b.base);
      NextDigit(value, b, group, cnt);
      OnlyDigits(value / b.base, b, group, cnt + 1);
      DigitOfBase(b, value % b.base);
      SeparatorIsComma(b, group, cnt);
    }
  }

  /** When signs and prefixes are printed: a minus exactly for a negative number, a plus exactly for another one
      with the flag for it, and x or X exactly for a nonzero number in its base with the flag; without padding, a
      space exactly for a number that is not negative with the flag for that and none for a plus. */
  lemma SignsArePrinted(value: nat, isSigned: bool, negative: bool, b: IntegerBase, c: Conversion)
    requires KnownBase(b)
    ensures var out := Formatted(value, isSigned, negative, b, c);
      && ('-' in out <==> isSigned && negative)
      && ('+' in out <==> isSigned && !negative && c.plus)
      && ('x' in out <==> b == BASE_X && c.pound && value > 0)
      && ('X' in out <==> b == BASE_XX && c.pound && value > 0)
      && (c.width <= 0 ==> (' ' in out <==> isSigned && !negative && !c.plus && c.space))
  {
    var content, pad := BufferContent(value, b, c), PadCount(value, isSigned, negative, b, c);
    assert pad == 0 || c.width > 0;
    FormattedParts(value, isSigned, negative, b, c, content, pad);
    TextHasNoSign(value, b, c);
    SignHas(isSigned, negative, c);
    PrefixHas(value, b, c);
    PaddingHas(' ', pad);
    PaddingHas('0', pad);
    var lead, zeros, trail := if !c.minus && !c.zero then Dup(' ', pad) else "", if c.zero then Dup('0', pad) else "",
      if c.minus then Dup(' ', pad) else "";
    hide *;
    SixParts(lead, Sign(isSigned, negative, c), Prefix(value, b, c), zeros, Reverse(content), trail);
  }

  lemma SixParts(p: string, q: string, r: string, s: string, t: string, u: string)
    ensures forall ch :: ch in "" + p + q + r + s + t + u <==>
      ch in p || ch in q || ch in r || ch in s || ch in t || ch in u
  {}

  lemma SignHas(isSigned: bool, negative: bool, c: Conversion)
    ensures var sign := Sign(isSigned, negative, c);
      && ('-' in sign <==> isSigned && negative) && ('+' in sign <==> isSigned && !negative && c.plus)
      && (' ' in sign <==> isSigned && !negative && !c.plus && c.space) && 'x' !in sign && 'X' !in sign
  {}

  lemma PrefixHas(value: nat, b: IntegerBase, c: Conversion)
    requires KnownBase(b)
    ensures var x := Prefix(value, b, c);
      && ('x' in x <==> b == BASE_X && c.pound && value > 0) && ('X' in x <==> b == BASE_XX && c.pound && value > 0)
      && '-' !in x && '+' !in x && ' ' !in x
  {}

  lemma PaddingHas(ch: char, n: int)
    ensures forall other :: other in Dup(ch, n) <==> n > 0 && other == ch
  {
    if n > 0 {
      assert Dup(ch, n)[0] == ch;
    }
  }

  lemma TextHasNoSign(value: nat, b: IntegerBase, c: Conversion)
    requires KnownBase(b)
    ensures var text := Reverse(BufferContent(value, b, c));
      '-' !in text && '+' !in text && ' ' !in text && 'x' !in text && 'X' !in text
  {
    var digits := ReversedDigits(value, b, c.group, 0);
    OnlyDigits(value, b, c.group, 0);
    assert BufferContent(value, b, c) == Padded(digits, b, c);
    ReverseHas(BufferContent(value, b, c));
    hide ReversedDigits, BufferContent, Reverse, Padded;
    var zeros := PaddedWithZeros(digits, b, c);
  }

  /** The field width: padding is added to what would be printed without one, on the right with the minus flag, as
      zeros behind sign and prefix with the zero flag, and else on the left. */
  lemma PaddedToWidth(value: nat, isSigned: bool, negative: bool, b: IntegerBase, c: Conversion)
    requires KnownBase(b)
    ensures var out, bare := Formatted(value, isSigned, negative, b, c),
        Formatted(value, isSigned, negative, b, c.(width := 0));
      var pad := if c.width < |bare| then 0 else c.width - |bare|;
      && (!c.minus && !c.zero ==> out == Dup(' ', pad) + bare)
      && (c.minus && !c.zero ==> out == bare + Dup(' ', pad))
      && (c.zero && !c.minus ==>
            var k := |Sign(isSigned, negative, c)| + |Prefix(value, b, c)|;
            k <= |bare| && out == bare[..k] + Dup('0', pad) + bare[k..])
  {
    hide *;
    var content, pad := BufferContent(value, b, c), PadCount(value, isSigned, negative, b, c);
    var sign, x := Sign(isSigned, negative, c), Prefix(value, b, c);
    WidthOnlyPads(value, isSigned, negative, b, c);
    ReverseLength(content);
    NoPadding();
    PartsToWidth(sign, x, Reverse(content), Dup(' ', pad), Dup('0', pad));
  }

  /** The parts of what is printed, with and without a width. */
  lemma WidthOnlyPads(value: nat, isSigned: bool, negative: bool, b: IntegerBase, c: Conversion)
    requires KnownBase(b)
    ensures var content, pad := BufferContent(value, b, c), PadCount(value, isSigned, negative, b, c);
      var sign, x := Sign(isSigned, negative, c), Prefix(value, b, c);
      && pad == (var w := c.width - |content| - |x| - |sign|; if w < 0 then 0 else w)
      && Formatted(value, isSigned, negative, b, c) ==
        "" + (if !c.minus && !c.zero then Dup(' ', pad) else "") + sign + x +
        (if c.zero then Dup('0', pad) else "") + Reverse(content) + (if c.minus then Dup(' ', pad) else "")
      && Formatted(value, isSigned, negative, b, c.(width := 0)) ==
        "" + (if !c.minus && !c.zero then Dup(' ', 0) else "") + sign + x +
        (if c.zero then Dup('0', 0) else "") + Reverse(content) + (if c.minus then Dup(' ', 0) else "")
  {
    var content, pad := BufferContent(value, b, c), PadCount(value, isSigned, negative, b, c);
    var sign, x, d := Sign(isSigned, negative, c), Prefix(value, b, c), c.(width := 0);
    assert content == Padded(ReversedDigits(value, b, c.group, 0), b, c);
    assert content == Padded(ReversedDigits(value, b, d.group, 0), b, d);
    assert Prefix(value, b, d) == x && Sign(isSigned, negative, d) == sign;
    assert pad == (var w := c.width - |content| - |x| - |sign|; if w < 0 then 0 else w);
    hide *;
    FormattedParts(value, isSigned, negative, b, c, content, pad);
    FormattedParts(value, isSigned, negative, b, d, content, 0);
  }

  lemma PartsToWidth(sign: string, x: string, text: string, spaces: string, zeros: string)
    ensures "" + "" + sign + x + "" + text + "" == sign + x + text
    ensures "" + spaces + sign + x + "" + text + "" == spaces + (sign + x + text)
    ensures "" + "" + sign + x + "" + text + spaces == sign + x + text + spaces
    ensures var bare, k := sign + x + text, |sign| + |x|;
      "" + "" + sign + x + zeros + text + "" == bare[..k] + zeros + bare[k..]
  {
    var bare, k := sign + x + text, |sign| + |x|;
    assert bare[..k] == sign + x && bare[k..] == text;
  }

  lemma NoPadding()
    ensures Dup(' ', 0) == "" && Dup('0', 0) == ""
  {}

  /** The precision: at least so many digits and separators, up to 63, and no more zeros than that needs; but with
      the # flag an octal number begins with 0. */
  lemma DigitsByPrecision(value: nat, b: IntegerBase, c: Conversion)
    requires KnownBase(b)
    ensures var content, digits := BufferContent(value, b, c), ReversedDigits(value, b, c.group, 0);
      var least := Min(if c.precision < 0 then 1 else c.precision, BUF_SIZE - 1);
      && digits <= content
      && (!(c.pound && b == BASE_O) ==> |content| == Max(|digits|, least))
      && (c.pound && b == BASE_O ==> content != [] && content[|content| - 1] == '0')
      && (c.pound && b == BASE_O ==> Max(|digits|, least) <= |content| <= Max(|digits|, least) + 1)
  {
    hide ReversedDigits;
  }

  // ---- what atoi reads ----

  predicate AreSpaces(s: string) {
    forall ch | ch in s :: ch in {' ', '\t', '\n', '\r', '\U{0B}', '\U{0C}'}
  }

  lemma {:induction false} SpacesAreSkipped(spaces: string, s: string)
    requires AreSpaces(spaces)
    ensures SkipSpaces(spaces + s) == SkipSpaces(s)
  {
    if spaces == [] {
      assert spaces + s == s;
    } else {
      assert spaces[0] in spaces && forall ch | ch in spaces[1..] :: ch in spaces;
      assert (spaces + s)[1..] == spaces[1..] + s;
      SpacesAreSkipped(spaces[1..], s);
    }
  }

  lemma {:induction false} DigitsAreLeading(digits: string, rest: string)
    requires DigitsIn(digits, 10) && (rest == [] || !('0' <= rest[0] <= '9'))
    ensures LeadingDigits(digits + rest) == digits
  {
    if digits == [] {
      assert digits + rest == rest;
    } else {
      assert (digits + rest)[1..] == digits[1..] + rest;
      DigitsAreLeading(digits[1..], rest);
    }
  }

  /** Of any string, white space is skipped, a sign is obeyed, and the digits up to the first other character
      count. */
  lemma ReadsAnyNumber(spaces: string, sign: string, digits: string, rest: string)
    requires AreSpaces(spaces) && sign in {"", "+", "-"} && DigitsIn(digits, 10)
    requires rest == [] || !('0' <= rest[0] <= '9')
    requires sign == digits == "" && rest != [] ==> !AreSpaces(rest[..1]) && rest[0] != '+' && rest[0] != '-'
    ensures LeadingInt(spaces + sign + digits + rest) ==
      if sign == "-" then 0 - Number(digits, 10) else Number(digits, 10)
  {
    hide *;
    var u := digits + rest;
    DigitsAreLeading(digits, rest);
    FirstIsNoSpace(digits, rest);
    assert spaces + sign + digits + rest == spaces + (sign + u);
    SpacesAreSkipped(spaces, sign + u);
    SameAfterSpaces(spaces + (sign + u), sign + u);
    SignAndDigits(sign, u);
  }

  lemma SameAfterSpaces(s: string, t: string)
    requires SkipSpaces(s) == SkipSpaces(t)
    ensures LeadingInt(s) == LeadingInt(t)
  {}

  lemma SignAndDigits(sign: string, u: string)
    requires sign in {"", "+", "-"}
    requires sign == "" && u != [] ==> !IsSpace(u[0]) && u[0] != '+' && u[0] != '-'
    ensures var n := Number(LeadingDigits(u), 10);
      LeadingInt(sign + u) == if sign == "-" then 0 - n else n
  {
    hide Number, LeadingDigits, DigitsIn;
    if sign == "" {
      assert sign + u == u;
    } else {
      assert (sign + u)[0] == sign[0] && (sign + u)[1..] == u;
    }
  }

  lemma FirstIsNoSpace(digits: string, rest: string)
    requires DigitsIn(digits, 10)
    ensures var u := digits + rest;
      (digits == "" && rest != [] ==> !AreSpaces(rest[..1]) && rest[0] != '+' && rest[0] != '-') && u != [] ==>
      !IsSpace(u[0]) && u[0] != '+' && u[0] != '-'
  {
    if digits == "" && rest != [] {
      assert rest[..1] == [rest[0]];
    }
  }
}
