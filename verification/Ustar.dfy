/** ustar archive headers (lib/ustar.c): the header is a 512-character buffer filled in place. */
module Ustar {
  import opened Options
  import opened Machine
  import opened Printf

  const HEADER_SIZE := 512
  const NAME_SIZE := 100
  const MODE_OFS := 100
  const UID_OFS := 108
  const GID_OFS := 116
  const SIZE_OFS := 124
  const MTIME_OFS := 136
  const CHKSUM_OFS := 148
  const CHKSUM_END := 156
  const TYPE_OFS := 156
  const MAGIC_OFS := 257
  const VERSION_OFS := 263
  const UNAME_OFS := 265
  const GNAME_OFS := 297
  const PREFIX_OFS := 345
  const INT_MAX := 0x7FFF_FFFF

  datatype UstarType = Regular | Directory
  datatype Parsed = Eof | File(name: string, kind: UstarType, size: int) | Error(message: string)
  function TypeFlag(kind: UstarType): char { if kind == Regular then '0' else '5' }

  /** A C string: bytes without a null. */
  ghost predicate IsCString(s: string) {
    forall c | c in s :: c != '\0' && c as int < 256
  }

  ghost predicate IsBytes(s: string) {
    forall c | c in s :: c as int < 256
  }

  // ---- strip_antisocial_prefixes ----

  predicate Antisocial(s: string) { Absolute(s) || Here(s) || Up(s) }
  predicate Absolute(s: string) { |s| >= 1 && s[0] == '/' }
  predicate Here(s: string) { |s| >= 2 && s[0] == '.' && s[1] == '/' }
  predicate Up(s: string) { |s| >= 3 && s[0] == '.' && s[1] == '.' && s[2] == '/' }

  function AfterSlash(s: string): (r: string)
    requires Antisocial(s)
    ensures |r| < |s| && r == s[|s| - |r|..]
  {
    if Absolute(s) then s[1..] else if Here(s) then s[2..] else s[3..]
  }

  function Strip(s: string): string {
    if Antisocial(s) then Strip(AfterSlash(s))
    else if s == "" || s == ".." then "." else s
  }

  /** The index after the first slash. */
  method AfterFirstSlash(s: string, i: nat) returns (j: nat)
    requires i <= |s| && Antisocial(s[i..])
    ensures i < j <= |s| && s[j..] == AfterSlash(s[i..])
  {
    j := i;
    while s[j] != '/'
      invariant i <= j < |s| && j - i <= 2
      invariant (Absolute(s[i..]) ==> j == i) && (Here(s[i..]) ==> j - i <= 1)
      decreases |s| - j
    {
      j := j + 1;
    }
    j := j + 1;
  }

  method StripAntisocialPrefixes(s: string) returns (r: string)
    ensures r == Strip(s)
  {
    var i := 0;
    while Antisocial(s[i..])
      invariant 0 <= i <= |s| && Strip(s[i..]) == Strip(s)
      decreases |s| - i
    {
      i := AfterFirstSlash(s, i);
    }
    r := if s[i..] == "" || s[i..] == ".." then "." else s[i..];
  }

  /** What is left is a nonempty name that begins neither with / nor with ./ or ../, and stripping again changes
      nothing. */
  lemma {:induction false} StripIsSafeAndIdempotent(s: string)
    ensures var r := Strip(s);
      && !Antisocial(r) && r != "" && r != ".." && Strip(r) == r
      && (r == "." || (|r| <= |s| && r == s[|s| - |r|..]))
      && (IsCString(s) ==> IsCString(r))
  {
    hide *;
    if Antisocial(s) {
      var m := PrefixLength(s);
      SuffixIsCString(s, m);
      StripIsSafeAndIdempotent(s[m..]);
      EndOfRest(s, m, |Strip(s)|);
    } else {
      NotStripped(s);
      DotIsCString();
      StrippedIsFixed(Strip(s));
    }
  }

  lemma NotStripped(s: string)
    requires !Antisocial(s)
    ensures Strip(s) == if s == "" || s == ".." then "." else s
    ensures OnlyPrefixes("")
  {}

  /** A sequence of the prefixes that are stripped. */
  predicate OnlyPrefixes(p: string) {
    || p == "" || (p[..1] == "/" && OnlyPrefixes(p[1..]))
    || (|p| >= 2 && p[..2] == "./" && OnlyPrefixes(p[2..])) || (|p| >= 3 && p[..3] == "../" && OnlyPrefixes(p[3..]))
  }

  /** Nothing else is stripped, and no more than until the rest is safe. */
  lemma {:induction false} StripsOnlyPrefixes(s: string) returns (k: nat)
    ensures k <= |s| && OnlyPrefixes(s[..k]) && !Antisocial(s[k..])
    ensures Strip(s) == if s[k..] == "" || s[k..] == ".." then "." else s[k..]
    decreases |s|
  {
    hide *;
    if Antisocial(s) {
      var m := PrefixLength(s);
      var n := StripsOnlyPrefixes(s[m..]);
      k := m + n;
      CutTwice(s, m, n);
      MorePrefixes(s[..k], m);
    } else {
      k := 0;
      NotStripped(s);
      assert s[0..] == s && s[..0] == "";
    }
  }

  lemma CutTwice(s: string, m: nat, n: nat)
    requires m + n <= |s|
    ensures s[m + n..] == s[m..][n..] && s[..m + n][m..] == s[m..][..n] && s[..m + n][..m] == s[..m]
  {}

  lemma EndOfRest(s: string, m: nat, n: nat)
    requires m <= |s|
    ensures n <= |s[m..]| ==> s[m..][|s[m..]| - n..] == s[|s| - n..]
  {}

  lemma PrefixLength(s: string) returns (m: nat)
    requires Antisocial(s)
    ensures 0 < m <= |s| && s[m..] == AfterSlash(s) && Strip(s) == Strip(s[m..])
    ensures s[..m] == "/" || s[..m] == "./" || s[..m] == "../"
  {
    if Absolute(s) {
      m := 1;
      assert s[..1] == "/";
    } else if Here(s) {
      m := 2;
      assert s[..2] == "./";
    } else {
      m := 3;
      assert s[..3] == "../";
    }
  }

  lemma MorePrefixes(p: string, m: nat)
    requires m <= |p| && (p[..m] == "/" || p[..m] == "./" || p[..m] == "../") && OnlyPrefixes(p[m..])
    ensures OnlyPrefixes(p)
  {
    assert |p[..m]| == m;
  }

  lemma SuffixIsCString(s: string, k: nat)
    requires k <= |s|
    ensures IsCString(s) ==> IsCString(s[k..])
  {
    assert forall c | c in s[k..] :: c in s;
  }

  lemma StripIsRelative(s: string)
    ensures !("/" <= Strip(s)) && !("./" <= Strip(s)) && !("../" <= Strip(s))
  {
    hide *;
    StripIsSafeAndIdempotent(s);
    PrefixesAreAntisocial(Strip(s));
  }

  lemma PrefixesAreAntisocial(s: string)
    ensures Antisocial(s) <==> "/" <= s || "./" <= s || "../" <= s
  {}

  lemma DotIsCString()
    ensures IsCString(".") && !Antisocial(".")
  {
  }

  lemma StrippedIsFixed(r: string)
    requires !Antisocial(r) && r != "" && r != ".."
    ensures Strip(r) == r
  {
  }

  // ---- buffers ----

  /** `s` with the characters of `t` stored from `ofs` on. */
  function Put(s: string, ofs: nat, t: string): (r: string)
    requires ofs + |t| <= |s|
    ensures |r| == |s|
  {
    s[..ofs] + t + s[ofs + |t|..]
  }

  lemma PutAt(s: string, ofs: nat, t: string, i: nat)
    requires ofs + |t| <= |s| && i < |s|
    ensures Put(s, ofs, t)[i] == if ofs <= i < ofs + |t| then t[i - ofs] else s[i]
  {
  }

  lemma PutSlice(s: string, ofs: nat, t: string, lo: nat, hi: nat)
    requires ofs + |t| <= |s| && lo <= hi <= |s|
    ensures hi <= ofs || ofs + |t| <= lo ==> Put(s, ofs, t)[lo..hi] == s[lo..hi]
    ensures ofs <= lo && hi <= ofs + |t| ==> Put(s, ofs, t)[lo..hi] == t[lo - ofs..hi - ofs]
  {
  }

  /** The characters that strlcpy and snprintf store into a buffer of `size` characters. */
  function Terminated(s: string, size: nat): string
    requires size > 0
  {
    s[..Min(|s|, size - 1)] + "\0"
  }

  lemma PutOneMore(s: string, ofs: nat, t: string, c: char)
    requires ofs + |t| < |s|
    ensures Put(s, ofs, t)[ofs + |t| := c] == Put(s, ofs, t + [c])
  {}

  /** strlcpy. */
  method Strlcpy(h: array<char>, ofs: nat, src: string, size: nat) returns (srcLen: nat)
    requires ofs + size <= h.Length
    modifies h
    ensures h[..] == if size > 0 then Put(old(h[..]), ofs, Terminated(src, size)) else old(h[..])
    ensures srcLen == |src|
  {
    srcLen := |src|;
    if size > 0 {
      var dstLen := size - 1;
      if srcLen < dstLen { dstLen := srcLen; }
      forall i | 0 <= i < dstLen { h[ofs + i] := src[i]; }
      h[ofs + dstLen] := '\0';
    }
  }

  /** vsnprintf with its helper: at most size - 1 characters of the output, then a null. */
  method Snprintf(h: array<char>, ofs: nat, size: nat, output: string) returns (length: nat)
    requires ofs + size <= h.Length
    modifies h
    ensures h[..] == if size > 0 then Put(old(h[..]), ofs, Terminated(output, size)) else old(h[..])
    ensures length == |output|
  {
    var maxLength := if size > 0 then size - 1 else 0;
    var p := ofs;
    length := 0;
    assert h[..] == Put(h[..], ofs, "");
    hide Put;
    while length < |output|
      invariant length <= |output| && p == ofs + Min(length, maxLength)
      invariant h[..] == Put(old(h[..]), ofs, output[..Min(length, maxLength)])
    {
      if length < maxLength {
        PutOneMore(old(h[..]), ofs, output[..length], output[length]);
        assert output[..length + 1] == output[..length] + [output[length]];
        h[p] := output[length];
        p := p + 1;
      }
      length := length + 1;
    }
    if size > 0 {
      PutOneMore(old(h[..]), ofs, output[..p - ofs], '\0');
      h[p] := '\0';
    }
  }

  // ---- checksum ----

  function ChecksumTo(h: string, n: nat): nat
    requires n <= |h|
  {
    if n == 0 then 0
    else ChecksumTo(h, n - 1) + if CHKSUM_OFS <= n - 1 < CHKSUM_END then ' ' as int else h[n - 1] as int
  }

  function Checksum(h: string): nat { ChecksumTo(h, |h|) }

  lemma {:induction false} ChecksumBound(h: string, n: nat)
    requires n <= |h| && IsBytes(h)
    ensures ChecksumTo(h, n) <= 255 * n
  {
    if n > 0 {
      assert h[n - 1] in h;
      ChecksumBound(h, n - 1);
    }
  }

  /** The checksum does not depend on what the checksum field holds. */
  lemma {:induction false} ChecksumIgnoresItself(h: string, t: string, n: nat)
    requires |h| == HEADER_SIZE && |t| <= CHKSUM_END - CHKSUM_OFS && n <= |h|
    ensures ChecksumTo(Put(h, CHKSUM_OFS, t), n) == ChecksumTo(h, n)
  {
    if n > 0 {
      PutAt(h, CHKSUM_OFS, t, n - 1);
      ChecksumIgnoresItself(h, t, n - 1);
    }
  }

  method CalculateChksum(h: array<char>) returns (chksum: nat)
    requires h.Length == HEADER_SIZE && IsBytes(h[..])
    ensures chksum == Checksum(h[..]) < Pow8(7) && IsUint32(chksum)
  {
    chksum := 0;
    for i := 0 to HEADER_SIZE
      invariant chksum == ChecksumTo(h[..], i) <= 255 * i
    {
      assert h[..][i] == h[i] && h[..][i] in h[..];
      var inField := CHKSUM_OFS <= i < CHKSUM_END;
      chksum := Wrap32(chksum + if inField then ' ' as int else h[i] as int);
    }
    assert Pow8(7) == 0x20_0000;
  }

  // ---- octal fields ----

  function LeadingOctal(s: string): (r: string)
    ensures DigitsIn(r, 8) && r <= s
    ensures |r| < |s| ==> !('0' <= s[|r|] <= '7')
  {
    if s != [] && '0' <= s[0] <= '7' then [s[0]] + LeadingOctal(s[1..]) else []
  }

  /** The value of an octal field: some octal digits, then a space or a null inside the field. */
  function OctalField(s: string): Option<nat> {
    var digits := LeadingOctal(s);
    if digits == [] || |digits| == |s| then None
    else if s[|digits|] != ' ' && s[|digits|] != '\0' then None
    else if Number(digits, 8) >= B32 then None
    else Some(Number(digits, 8))
  }

  /** A field is accepted exactly if it begins with octal digits that a word can hold and goes on with a space or a
      null. */
  lemma OctalFieldExactly(s: string, value: nat)
    ensures OctalField(s) == Some(value) <==> exists k :: IsOctalUpTo(s, k, value)
  {
    var digits := LeadingOctal(s);
    if k :| IsOctalUpTo(s, k, value) {
      assert s[k] == ' ' || s[k] == '\0';
      assert k <= |digits| && digits == s[..|digits|];
      assert digits == s[..k];
    }
    if OctalField(s) == Some(value) {
      assert digits == s[..|digits|];
      assert IsOctalUpTo(s, |digits|, value);
    }
  }

  predicate IsOctalUpTo(s: string, k: int, value: nat) {
    && 0 < k < |s| && (s[k] == ' ' || s[k] == '\0')
    && (forall i | 0 <= i < k :: '0' <= s[i] <= '7') && DigitsIn(s[..k], 8) && Number(s[..k], 8) == value < B32
  }

  lemma {:induction false} NumberGrows(a: string, b: string)
    requires DigitsIn(a + b, 8)
    ensures DigitsIn(a, 8) && Number(a, 8) <= Number(a + b, 8)
  {
    assert forall i | 0 <= i < |a| :: a[i] == (a + b)[i];
    if b == [] {
      assert a + b == a;
    } else {
      var c := a + b;
      assert c[..|c| - 1] == a + b[..|b| - 1];
      NumberGrows(a, b[..|b| - 1]);
    }
  }

  /** The field has been read up to `ofs`, all of it octal digits. */
  ghost predicate ReadTo(s: string, ofs: nat, value: nat) {
    ofs <= |s| && s[..ofs] <= LeadingOctal(s) && DigitsIn(s[..ofs], 8) && value == Number(s[..ofs], 8) < B32
  }

  lemma ReadDigit(s: string, ofs: nat, value: nat)
    requires ofs < |s| && ReadTo(s, ofs, value) && '0' <= s[ofs] <= '7'
    ensures value <= (B32 - 1) / 8 ==> ReadTo(s, ofs + 1, value * 8 + (s[ofs] as int - '0' as int))
    ensures value > (B32 - 1) / 8 ==> OctalField(s) == None
  {
    hide LeadingOctal, Number, DigitsIn;
    var all, more := LeadingOctal(s), s[..ofs] + [s[ofs]];
    assert more == s[..ofs + 1];
    assert more <= all;
    OneMoreOctal(s[..ofs], s[ofs]);
    assert more + all[ofs + 1..] == all;
    NumberGrows(more, all[ofs + 1..]);
  }

  lemma ReadEnd(s: string, ofs: nat, value: nat)
    requires ReadTo(s, ofs, value)
    ensures ofs == |s| ==> OctalField(s) == None
    ensures ofs < |s| && !('0' <= s[ofs] <= '7') ==>
      (OctalField(s) == if ofs > 0 && (s[ofs] == ' ' || s[ofs] == '\0') then Some(value) else None)
  {
    var all := LeadingOctal(s);
    assert forall i | 0 <= i < |all| :: '0' <= s[i] <= '7';
    if ofs < |s| && !('0' <= s[ofs] <= '7') {
      assert |all| == ofs && all == s[..ofs];
    } else if ofs == |s| {
      assert all == s;
    }
  }

  /** parse_octal_field on h[lo..lo + size]; `unsigned long` has 32 bits. */
  method ParseOctalField(h: array<char>, lo: nat, size: nat) returns (r: Option<nat>)
    requires lo + size <= h.Length
    ensures r == OctalField(h[lo..lo + size])
  {
    ghost var s := h[lo..lo + size];
    var value: nat, ofs: nat := 0, 0;
    assert ReadTo(s, 0, 0);
    hide *;
    while ofs < size
      invariant 0 <= ofs <= size && ReadTo(s, ofs, value)
    {
      var c := h[lo + ofs];
      assert c == s[ofs];
      if '0' <= c <= '7' {
        ReadDigit(s, ofs, value);
        if value > (B32 - 1) / 8 { return None; }
        value := (c as int - '0' as int) + value * 8;  // below 2^32, by ReadTo
      } else {
        ReadEnd(s, ofs, value);
        return if (c == ' ' || c == '\0') && ofs > 0 then Some(value) else None;
      }
      ofs := ofs + 1;
    }
    ReadEnd(s, ofs, value);
    return None;
  }

  lemma OneMoreOctal(read: string, c: char)
    requires DigitsIn(read, 8) && '0' <= c <= '7'
    ensures DigitsIn(read + [c], 8)
    ensures Number(read + [c], 8) == Number(read, 8) * 8 + (c as int - '0' as int)
  {
    assert (read + [c])[..|read|] == read;
  }

  // ---- the header as a list of writes into a zeroed buffer ----

  datatype Write = Write(ofs: nat, text: string)

  predicate Fits(ws: seq<Write>) {
    forall w | w in ws :: w.ofs + |w.text| <= HEADER_SIZE
  }

  function PutAll(ws: seq<Write>): (r: string)
    requires Fits(ws)
    ensures |r| == HEADER_SIZE
  {
    if ws == [] then seq(HEADER_SIZE, _ => '\0')
    else var w := ws[|ws| - 1]; Put(PutAll(ws[..|ws| - 1]), w.ofs, w.text)
  }

  predicate Apart(w: Write, lo: nat, hi: nat) {
    hi <= w.ofs || w.ofs + |w.text| <= lo
  }

  /** A stretch that no write touches stays zero. */
  lemma {:induction false} Untouched(ws: seq<Write>, i: nat)
    requires Fits(ws) && i < HEADER_SIZE && forall w | w in ws :: Apart(w, i, i + 1)
    ensures PutAll(ws)[i] == '\0'
  {
    if ws != [] {
      var front, w := ws[..|ws| - 1], ws[|ws| - 1];
      assert w in ws && forall v | v in front :: v in ws;
      Untouched(front, i);
      PutAt(PutAll(front), w.ofs, w.text, i);
    }
  }

  /** A written field reads back if no later write touches it. */
  lemma {:induction false} ReadsBack(ws: seq<Write>, k: nat)
    requires Fits(ws) && k < |ws|
    requires var w := ws[k]; forall j | k < j < |ws| :: Apart(ws[j], w.ofs, w.ofs + |w.text|)
    ensures var w := ws[k];
      w.ofs + |w.text| <= HEADER_SIZE && PutAll(ws)[w.ofs..w.ofs + |w.text|] == w.text
  {
    var front, last, w := ws[..|ws| - 1], ws[|ws| - 1], ws[k];
    assert w in ws && last in ws && forall v | v in front :: v in ws;
    PutSlice(PutAll(front), last.ofs, last.text, w.ofs, w.ofs + |w.text|);
    if k < |ws| - 1 {
      ReadsBack(front, k);
    }
  }

  lemma {:induction false} PutAllBytes(ws: seq<Write>)
    requires Fits(ws) && forall w | w in ws :: IsBytes(w.text)
    ensures IsBytes(PutAll(ws))
  {
    if ws != [] {
      var front, w := ws[..|ws| - 1], ws[|ws| - 1];
      assert w in ws && forall v | v in front :: v in ws;
      PutAllBytes(front);
      forall c | c in PutAll(ws)
        ensures c as int < 256
      {
        assert c in PutAll(front) || c in w.text;
      }
    }
  }

  /** `%0<width>o`. */
  function Octal(value: nat, width: nat): string {
    Formatted(value, false, false, BASE_O, ZeroPad(width))
  }

  lemma OctalOf(value: nat, width: nat)
    requires 1 <= width <= 11 && value < Pow8(width) && value < B32
    ensures |Octal(value, width)| == width && DigitsIn(Octal(value, width), 8) && IsBytes(Octal(value, width))
    ensures OctalField(Octal(value, width) + "\0") == Some(value)
  {
    ZeroPaddedOctal(value, width);
    var s := Octal(value, width);
    LeadingOctalOf(s);
    assert (s + "\0")[..|s|] == s;
  }

  lemma {:induction false} LeadingOctalOf(s: string)
    requires DigitsIn(s, 8)
    ensures LeadingOctal(s + "\0") == s
  {
    if s != [] {
      LeadingOctalOf(s[1..]);
      assert (s + "\0")[1..] == s[1..] + "\0";
    }
  }

  const MTIME := 1136102400

  function ModeOf(kind: UstarType): nat { if kind == Regular then 0x1A4 else 0x1ED }

  /** What is written into field `k` of the header, in the order of the source, checksum excluded. */
  function FieldText(k: nat, name: string, kind: UstarType, size: int): string
    requires k < 11
  {
    if k == 0 then Terminated(name, NAME_SIZE)
    else if k == 1 then Terminated(Octal(ModeOf(kind), 7), 8)
    else if k <= 3 then Terminated("0000000", 8)
    else if k == 4 then Terminated(Octal(Wrap32(size), 11), 12)
    else if k == 5 then Terminated(Octal(MTIME, 11), 12)
    else if k == 6 then [TypeFlag(kind)]
    else if k == 7 then Terminated("ustar", 6)
    else if k == 8 then "00"
    else Terminated("root", 32)
  }

  function BodyWrites(name: string, kind: UstarType, size: int): (ws: seq<Write>)
    ensures |ws| == 11
  {
    seq(11, k requires 0 <= k < 11 => Write(FIELDS[k].0, FieldText(k, name, kind, size)))
  }

  const FIELDS := [(0, 100), (100, 8), (108, 8), (116, 8), (124, 12), (136, 12), (156, 1), (257, 6),
                   (263, 2), (297, 32), (265, 32), (148, 8)]

  /** Every write stays inside its own field. */
  ghost predicate InFields(ws: seq<Write>) {
    |ws| <= |FIELDS| &&
    forall k | 0 <= k < |ws| :: ws[k].ofs == FIELDS[k].0 && |ws[k].text| <= FIELDS[k].1
  }

  lemma FieldsAreApart(j: nat, k: nat)
    requires j < |FIELDS| && k < |FIELDS| && j != k
    ensures FIELDS[j].0 + FIELDS[j].1 <= FIELDS[k].0 || FIELDS[k].0 + FIELDS[k].1 <= FIELDS[j].0
    ensures FIELDS[j].0 + FIELDS[j].1 <= PREFIX_OFS
  {
  }

  lemma InFieldsFits(ws: seq<Write>)
    requires InFields(ws)
    ensures Fits(ws)
  {
    forall w | w in ws
      ensures w.ofs + |w.text| <= HEADER_SIZE
    {
      var k :| 0 <= k < |ws| && ws[k] == w;
      FieldsAreApart(k, if k == 0 then 1 else 0);
    }
  }

  lemma TerminatedLength(s: string, size: nat)
    requires size > 0
    ensures |Terminated(s, size)| <= size
  {
  }

  lemma FieldTextFits(k: nat, name: string, kind: UstarType, size: int)
    requires k < 11
    ensures |FieldText(k, name, kind, size)| <= FIELDS[k].1
  {
    hide Octal;
  }

  lemma BodyIsInFields(name: string, kind: UstarType, size: int)
    ensures InFields(BodyWrites(name, kind, size)) && Fits(BodyWrites(name, kind, size))
  {
    hide FieldText;
    forall k | 0 <= k < 11
      ensures |FieldText(k, name, kind, size)| <= FIELDS[k].1
    {
      FieldTextFits(k, name, kind, size);
    }
    InFieldsFits(BodyWrites(name, kind, size));
  }

  /** A field of a header reads back what was written into it. */
  lemma FieldReadsBack(ws: seq<Write>, k: nat)
    requires InFields(ws) && k < |ws|
    ensures Fits(ws) && ws[k].ofs + |ws[k].text| <= HEADER_SIZE
    ensures PutAll(ws)[ws[k].ofs..ws[k].ofs + |ws[k].text|] == ws[k].text
  {
    InFieldsFits(ws);
    forall j | k < j < |ws|
      ensures Apart(ws[j], ws[k].ofs, ws[k].ofs + |ws[k].text|)
    {
      FieldsAreApart(j, k);
    }
    ReadsBack(ws, k);
  }

  lemma OneMoreField(ws: seq<Write>, w: Write)
    requires InFields(ws) && |ws| < |FIELDS|
    requires w.ofs == FIELDS[|ws|].0 && |w.text| <= FIELDS[|ws|].1
    ensures InFields(ws + [w]) && Fits(ws + [w])
  {
    InFieldsFits(ws + [w]);
  }

  /** All writes of a header: the checksum of the fields comes last. */
  function HeaderWrites(name: string, kind: UstarType, size: int): (ws: seq<Write>)
    ensures InFields(ws) && Fits(ws)
  {
    BodyIsInFields(name, kind, size);
    var body := BodyWrites(name, kind, size);
    var chksum := Write(CHKSUM_OFS, Terminated(Octal(Checksum(PutAll(body)), 7), 8));
    TerminatedLength(Octal(Checksum(PutAll(body)), 7), 8);
    OneMoreField(body, chksum);
    body + [chksum]
  }

  /** The header that ustar_make_header composes for a stripped name. */
  function Header(name: string, kind: UstarType, size: int): (h: string)
    ensures |h| == HEADER_SIZE
  {
    PutAll(HeaderWrites(name, kind, size))
  }

  /** One more field write, tracked as such. */
  ghost predicate Holds(h: array<char>, ws: seq<Write>)
    reads h
  {
    Fits(ws) && h[..] == PutAll(ws)
  }

  lemma NextWrite(ws: seq<Write>, k: nat)
    requires k < |ws| && Fits(ws)
    ensures Fits(ws[..k]) && Fits(ws[..k + 1]) && ws[k].ofs + |ws[k].text| <= HEADER_SIZE
    ensures PutAll(ws[..k + 1]) == Put(PutAll(ws[..k]), ws[k].ofs, ws[k].text)
  {
    assert ws[k] in ws && ws[..k + 1][..k] == ws[..k];
  }

  method CopyField(h: array<char>, ofs: nat, size: nat, src: string, ghost ws: seq<Write>, ghost k: nat)
    requires h.Length == HEADER_SIZE && 0 < size && ofs + size <= HEADER_SIZE
    requires k < |ws| && Fits(ws) && ws[k] == Write(ofs, Terminated(src, size)) && Holds(h, ws[..k])
    modifies h
    ensures Holds(h, ws[..k + 1])
  {
    NextWrite(ws, k);
    var _ := Strlcpy(h, ofs, src, size);
  }

  /** snprintf (field, size, "%0<width>o", value). */
  method PrintField(h: array<char>, ofs: nat, size: nat, value: nat, width: nat, ghost ws: seq<Write>, ghost k: nat)
    requires h.Length == HEADER_SIZE && 0 < size && ofs + size <= HEADER_SIZE && IsUint32(value)
    requires k < |ws| && Fits(ws) && ws[k] == Write(ofs, Terminated(Octal(value, width), size)) && Holds(h, ws[..k])
    modifies h
    ensures Holds(h, ws[..k + 1])
  {
    NextWrite(ws, k);
    var output := FormatInteger(value, false, false, BASE_O, ZeroPad(width));
    var _ := Snprintf(h, ofs, size, output);
  }

  method SetChars(h: array<char>, ofs: nat, text: string, ghost ws: seq<Write>, ghost k: nat)
    requires h.Length == HEADER_SIZE && ofs + |text| <= HEADER_SIZE
    requires k < |ws| && Fits(ws) && ws[k] == Write(ofs, text) && Holds(h, ws[..k])
    modifies h
    ensures Holds(h, ws[..k + 1])
  {
    hide PutAll;
    NextWrite(ws, k);
    forall i | 0 <= i < |text| { h[ofs + i] := text[i]; }
  }

  /** ustar_make_header: fails exactly when the stripped name is longer than 99 characters, and
      then leaves the buffer alone. */
  method MakeHeader(fileName: string, kind: UstarType, size: int, h: array<char>) returns (ok: bool)
    requires h.Length == HEADER_SIZE && IsCString(fileName) && IsInt32(size)
    modifies h
    ensures ok <==> |Strip(fileName)| <= 99
    ensures h[..] == if ok then Header(Strip(fileName), kind, size) else old(h[..])
  {
    var name := StripAntisocialPrefixes(fileName);
    StripIsSafeAndIdempotent(fileName);
    if |name| > 99 { return false; }
    forall i | 0 <= i < HEADER_SIZE { h[i] := '\0'; }
    FillBody(h, name, kind, size);
    assert IsBytes(name);
    FillChecksum(h, name, kind, size);
    return true;
  }

  /** The last field of ustar_make_header. */
  method FillChecksum(h: array<char>, name: string, kind: UstarType, size: int)
    requires h.Length == HEADER_SIZE && IsBytes(name) && Holds(h, BodyWrites(name, kind, size))
    modifies h
    ensures h[..] == Header(name, kind, size)
  {
    hide PutAll, HeaderWrites, BodyWrites, Terminated, Octal, Fits, Checksum, IsBytes, Pow8, InFields;
    BodyBytes(name, kind, size);
    LastWrite(name, kind, size);
    assert h[..] == PutAll(BodyWrites(name, kind, size));
    var chksum := CalculateChksum(h);
    PrintField(h, CHKSUM_OFS, 8, chksum, 7, HeaderWrites(name, kind, size), 11);
  }

  lemma LastWrite(name: string, kind: UstarType, size: int)
    ensures var body := BodyWrites(name, kind, size);
      var ws := HeaderWrites(name, kind, size);
      && Fits(body) && Fits(ws) && |ws| == 12 && ws[..11] == body && ws[..12] == ws
      && ws[11] == Write(CHKSUM_OFS, Terminated(Octal(Checksum(PutAll(body)), 7), 8))
  {
    BodyIsInFields(name, kind, size);
  }

  lemma NothingWritten(ws: seq<Write>)
    ensures Fits(ws[..0]) && PutAll(ws[..0]) == seq(HEADER_SIZE, _ => '\0')
  {
    assert ws[..0] == [];
  }

  /** The fields of the header in turn, on a zeroed buffer. */
  method FillBody(h: array<char>, name: string, kind: UstarType, size: int)
    requires h.Length == HEADER_SIZE && h[..] == seq(HEADER_SIZE, _ => '\0') && IsInt32(size)
    modifies h
    ensures Holds(h, BodyWrites(name, kind, size))
  {
    hide Terminated, Octal, Fits, InFields, PutAll;
    ghost var ws := BodyWrites(name, kind, size);
    BodyIsInFields(name, kind, size);
    NothingWritten(ws);
    assert Holds(h, ws[..0]);
    hide Holds;
    CopyField(h, 0, NAME_SIZE, name, ws, 0);
    PrintField(h, MODE_OFS, 8, ModeOf(kind), 7, ws, 1);
    CopyField(h, UID_OFS, 8, "0000000", ws, 2);
    CopyField(h, GID_OFS, 8, "0000000", ws, 3);
    FillRest(h, name, kind, size);
  }

  method FillRest(h: array<char>, name: string, kind: UstarType, size: int)
    requires h.Length == HEADER_SIZE && Holds(h, BodyWrites(name, kind, size)[..4]) && IsInt32(size)
    modifies h
    ensures Holds(h, BodyWrites(name, kind, size))
  {
    ghost var ws := BodyWrites(name, kind, size);
    BodyIsInFields(name, kind, size);
    hide Holds, Terminated, Octal, Fits, InFields;
    PrintField(h, SIZE_OFS, 12, Wrap32(size), 11, ws, 4);
    PrintField(h, MTIME_OFS, 12, MTIME, 11, ws, 5);
    SetChars(h, TYPE_OFS, [TypeFlag(kind)], ws, 6);
    CopyField(h, MAGIC_OFS, 6, "ustar", ws, 7);
    SetChars(h, VERSION_OFS, "00", ws, 8);
    CopyField(h, GNAME_OFS, 32, "root", ws, 9);
    CopyField(h, UNAME_OFS, 32, "root", ws, 10);
    assert ws[..11] == ws;
  }

  lemma TerminatedBytes(s: string, size: nat)
    requires size > 0 && IsBytes(s)
    ensures IsBytes(Terminated(s, size))
  {
    var t := s[..Min(|s|, size - 1)];
    forall c | c in Terminated(s, size)
      ensures c as int < 256
    {
      assert c in t || c == '\0';
      if c in t { assert c in s; }
    }
  }

  lemma LiteralBytes()
    ensures IsBytes("0000000") && IsBytes("ustar") && IsBytes("root") && IsBytes("00") && IsBytes("0") && IsBytes("5")
  {
  }

  lemma FieldTextBytes(k: nat, name: string, kind: UstarType, size: int)
    requires k < 11 && IsBytes(name)
    ensures IsBytes(FieldText(k, name, kind, size))
  {
    LiteralBytes();
    assert Pow8(7) == 0x20_0000;
    assert Pow8(11) == 0x2_0000_0000;
    hide Octal, Terminated, IsBytes;
    if k == 0 { TerminatedBytes(name, NAME_SIZE); }
    else if k == 1 { OctalOf(ModeOf(kind), 7); TerminatedBytes(Octal(ModeOf(kind), 7), 8); }
    else if k <= 3 { TerminatedBytes("0000000", 8); }
    else if k == 4 { OctalOf(Wrap32(size), 11); TerminatedBytes(Octal(Wrap32(size), 11), 12); }
    else if k == 5 { OctalOf(MTIME, 11); TerminatedBytes(Octal(MTIME, 11), 12); }
    else if k == 7 { TerminatedBytes("ustar", 6); }
    else if k >= 9 { TerminatedBytes("root", 32); }
  }

  lemma BodyBytes(name: string, kind: UstarType, size: int)
    requires IsBytes(name)
    ensures Fits(BodyWrites(name, kind, size)) && IsBytes(PutAll(BodyWrites(name, kind, size)))
  {
    BodyIsInFields(name, kind, size);
    var ws := BodyWrites(name, kind, size);
    hide FieldText, IsBytes, PutAll, Fits;
    forall w | w in ws
      ensures IsBytes(w.text)
    {
      var k :| 0 <= k < |ws| && ws[k] == w;
      FieldTextBytes(k, name, kind, size);
    }
    PutAllBytes(ws);
  }

  // ---- ustar_parse_header ----

  /** The characters before the first null. */
  function UpToNull(s: string): string {
    if s == [] || s[0] == '\0' then [] else [s[0]] + UpToNull(s[1..])
  }

  function Name(h: string): string
    requires |h| == HEADER_SIZE
  {
    UpToNull(h[..NAME_SIZE])
  }

  predicate AllZeros(h: string) { forall i | 0 <= i < |h| :: h[i] == '\0' }

  /** What ustar_parse_header answers, check by check. */
  function ParsedHeader(h: string): Parsed
    requires |h| == HEADER_SIZE
  {
    var chksum := OctalField(h[CHKSUM_OFS..CHKSUM_END]);
    var size := OctalField(h[SIZE_OFS..MTIME_OFS]);
    if AllZeros(h) then Eof
    else if h[MAGIC_OFS..VERSION_OFS] != "ustar\0" then Error("not a ustar archive")
    else if h[VERSION_OFS] != '0' || h[VERSION_OFS + 1] != '0' then Error("invalid ustar version")
    else if chksum == None then Error("corrupt chksum field")
    else if chksum.value != Checksum(h) then Error("checksum mismatch")
    else if h[NAME_SIZE - 1] != '\0' || h[PREFIX_OFS] != '\0' then Error("file name too long")
    else if h[TYPE_OFS] == TypeFlag(Directory) then File(Strip(Name(h)), Directory, 0)
    else if h[TYPE_OFS] != TypeFlag(Regular) then Error("unimplemented file type")
    else if size == None then Error("corrupt file size field")
    else if size.value > INT_MAX then Error("file too large")
    else File(Strip(Name(h)), Regular, size.value)
  }

  /** A header is taken for a file exactly if it has the magic and version of ustar, its checksum is right, its name
      ends within its field and has no prefix, and it is a directory or a regular file with a size that an int can
      hold. */
  lemma AcceptedExactly(h: string, name: string, kind: UstarType, size: int)
    requires |h| == HEADER_SIZE
    ensures ParsedHeader(h) == File(name, kind, size) <==>
      && h[257..263] == "ustar\0" && h[263..265] == "00" && OctalField(h[148..156]) == Some(Checksum(h))
      && h[99] == '\0' && h[345] == '\0' && name == Strip(UpToNull(h[..100]))
      && (if kind == Directory then h[156] == '5' && size == 0
          else h[156] == '0' && 0 <= size <= 0x7FFF_FFFF && OctalField(h[124..136]) == Some(size))
  {
    hide OctalField, Checksum, Strip, UpToNull;
    assert h[257..263][0] == h[257];
    assert h[263..265] == [h[263], h[264]];
  }

  /** All zeros mean the end of the archive, and nothing else does; each message names a check that fails. */
  lemma RefusedForAReason(h: string)
    requires |h| == HEADER_SIZE
    ensures ParsedHeader(h) == Eof <==> forall i | 0 <= i < 512 :: h[i] == '\0'
    ensures ParsedHeader(h) == Error("not a ustar archive") ==> h[257..263] != "ustar\0"
    ensures ParsedHeader(h) == Error("invalid ustar version") ==> h[263..265] != "00"
    ensures ParsedHeader(h) == Error("corrupt chksum field") ==> OctalField(h[148..156]) == None
    ensures ParsedHeader(h) == Error("checksum mismatch") ==> OctalField(h[148..156]) != Some(Checksum(h))
    ensures ParsedHeader(h) == Error("file name too long") ==> h[99] != '\0' || h[345] != '\0'
    ensures ParsedHeader(h) == Error("unimplemented file type") ==> h[156] != '0' && h[156] != '5'
    ensures ParsedHeader(h) == Error("corrupt file size field") ==> h[156] == '0' && OctalField(h[124..136]) == None
    ensures ParsedHeader(h) == Error("file too large") ==>
      h[156] == '0' && OctalField(h[124..136]).Some? && OctalField(h[124..136]).value > 0x7FFF_FFFF
  {
    hide OctalField, Checksum, Strip, UpToNull;
    assert h[263..265] == [h[263], h[264]];
  }

  method IsAllZeros(h: array<char>) returns (zeros: bool)
    ensures zeros <==> AllZeros(h[..])
  {
    for i := 0 to h.Length
      invariant forall j | 0 <= j < i :: h[j] == '\0'
    {
      if h[i] != '\0' {
        assert h[..][i] != '\0';
        return false;
      }
    }
    return true;
  }

  method ReadName(h: array<char>) returns (name: string)
    requires h.Length == HEADER_SIZE
    ensures name == Name(h[..])
  {
    name := [];
    var i := 0;
    ghost var s := h[..][..NAME_SIZE];
    assert s[0..] == s;
    while i < NAME_SIZE && h[i] != '\0'
      invariant 0 <= i <= NAME_SIZE && name + UpToNull(s[i..]) == UpToNull(s)
    {
      assert s[i..][0] == h[i] && s[i..][1..] == s[i + 1..];
      assert name + ([h[i]] + UpToNull(s[i + 1..])) == name + [h[i]] + UpToNull(s[i + 1..]);
      name := name + [h[i]];
      i := i + 1;
    }
    assert i < NAME_SIZE ==> s[i..][0] == h[i];
    assert UpToNull(s[i..]) == [];
  }

  method ParseHeader(h: array<char>) returns (r: Parsed)
    requires h.Length == HEADER_SIZE && IsBytes(h[..])
    ensures r == ParsedHeader(h[..])
  {
    hide OctalField, Checksum, Strip, UpToNull, AllZeros, IsBytes, Number;
    var zeros := IsAllZeros(h);
    if zeros { return Eof; }
    assert h[MAGIC_OFS..VERSION_OFS] == h[..][MAGIC_OFS..VERSION_OFS];
    assert h[CHKSUM_OFS..CHKSUM_END] == h[..][CHKSUM_OFS..CHKSUM_END];
    assert h[SIZE_OFS..MTIME_OFS] == h[..][SIZE_OFS..MTIME_OFS];
    if h[MAGIC_OFS..VERSION_OFS] != "ustar\0" { return Error("not a ustar archive"); }
    if h[VERSION_OFS] != '0' || h[VERSION_OFS + 1] != '0' { return Error("invalid ustar version"); }
    var chksum := ParseOctalField(h, CHKSUM_OFS, CHKSUM_END - CHKSUM_OFS);
    if chksum == None { return Error("corrupt chksum field"); }
    var computed := CalculateChksum(h);
    if chksum.value != computed { return Error("checksum mismatch"); }
    if h[NAME_SIZE - 1] != '\0' || h[PREFIX_OFS] != '\0' { return Error("file name too long"); }
    if h[TYPE_OFS] != TypeFlag(Regular) && h[TYPE_OFS] != TypeFlag(Directory) {
      return Error("unimplemented file type");
    }
    var size := 0;
    if h[TYPE_OFS] == TypeFlag(Regular) {
      var field := ParseOctalField(h, SIZE_OFS, MTIME_OFS - SIZE_OFS);
      if field == None { return Error("corrupt file size field"); }
      if field.value > INT_MAX { return Error("file too large"); }
      size := field.value;
    }
    var name := ReadName(h);
    name := StripAntisocialPrefixes(name);
    return File(name, if h[TYPE_OFS] == TypeFlag(Regular) then Regular else Directory, size);
  }

  // ---- the round trip ----

  lemma {:induction false} UpToNullOf(name: string, rest: string)
    requires forall c | c in name :: c != '\0'
    requires rest != [] && rest[0] == '\0'
    ensures UpToNull(name + rest) == name
  {
    if name == [] {
      assert name + rest == rest;
    } else {
      assert name[0] in name && forall c | c in name[1..] :: c in name;
      UpToNullOf(name[1..], rest);
      assert (name + rest)[1..] == name[1..] + rest;
    }
  }

  /** Each field of a made header holds what was written into it. */
  lemma MadeField(k: nat, name: string, kind: UstarType, size: int)
    requires k < 11
    ensures FIELDS[k].0 + |FieldText(k, name, kind, size)| <= HEADER_SIZE
    ensures var text := FieldText(k, name, kind, size);
      Header(name, kind, size)[FIELDS[k].0..FIELDS[k].0 + |text|] == text
  {
    hide PutAll, FieldText, InFields;
    var ws := HeaderWrites(name, kind, size);
    LastWrite(name, kind, size);
    FieldReadsBack(ws, k);
    assert ws[k] == ws[..11][k];
  }

  /** The fixed characters and the type flag of a made header. */
  lemma MadeFields(name: string, kind: UstarType, size: int)
    requires |name| <= 99
    ensures var h := Header(name, kind, size);
      && |h| == HEADER_SIZE
      && h[MAGIC_OFS..VERSION_OFS] == "ustar\0" && h[VERSION_OFS..UNAME_OFS] == "00"
      && h[TYPE_OFS..TYPE_OFS + 1] == [TypeFlag(kind)]
      && h[..|name| + 1] == name + "\0"
  {
    hide Header, FieldText, Terminated, Octal, TypeFlag;
    FixedTexts(name, kind, size);
    MadeField(0, name, kind, size);
    MadeField(6, name, kind, size);
    MadeField(7, name, kind, size);
    MadeField(8, name, kind, size);
  }

  lemma FixedTexts(name: string, kind: UstarType, size: int)
    requires |name| <= 99
    ensures FieldText(0, name, kind, size) == name + "\0" && FieldText(6, name, kind, size) == [TypeFlag(kind)]
    ensures FieldText(7, name, kind, size) == "ustar\0" && FieldText(8, name, kind, size) == "00"
  {
    TerminatedWhole(name, NAME_SIZE);
    TerminatedWhole("ustar", 6);
  }

  lemma TerminatedWhole(s: string, size: nat)
    requires |s| < size
    ensures Terminated(s, size) == s + "\0"
  {
  }

  lemma SizeFits(size: int)
    requires IsInt32(size)
    ensures Wrap32(size) < B32 && Wrap32(size) < Pow8(11)
  {
    assert Pow8(11) == 0x2_0000_0000;
  }

  lemma MadeSizeField(name: string, kind: UstarType, size: int)
    requires IsInt32(size)
    ensures OctalField(Header(name, kind, size)[SIZE_OFS..MTIME_OFS]) == Some(Wrap32(size))
  {
    hide Octal, Header, OctalField, Pow8, Terminated, Wrap32, Number, DigitsIn, IsBytes;
    SizeFits(size);
    OctalOf(Wrap32(size), 11);
    TerminatedWhole(Octal(Wrap32(size), 11), 12);
    MadeField(4, name, kind, size);
  }

  /** The fields of a made header that ustar_parse_header does not look at: permissions, user and group 0 named root,
      a fixed time, and nulls wherever there is no field. */
  lemma MadeOtherFields(name: string, kind: UstarType, size: int)
    ensures var h := Header(name, kind, size);
      && OctalField(h[100..108]) == Some(if kind == Regular then 6 * 64 + 4 * 8 + 4 else 7 * 64 + 5 * 8 + 5)
      && h[108..116] == h[116..124] == "0000000\0" && OctalField(h[136..148]) == Some(1136102400)
      && h[265..270] == h[297..302] == "root\0"
      && (forall i | 157 <= i < 257 || 329 <= i < 512 :: h[i] == '\0')
  {
    hide Octal, Header, OctalField, Pow8, Terminated, Number, DigitsIn, IsBytes, FieldText;
    OtherTexts(name, kind, size);
    MadeField(1, name, kind, size);
    MadeField(2, name, kind, size);
    MadeField(3, name, kind, size);
    MadeField(5, name, kind, size);
    MadeField(9, name, kind, size);
    MadeField(10, name, kind, size);
    forall i | 157 <= i < 257 || 329 <= i < 512
      ensures Header(name, kind, size)[i] == '\0'
    {
      NoFieldAt(name, kind, size, i);
    }
  }

  lemma OtherTexts(name: string, kind: UstarType, size: int)
    ensures var mode := if kind == Regular then 6 * 64 + 4 * 8 + 4 else 7 * 64 + 5 * 8 + 5;
      |FieldText(1, name, kind, size)| == 8 && OctalField(FieldText(1, name, kind, size)) == Some(mode)
    ensures FieldText(2, name, kind, size) == FieldText(3, name, kind, size) == "0000000\0"
    ensures |FieldText(5, name, kind, size)| == 12 && OctalField(FieldText(5, name, kind, size)) == Some(1136102400)
    ensures FieldText(9, name, kind, size) == FieldText(10, name, kind, size) == "root\0"
  {
    hide *;
    ModeAndTime(kind);
    TextsAre(name, kind, size);
  }

  lemma ModeAndTime(kind: UstarType)
    ensures var mode := if kind == Regular then 6 * 64 + 4 * 8 + 4 else 7 * 64 + 5 * 8 + 5;
      |Octal(ModeOf(kind), 7)| == 7 && OctalField(Octal(ModeOf(kind), 7) + "\0") == Some(mode)
    ensures |Octal(MTIME, 11)| == 11 && OctalField(Octal(MTIME, 11) + "\0") == Some(1136102400)
  {
    assert Pow8(7) == 0x20_0000;
    assert Pow8(11) == 0x2_0000_0000;
    hide Octal, OctalField, Pow8, Number, DigitsIn, IsBytes;
    OctalOf(ModeOf(kind), 7);
    OctalOf(MTIME, 11);
  }

  lemma TextsAre(name: string, kind: UstarType, size: int)
    requires |Octal(ModeOf(kind), 7)| == 7 && |Octal(MTIME, 11)| == 11
    ensures FieldText(1, name, kind, size) == Octal(ModeOf(kind), 7) + "\0"
    ensures FieldText(2, name, kind, size) == FieldText(3, name, kind, size) == "0000000\0"
    ensures FieldText(5, name, kind, size) == Octal(MTIME, 11) + "\0"
    ensures FieldText(9, name, kind, size) == FieldText(10, name, kind, size) == "root\0"
  {
    hide Octal, Terminated;
    TerminatedWhole(Octal(ModeOf(kind), 7), 8);
    TerminatedWhole(Octal(MTIME, 11), 12);
    TerminatedWhole("0000000", 8);
    TerminatedWhole("root", 32);
  }

  lemma NoFieldAt(name: string, kind: UstarType, size: int, i: nat)
    requires 157 <= i < 257 || 329 <= i < 512
    ensures Header(name, kind, size)[i] == '\0'
  {
    var ws := HeaderWrites(name, kind, size);
    hide HeaderWrites, PutAll, Fits;
    forall w | w in ws
      ensures Apart(w, i, i + 1)
    {
      var k :| 0 <= k < |ws| && ws[k] == w;
      FieldsAreElsewhere(k, i);
    }
    Untouched(ws, i);
  }

  lemma FieldsAreElsewhere(k: nat, i: nat)
    requires k < |FIELDS| && (157 <= i < 257 || 329 <= i < 512)
    ensures FIELDS[k].0 + FIELDS[k].1 <= i || i < FIELDS[k].0
  {}

  lemma MadeChecksum(name: string, kind: UstarType, size: int)
    requires IsCString(name)
    ensures OctalField(Header(name, kind, size)[CHKSUM_OFS..CHKSUM_END]) == Some(Checksum(Header(name, kind, size)))
  {
    assert Pow8(7) == 0x20_0000;
    hide HeaderWrites, BodyWrites, PutAll, Octal, OctalField, IsBytes, InFields, Pow8, Number, DigitsIn;
    var ws, body := HeaderWrites(name, kind, size), BodyWrites(name, kind, size);
    LastWrite(name, kind, size);
    BodyBytes(name, kind, size);
    ChecksumBound(PutAll(body), HEADER_SIZE);
    var sum := Checksum(PutAll(body));
    OctalOf(sum, 7);
    assert Terminated(Octal(sum, 7), 8) == Octal(sum, 7) + "\0";
    NextWrite(ws, 11);
    ChecksumIgnoresItself(PutAll(body), ws[11].text, HEADER_SIZE);
    FieldReadsBack(ws, 11);
  }

  lemma PrefixIsEmpty(name: string, kind: UstarType, size: int)
    ensures Header(name, kind, size)[PREFIX_OFS] == '\0'
  {
    var ws := HeaderWrites(name, kind, size);
    hide HeaderWrites, PutAll, Fits;
    forall w | w in ws
      ensures Apart(w, PREFIX_OFS, PREFIX_OFS + 1)
    {
      var k :| 0 <= k < |ws| && ws[k] == w;
      FieldsAreApart(k, if k == 0 then 1 else 0);
    }
    Untouched(ws, PREFIX_OFS);
  }

  lemma NameIsTerminated(name: string, kind: UstarType, size: int)
    requires |name| <= 99
    ensures Header(name, kind, size)[NAME_SIZE - 1] == '\0'
  {
    if |name| == 99 {
      LongNameIsTerminated(name, kind, size);
    } else {
      NameWrite(name, kind, size);
      hide HeaderWrites, PutAll, Fits, InFields;
      NothingAt99(HeaderWrites(name, kind, size));
    }
  }

  lemma NothingAt99(ws: seq<Write>)
    requires InFields(ws) && Fits(ws) && |ws| > 0 && |ws[0].text| <= 99
    ensures PutAll(ws)[99] == '\0'
  {
    hide PutAll, Fits;
    forall w | w in ws
      ensures Apart(w, 99, 100)
    {
      var k :| 0 <= k < |ws| && ws[k] == w;
      FieldsStart(k);
    }
    Untouched(ws, 99);
  }

  lemma FieldsStart(k: nat)
    requires k < |FIELDS|
    ensures FIELDS[k].0 == 0 <==> k == 0
    ensures k > 0 ==> FIELDS[k].0 >= 100
  {}

  lemma LongNameIsTerminated(name: string, kind: UstarType, size: int)
    requires |name| == 99
    ensures Header(name, kind, size)[NAME_SIZE - 1] == '\0'
  {
    MadeFields(name, kind, size);
    hide *;
    assert Header(name, kind, size)[..|name| + 1][|name|] == (name + "\0")[|name|];
  }

  lemma NameWrite(name: string, kind: UstarType, size: int)
    requires |name| <= 99
    ensures |HeaderWrites(name, kind, size)| == 12 && HeaderWrites(name, kind, size)[0] == Write(0, name + "\0")
  {
    hide HeaderWrites, PutAll, Octal;
    var ws := HeaderWrites(name, kind, size);
    LastWrite(name, kind, size);
    TerminatedWhole(name, NAME_SIZE);
    assert ws[..11][0] == ws[0];
  }

  /** Making a header and parsing it gives back the stripped name, the type and the size (0 for a
      directory); a regular file of negative size is the only one that is refused. */
  lemma MakeThenParse(name: string, kind: UstarType, size: int)
    requires IsCString(name) && |name| <= 99 && Strip(name) == name && IsInt32(size)
    ensures ParsedHeader(Header(name, kind, size)) ==
      if kind == Directory then File(name, Directory, 0)
      else if size >= 0 then File(name, Regular, size)
      else Error("file too large")
  {
    var h := Header(name, kind, size);
    hide Header, OctalField, Checksum, Strip, UpToNull, ParsedHeader, Wrap32;
    UnsignedSize(size);
    MadeFields(name, kind, size);
    MadeSizeField(name, kind, size);
    MadeChecksum(name, kind, size);
    PrefixIsEmpty(name, kind, size);
    NameIsTerminated(name, kind, size);
    NameReadsBack(h, name);
    ParseOfFields(h, name, kind, Wrap32(size));
  }

  lemma UnsignedSize(size: int)
    requires IsInt32(size)
    ensures Wrap32(size) == if size >= 0 then size else size + B32
  {
  }

  lemma NameReadsBack(h: string, name: string)
    requires |h| == HEADER_SIZE && IsCString(name) && |name| <= 99 && h[..|name| + 1] == name + "\0"
    ensures Name(h) == name
  {
    var n := |name|;
    var rest := ['\0'] + h[n + 1..NAME_SIZE];
    assert h[..NAME_SIZE] == h[..n + 1] + h[n + 1..NAME_SIZE] == name + rest;
    UpToNullOf(name, rest);
  }

  lemma ParseOfFields(h: string, name: string, kind: UstarType, size: nat)
    requires |h| == HEADER_SIZE && Name(h) == name && Strip(name) == name
    requires h[MAGIC_OFS..VERSION_OFS] == "ustar\0" && h[VERSION_OFS..UNAME_OFS] == "00"
    requires h[TYPE_OFS..TYPE_OFS + 1] == [TypeFlag(kind)]
    requires OctalField(h[CHKSUM_OFS..CHKSUM_END]) == Some(Checksum(h))
    requires h[NAME_SIZE - 1] == '\0' && h[PREFIX_OFS] == '\0'
    requires OctalField(h[SIZE_OFS..MTIME_OFS]) == Some(size)
    ensures ParsedHeader(h) ==
      if kind == Directory then File(name, Directory, 0)
      else if size > INT_MAX then Error("file too large")
      else File(name, Regular, size)
  {
    hide OctalField, Checksum, Strip, UpToNull;
    assert h[VERSION_OFS] == h[VERSION_OFS..UNAME_OFS][0] && h[VERSION_OFS + 1] == h[VERSION_OFS..UNAME_OFS][1];
    assert h[TYPE_OFS] == h[TYPE_OFS..TYPE_OFS + 1][0];
    assert h[MAGIC_OFS] == h[MAGIC_OFS..VERSION_OFS][0];
    assert h[MAGIC_OFS] != '\0';
  }

  /** The two functions on one buffer: what is parsed is what was made. */
  method MakeAndParse(fileName: string, kind: UstarType, size: int, h: array<char>) returns (ok: bool, r: Parsed)
    requires h.Length == HEADER_SIZE && IsCString(fileName) && 0 <= size <= INT_MAX
    modifies h
    ensures ok <==> |Strip(fileName)| <= 99
    ensures ok ==> r == File(Strip(fileName), kind, if kind == Directory then 0 else size)
  {
    r := Eof;
    ok := MakeHeader(fileName, kind, size, h);
    StripIsSafeAndIdempotent(fileName);
    if ok {
      HeaderBytes(Strip(fileName), kind, size);
      MakeThenParse(Strip(fileName), kind, size);
      r := ParseHeader(h);
    }
  }

  lemma HeaderBytes(name: string, kind: UstarType, size: int)
    requires IsBytes(name)
    ensures IsBytes(Header(name, kind, size))
  {
    var ws, body := HeaderWrites(name, kind, size), BodyWrites(name, kind, size);
    LastWrite(name, kind, size);
    BodyBytes(name, kind, size);
    ChecksumBound(PutAll(body), HEADER_SIZE);
    assert Pow8(7) == 0x20_0000;
    OctalOf(Checksum(PutAll(body)), 7);
    TerminatedBytes(Octal(Checksum(PutAll(body)), 7), 8);
    NextWrite(ws, 11);
    hide Octal, Checksum, PutAll;
    forall c | c in Header(name, kind, size)
      ensures c as int < 256
    {
      assert c in PutAll(body) || c in ws[11].text;
    }
  }

  // ---- corruption ----

  lemma {:induction false} ChecksumOfChange(h: string, i: nat, c: char, n: nat)
    requires i < n <= |h| && !(CHKSUM_OFS <= i < CHKSUM_END)
    ensures ChecksumTo(h[i := c], n) == ChecksumTo(h, n) - h[i] as int + c as int
  {
    if i < n - 1 {
      ChecksumOfChange(h, i, c, n - 1);
    } else {
      ChecksumOfPrefix(h, h[i := c], n - 1);
    }
  }

  lemma {:induction false} ChecksumOfPrefix(h: string, g: string, n: nat)
    requires n <= |h| && n <= |g| && forall j | 0 <= j < n :: h[j] == g[j]
    ensures ChecksumTo(h, n) == ChecksumTo(g, n)
  {
    if n > 0 { ChecksumOfPrefix(h, g, n - 1); }
  }

  /** A changed character anywhere outside the checksum field never goes unnoticed. */
  lemma OneChangedCharacterIsDetected(h: string, i: nat, c: char)
    requires |h| == HEADER_SIZE && i < HEADER_SIZE && !(CHKSUM_OFS <= i < CHKSUM_END) && c != h[i]
    requires ParsedHeader(h).File?
    ensures !ParsedHeader(h[i := c]).File?
  {
    var g := h[i := c];
    ChecksumOfChange(h, i, c, HEADER_SIZE);
    assert g[CHKSUM_OFS..CHKSUM_END] == h[CHKSUM_OFS..CHKSUM_END];
    hide OctalField, Strip, UpToNull, ChecksumTo;
  }
}
