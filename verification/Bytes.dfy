/** Machine words and C strings as bytes in memory or in a file, lowest byte first. */
module Bytes {
  import opened Machine

  type Byte = b: int | 0 <= b < 256

  function Zeros(n: nat): (z: seq<Byte>)
    ensures |z| == n
  {
    seq(n, _ => 0)
  }

  /** The four bytes of a word, lowest first. */
  function Le(w: nat): (b: seq<Byte>)
    requires w < B32
    ensures |b| == 4
  {
    [w % 256, w / 256 % 256, w / 0x1_0000 % 256, w / 0x100_0000]
  }

  /** The word at an offset, as a program reads it. */
  function WordAt(c: seq<Byte>, k: nat): nat
    requires k + 4 <= |c|
  {
    var b0: int, b1: int, b2: int, b3: int := c[k], c[k + 1], c[k + 2], c[k + 3];
    b0 + 256 * b1 + 0x1_0000 * b2 + 0x100_0000 * b3
  }

  /** The string at an offset, as a program reads it. */
  function StringAt(c: seq<Byte>, k: nat): string
    decreases |c| - k
  {
    if k >= |c| || c[k] == 0 then [] else [c[k] as char] + StringAt(c, k + 1)
  }

  /** A string that C can hold. */
  predicate IsText(s: string) { forall i | 0 <= i < |s| :: 0 < s[i] as int < 256 }

  /** Its bytes, with the null that ends it. */
  function CBytes(s: string): (b: seq<Byte>)
    requires IsText(s)
    ensures |b| == |s| + 1
  {
    seq(|s|, i requires 0 <= i < |s| => s[i] as int) + [0]
  }

  lemma LeIsRead(w: nat, front: seq<Byte>, back: seq<Byte>)
    requires w < B32
    ensures WordAt(front + Le(w) + back, |front|) == w
  {
    var c := front + Le(w) + back;
    assert forall i | 0 <= i < 4 :: c[|front| + i] == Le(w)[i];
    BytesOfWord(w);
  }

  lemma BytesOfWord(w: nat)
    requires w < B32
    ensures w == w % 256 + 256 * (w / 256 % 256) + 0x1_0000 * (w / 0x1_0000 % 256) + 0x100_0000 * (w / 0x100_0000)
  {
    var a, b := w / 256, w / 0x1_0000;
    assert b == a / 256 && w / 0x100_0000 == b / 256;
    assert w == 256 * a + w % 256 && a == 256 * b + a % 256 && b == 256 * (b / 256) + b % 256;
  }

  lemma {:induction false} StringIsRead(c: seq<Byte>, k: nat, text: string)
    requires IsText(text) && k + |text| < |c| && c[k..k + |text| + 1] == CBytes(text)
    ensures StringAt(c, k) == text
    decreases |text|
  {
    var b := c[k..k + |text| + 1];
    assert b[0] == c[k];
    if text == [] {
      assert CBytes(text)[0] == 0;
    } else {
      assert CBytes(text)[0] == text[0] as int;
      assert c[k + 1..k + 1 + |text[1..]| + 1] == b[1..] == CBytes(text[1..]);
      StringIsRead(c, k + 1, text[1..]);
    }
  }
}
