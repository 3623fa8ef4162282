/** Bitmaps (lib/kernel/bitmap.c) as sequences of bits: the first-fit search and the range setter
    that the free map and the page pools rely on. */
module Bitmap {
  import opened Options

  predicate All(bits: seq<bool>, start: nat, cnt: nat, value: bool)
    requires start + cnt <= |bits|
  {
    forall k | start <= k < start + cnt :: bits[k] == value
  }

  /** bitmap_set_multiple. */
  function SetMultiple(bits: seq<bool>, start: nat, cnt: nat, value: bool): (r: seq<bool>)
    requires start + cnt <= |bits|
    ensures |r| == |bits|
    ensures forall k | 0 <= k < |bits| :: r[k] == if start <= k < start + cnt then value else bits[k]
  {
    seq(|bits|, k requires 0 <= k < |bits| => if start <= k < start + cnt then value else bits[k])
  }

  /** Some run of `cnt` clear bits starts at `start`. */
  predicate Fits(bits: seq<bool>, start: nat, cnt: nat) {
    start + cnt <= |bits| && All(bits, start, cnt, false)
  }

  /** bitmap_scan for clear bits: the lowest place where they fit, or none if they fit nowhere. */
  method Scan(bits: seq<bool>, cnt: nat) returns (found: Option<nat>)
    ensures found.Some? ==> Fits(bits, found.value, cnt) && forall s | 0 <= s < found.value :: !Fits(bits, s, cnt)
    ensures found.None? <==> forall s: nat :: !Fits(bits, s, cnt)
  {
    if cnt <= |bits| {
      var last := |bits| - cnt;
      var i := 0;
      while i <= last
        invariant i <= last + 1
        invariant forall s | 0 <= s < i :: !Fits(bits, s, cnt)
      {
        if forall k | i <= k < i + cnt :: !bits[k] {
          return Some(i);
        }
        i := i + 1;
      }
    }
    return None;
  }
}
