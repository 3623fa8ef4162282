/** Heap sort and binary search of lib/stdlib.c over an array of elements.  A comparison function
    returns a strcmp-type result. */
module Sorting {
  ghost predicate TotalPreorder<T(!new)>(cmp: (T, T) -> int) {
    && (forall a, b :: cmp(a, b) > 0 <==> cmp(b, a) < 0)
    && (forall a, b, c :: cmp(a, b) <= 0 && cmp(b, c) <= 0 ==> cmp(a, c) <= 0)
  }

  lemma Chain<T(!new)>(cmp: (T, T) -> int, a: T, b: T, c: T)
    requires TotalPreorder(cmp)
    ensures cmp(a, b) >= 0 && cmp(b, c) >= 0 ==> cmp(a, c) >= 0
    ensures cmp(a, b) >= 0 && cmp(b, c) > 0 ==> cmp(a, c) > 0
    ensures cmp(a, b) > 0 && cmp(b, c) >= 0 ==> cmp(a, c) > 0
    ensures cmp(a, a) == 0 && (cmp(a, b) > 0 <==> cmp(b, a) < 0) && (cmp(a, b) == 0 <==> cmp(b, a) == 0)
  {
    assert cmp(c, b) <= 0 && cmp(b, a) <= 0 ==> cmp(c, a) <= 0;
    assert cmp(a, c) <= 0 && cmp(c, b) <= 0 ==> cmp(a, b) <= 0;
    assert cmp(b, a) <= 0 && cmp(a, c) <= 0 ==> cmp(b, c) <= 0;
  }

  ghost predicate Ordered<T>(s: seq<T>, cmp: (T, T) -> int) {
    forall i, j | 0 <= i < j < |s| :: cmp(s[i], s[j]) <= 0
  }

  /** Element `k` of `s`, counting from 1. */
  function At<T>(s: seq<T>, k: nat): T
    requires 1 <= k <= |s|
  {
    s[k - 1]
  }

  /** Among the first `cnt` elements, every node whose parent is `lo` or later is at most its
      parent; `hole` is a parent about which nothing is said. */
  ghost predicate HeapBut<T>(s: seq<T>, lo: nat, cnt: nat, hole: nat, cmp: (T, T) -> int)
    requires 1 <= lo && cnt <= |s|
  {
    forall k | 2 * lo <= k <= cnt && k / 2 != hole :: cmp(At(s, k / 2), At(s, k)) >= 0
  }

  ghost predicate Heap<T>(s: seq<T>, lo: nat, cnt: nat, cmp: (T, T) -> int)
    requires 1 <= lo && cnt <= |s|
  {
    HeapBut(s, lo, cnt, 0, cmp)
  }

  /** While node `i` floats down, its children are already below its parent. */
  ghost predicate ParentAbove<T>(s: seq<T>, lo: nat, cnt: nat, i: nat, cmp: (T, T) -> int)
    requires 1 <= lo && cnt <= |s|
  {
    forall k | 2 * i <= k <= 2 * i + 1 && k <= cnt && lo <= i / 2 :: cmp(At(s, i / 2), At(s, k)) >= 0
  }

  function Swapped<T>(s: seq<T>, i: nat, j: nat): (r: seq<T>)
    requires 1 <= i <= |s| && 1 <= j <= |s|
    ensures |r| == |s|
  {
    s[i - 1 := At(s, j)][j - 1 := At(s, i)]
  }

  /** The first `n` elements are a rearrangement and the others are unchanged. */
  ghost predicate Rearranged<T>(s: seq<T>, r: seq<T>, n: nat)
    requires n <= |s|
  {
    |r| == |s| && multiset(r[..n]) == multiset(s[..n]) && r[n..] == s[n..]
  }

  lemma SwapRearranges<T>(s: seq<T>, i: nat, j: nat, n: nat)
    requires 1 <= i <= n && 1 <= j <= n <= |s|
    ensures Rearranged(s, Swapped(s, i, j), n)
  {
    var r := Swapped(s, i, j);
    assert r[..n] == s[..n][i - 1 := At(s, j)][j - 1 := At(s, i)];
    assert r[n..] == s[n..];
  }

  /** do_swap. */
  method Swap<T>(a: array<T>, i: nat, j: nat)
    requires 1 <= i <= a.Length && 1 <= j <= a.Length
    modifies a
    ensures a[..] == Swapped(old(a[..]), i, j)
  {
    a[i - 1], a[j - 1] := a[j - 1], a[i - 1];
  }

  /** `max` is node `i` or one of its children, whichever is largest. */
  ghost predicate LargestOf<T>(s: seq<T>, cnt: nat, i: nat, max: nat, cmp: (T, T) -> int)
    requires 1 <= i <= cnt <= |s|
  {
    && (max == i || (2 * i <= max <= 2 * i + 1 && max <= cnt && cmp(At(s, max), At(s, i)) > 0))
    && forall k | 2 * i <= k <= 2 * i + 1 && k <= cnt :: cmp(At(s, max), At(s, k)) >= 0
  }

  /** One step down: the larger child takes the place of its parent. */
  lemma SiftStep<T(!new)>(s: seq<T>, lo: nat, cnt: nat, i: nat, max: nat, cmp: (T, T) -> int)
    requires TotalPreorder(cmp) && 1 <= lo <= i <= cnt <= |s|
    requires HeapBut(s, lo, cnt, i, cmp) && ParentAbove(s, lo, cnt, i, cmp)
    requires max != i && LargestOf(s, cnt, i, max, cmp)
    ensures HeapBut(Swapped(s, i, max), lo, cnt, max, cmp)
    ensures ParentAbove(Swapped(s, i, max), lo, cnt, max, cmp)
  {
    var r := Swapped(s, i, max);
    forall k | 2 * lo <= k <= cnt && k / 2 != max
      ensures cmp(At(r, k / 2), At(r, k)) >= 0
    {
      SiftStepAt(s, lo, cnt, i, max, k, cmp);
    }
    forall k | 2 * max <= k <= 2 * max + 1 && k <= cnt && lo <= max / 2
      ensures cmp(At(r, max / 2), At(r, k)) >= 0
    {
      assert cmp(At(s, k / 2), At(s, k)) >= 0;
    }
  }

  lemma SiftStepAt<T(!new)>(s: seq<T>, lo: nat, cnt: nat, i: nat, max: nat, k: nat, cmp: (T, T) -> int)
    requires TotalPreorder(cmp) && 1 <= lo <= i <= cnt <= |s|
    requires HeapBut(s, lo, cnt, i, cmp) && ParentAbove(s, lo, cnt, i, cmp)
    requires max != i && LargestOf(s, cnt, i, max, cmp)
    requires 2 * lo <= k <= cnt && k / 2 != max
    ensures var r := Swapped(s, i, max); cmp(At(r, k / 2), At(r, k)) >= 0
  {
    if k == i {
      assert cmp(At(s, i / 2), At(s, max)) >= 0;
    } else if k / 2 != i {
      assert cmp(At(s, k / 2), At(s, k)) >= 0;
    }
  }

  lemma HoleIsFine<T>(s: seq<T>, lo: nat, cnt: nat, i: nat, cmp: (T, T) -> int)
    requires 1 <= lo <= i <= cnt <= |s| && HeapBut(s, lo, cnt, i, cmp) && LargestOf(s, cnt, i, i, cmp)
    ensures Heap(s, lo, cnt, cmp)
  {
  }

  lemma NewHole<T>(s: seq<T>, i: nat, cnt: nat, cmp: (T, T) -> int)
    requires 1 <= i <= cnt <= |s| && Heap(s, i + 1, cnt, cmp)
    ensures HeapBut(s, i, cnt, i, cmp) && ParentAbove(s, i, cnt, i, cmp)
  {
    assert forall k | 2 * i <= k <= cnt && k / 2 != i :: 2 * (i + 1) <= k;
  }

  lemma RearrangedTwice<T>(s: seq<T>, r: seq<T>, q: seq<T>, n: nat)
    requires n <= |s| && Rearranged(s, r, n) && Rearranged(r, q, n)
    ensures Rearranged(s, q, n)
  {
  }

  function Larger<T>(s: seq<T>, cnt: nat, max: nat, k: nat, cmp: (T, T) -> int): nat
    requires 1 <= max <= cnt <= |s| && 1 <= k
  {
    if k <= cnt && cmp(At(s, k), At(s, max)) > 0 then k else max
  }

  lemma LargerIsAbove<T(!new)>(s: seq<T>, cnt: nat, max: nat, k: nat, cmp: (T, T) -> int)
    requires TotalPreorder(cmp) && 1 <= max <= cnt <= |s| && 1 <= k
    ensures var r := Larger(s, cnt, max, k, cmp);
      && 1 <= r <= cnt && (r == max || (r == k && cmp(At(s, r), At(s, max)) > 0))
      && cmp(At(s, r), At(s, max)) >= 0 && (k <= cnt ==> cmp(At(s, r), At(s, k)) >= 0)
  {
    var x := At(s, max);
    Chain(cmp, x, x, x);
    if k <= cnt {
      var y := At(s, k);
      Chain(cmp, y, y, y);
      Chain(cmp, x, y, x);
    }
    hide TotalPreorder;
  }

  lemma LargestOfThree<T(!new)>(s: seq<T>, cnt: nat, i: nat, cmp: (T, T) -> int)
    requires TotalPreorder(cmp) && 1 <= i <= cnt <= |s|
    ensures LargestOf(s, cnt, i, Larger(s, cnt, Larger(s, cnt, i, 2 * i, cmp), 2 * i + 1, cmp), cmp)
  {
    hide TotalPreorder, Larger;
    LargerIsAbove(s, cnt, i, 2 * i, cmp);
    var m := Larger(s, cnt, i, 2 * i, cmp);
    LargerIsAbove(s, cnt, m, 2 * i + 1, cmp);
    var max := Larger(s, cnt, m, 2 * i + 1, cmp);
    Chain(cmp, At(s, max), At(s, m), At(s, i));
    if 2 * i <= cnt {
      Chain(cmp, At(s, max), At(s, m), At(s, 2 * i));
    }
  }

  /** The index of the largest element among node `i` and its children (if any). */
  method Largest<T(!new)>(a: array<T>, i: nat, cnt: nat, cmp: (T, T) -> int) returns (max: nat)
    requires TotalPreorder(cmp) && 1 <= i <= cnt <= a.Length
    ensures LargestOf(a[..], cnt, i, max, cmp)
  {
    LargestOfThree(a[..], cnt, i, cmp);
    hide TotalPreorder, LargestOf;
    var left := 2 * i;
    var right := 2 * i + 1;
    max := i;
    if left <= cnt && cmp(a[left - 1], a[max - 1]) > 0 { max := left; }
    if right <= cnt && cmp(a[right - 1], a[max - 1]) > 0 { max := right; }
  }

  /** heapify: floats element `i0` down, so that a heap below `i0` becomes a heap from `i0` on. */
  method Heapify<T(!new)>(a: array<T>, i0: nat, cnt: nat, cmp: (T, T) -> int)
    requires TotalPreorder(cmp) && 1 <= i0 <= cnt <= a.Length
    requires Heap(a[..], i0 + 1, cnt, cmp)
    modifies a
    ensures Heap(a[..], i0, cnt, cmp)
    ensures Rearranged(old(a[..]), a[..], cnt)
  {
    var i := i0;
    NewHole(a[..], i, cnt, cmp);
    while true
      invariant i0 <= i <= cnt
      invariant HeapBut(a[..], i0, cnt, i, cmp) && ParentAbove(a[..], i0, cnt, i, cmp)
      invariant Rearranged(old(a[..]), a[..], cnt)
      decreases cnt - i
    {
      var max := Largest(a, i, cnt, cmp);
      if max == i {
        HoleIsFine(a[..], i0, cnt, i, cmp);
        break;
      }
      SiftStep(a[..], i0, cnt, i, max, cmp);
      SwapRearranges(a[..], i, max, cnt);
      ghost var s := a[..];
      Swap(a, i, max);
      RearrangedTwice(old(a[..]), s, a[..], cnt);
      i := max;
    }
  }

  /** The root of a heap is its largest element. */
  lemma {:induction false} RootIsLargest<T(!new)>(s: seq<T>, cnt: nat, k: nat, cmp: (T, T) -> int)
    requires TotalPreorder(cmp) && 1 <= k <= cnt <= |s| && Heap(s, 1, cnt, cmp)
    ensures cmp(At(s, k), At(s, 1)) <= 0
  {
    if k > 1 {
      RootIsLargest(s, cnt, k / 2, cmp);
      assert cmp(At(s, k / 2), At(s, k)) >= 0;
    }
  }

  /** The last elements are in order, and no smaller than the others. */
  ghost predicate SortedFrom<T>(s: seq<T>, n: nat, cmp: (T, T) -> int)
    requires n <= |s|
  {
    forall i, j | 0 <= i < j < |s| && n <= j :: cmp(s[i], s[j]) <= 0
  }

  lemma ExtractMax<T(!new)>(s: seq<T>, i: nat, cmp: (T, T) -> int)
    requires TotalPreorder(cmp) && 2 <= i <= |s| && Heap(s, 1, i, cmp) && SortedFrom(s, i, cmp)
    ensures SortedFrom(Swapped(s, 1, i), i - 1, cmp)
    ensures Heap(Swapped(s, 1, i), 2, i - 1, cmp)
    ensures multiset(Swapped(s, 1, i)) == multiset(s)
  {
    SwapRearranges(s, 1, i, |s|);
    var r := Swapped(s, 1, i);
    assert r[..|s|] == r && s[..|s|] == s;
    hide TotalPreorder;
    forall j, k | 0 <= j < k < |r| && i - 1 <= k
      ensures cmp(r[j], r[k]) <= 0
    {
      if k == i - 1 {
        var j' := if j == 0 then i else j + 1;
        RootIsLargest(s, i, j', cmp);
        assert r[k] == At(s, 1) && r[j] == At(s, j');
      } else {
        var j' := if j == 0 then i - 1 else if j == i - 1 then 0 else j;
        assert r[k] == s[k] && r[j] == s[j'];
      }
    }
  }

  lemma RearrangingKeepsSorted<T(!new)>(s: seq<T>, r: seq<T>, n: nat, cmp: (T, T) -> int)
    requires n <= |s| && SortedFrom(s, n, cmp) && Rearranged(s, r, n)
    ensures SortedFrom(r, n, cmp) && multiset(r) == multiset(s)
  {
    forall i, j | 0 <= i < j < |r| && n <= j
      ensures cmp(r[i], r[j]) <= 0
    {
      assert r[j] == r[n..][j - n] == s[j];
      if i < n {
        assert r[i] in multiset(r[..n]);
        assert r[i] in s[..n];
        var k :| 0 <= k < n && s[k] == r[i];
      } else {
        assert r[i] == r[n..][i - n] == s[i];
      }
    }
    assert r == r[..n] + r[n..] && s == s[..n] + s[n..];
  }

  /** The first loop of sort. */
  method BuildHeap<T(!new)>(a: array<T>, cmp: (T, T) -> int)
    requires TotalPreorder(cmp)
    modifies a
    ensures Heap(a[..], 1, a.Length, cmp)
    ensures multiset(a[..]) == multiset(old(a[..]))
  {
    var i := a.Length / 2;
    while i > 0
      invariant 0 <= i <= a.Length / 2
      invariant Heap(a[..], i + 1, a.Length, cmp)
      invariant multiset(a[..]) == multiset(old(a[..]))
    {
      ghost var s := a[..];
      Heapify(a, i, a.Length, cmp);
      assert s[..a.Length] == s && a[..][..a.Length] == a[..];
      i := i - 1;
    }
  }

  /** sort: the array ends up in order and holds the same elements. */
  method Sort<T(!new)>(a: array<T>, cmp: (T, T) -> int)
    requires TotalPreorder(cmp)
    modifies a
    ensures Ordered(a[..], cmp)
    ensures multiset(a[..]) == multiset(old(a[..]))
  {
    BuildHeap(a, cmp);
    var i := a.Length;
    while i > 1
      invariant 0 <= i <= a.Length
      invariant Heap(a[..], 1, i, cmp) && SortedFrom(a[..], i, cmp)
      invariant multiset(a[..]) == multiset(old(a[..]))
    {
      hide *;
      ExtractMax(a[..], i, cmp);
      Swap(a, 1, i);
      ghost var s := a[..];
      Heapify(a, 1, i - 1, cmp);
      RearrangingKeepsSorted(s, a[..], i - 1, cmp);
      i := i - 1;
    }
  }

  /** binary_search: finds a match exactly when there is one. */
  method BinarySearch<T(!new)>(key: T, a: array<T>, cmp: (T, T) -> int) returns (index: int)
    requires TotalPreorder(cmp) && Ordered(a[..], cmp)
    ensures -1 <= index < a.Length
    ensures index >= 0 ==> cmp(key, a[index]) == 0
    ensures index >= 0 <==> exists k | 0 <= k < a.Length :: cmp(key, a[k]) == 0
  {
    var first, last := 0, a.Length;
    while first < last
      invariant 0 <= first <= last <= a.Length
      invariant forall k | 0 <= k < a.Length && cmp(key, a[k]) == 0 :: first <= k < last
    {
      var range := last - first;
      var middle := first + range / 2;
      var c := cmp(key, a[middle]);
      assert a[..][middle] == a[middle];
      if c < 0 {
        assert forall k | middle <= k < a.Length :: cmp(a[..][middle], a[..][k]) <= 0;
        last := middle;
      } else if c > 0 {
        assert forall k | 0 <= k <= middle :: cmp(a[..][k], a[..][middle]) <= 0;
        first := middle + 1;
      } else {
        return middle;
      }
    }
    return -1;
  }
}
