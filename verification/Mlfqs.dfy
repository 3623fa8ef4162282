/** The arithmetic of the multi-level feedback queue scheduler (threads/thread.c). */
module Mlfqs {
  import opened Machine
  import opened Arith
  import opened Reals

  const PRI_MIN := 0
  const PRI_MAX := 63
  const TIMER_FREQ := 100

  /** mlfqs_update_recent_cpu: (2 load)/(2 load + 1) * recent_cpu + nice. */
  function UpdatedRecentCpu(loadAvg: int, recentCpu: int, nice: int): int
    requires SumRealInt(MultRealInt(loadAvg, 2), 1) != 0
  {
    var twice := MultRealInt(loadAvg, 2);
    var decay := DivReals(twice, SumRealInt(twice, 1));
    SumRealInt(MultReals(decay, recentCpu), nice)
  }

  /** mlfqs_calc_load_average with `ready` threads ready or running. */
  function LoadAverage(loadAvg: int, ready: int): int {
    SumReals(DivRealInt(MultRealInt(loadAvg, 59), 60), DivRealInt(IntToReal(ready), 60))
  }

  function Clamp(p: int): int {
    if p > PRI_MAX then PRI_MAX else if p < PRI_MIN then PRI_MIN else p
  }

  /** mlfqs_calc_priority. */
  function Priority(recentCpu: int, nice: int): (p: int)
    ensures PRI_MIN <= p <= PRI_MAX
  {
    var quarter := DivRealInt(recentCpu, 4);
    var p := Signed32(-FloorRealToInt(DiffRealInt(quarter, PRI_MAX - nice * 2)));
    Clamp(Signed32(p - 1))
  }

  // ---- priorities ----

  /** PRI_MAX - recent_cpu/4 - 2 nice of the comment, rounded down. */
  function Formula(recentCpu: int, nice: int): int {
    ((PRI_MAX - 2 * nice) * F - TruncDiv(recentCpu, 4)) / F
  }

  /** The computed priority is one less than the largest integer not above
      PRI_MAX - recent_cpu/4 - 2 nice, kept inside 0..63, with no 32-bit overflow on the way. */
  lemma PriorityFormula(recentCpu: int, nice: int)
    requires IsInt32(recentCpu) && -20 <= nice <= 20
    ensures Priority(recentCpu, nice) == Clamp(Formula(recentCpu, nice) - 1)
  {
    var x := TruncDiv(recentCpu, 4) - (PRI_MAX - nice * 2) * F;
    assert -B31 / 4 <= TruncDiv(recentCpu, 4) <= B31 / 4;
    assert IsInt32(x);
    if x <= 0 {
      assert -FloorRealToInt(x) == -x / F;
    } else {
      assert -x / F <= 0;
    }
  }

  /** More recent CPU use never raises a priority, and neither does a higher nice value. */
  lemma PriorityIsAntitone(r1: int, r2: int, nice1: int, nice2: int)
    requires IsInt32(r1) && IsInt32(r2) && r1 <= r2
    requires -20 <= nice1 <= nice2 <= 20
    ensures Priority(r2, nice2) <= Priority(r1, nice1)
  {
    PriorityFormula(r1, nice1);
    PriorityFormula(r2, nice2);
    var a := (PRI_MAX - 2 * nice1) * F - TruncDiv(r1, 4);
    var b := (PRI_MAX - 2 * nice2) * F - TruncDiv(r2, 4);
    assert b <= a;
    DivMono(b, a, F);
  }

  /** The computed priority is that of the comment exactly where the clamp hides the difference: at or below the
      lowest priority, or above the highest. */
  lemma MeetsFormulaExactly(recentCpu: int, nice: int)
    requires IsInt32(recentCpu) && -20 <= nice <= 20
    ensures var q := Formula(recentCpu, nice);
      Priority(recentCpu, nice) == Clamp(q) <==> q <= PRI_MIN || q > PRI_MAX
  {
    PriorityFormula(recentCpu, nice);
  }

  /** A fresh thread (no CPU use, nice 0) gets 62, not the 63 of the formula in the comment. */
  lemma FreshThreadPriority()
    ensures Priority(0, 0) == 62 && Formula(0, 0) == 63
  {
    PriorityFormula(0, 0);
  }

  // ---- load average and recent CPU over a run ----

  /** With at most n ready threads the load average stays in [0, n], and nothing overflows. */
  lemma LoadAverageBound(loadAvg: int, ready: int, n: nat)
    requires n <= 545 && 0 <= loadAvg <= n * F && 0 <= ready <= n
    ensures LoadAverage(loadAvg, ready) == loadAvg * 59 / 60 + ready * F / 60
    ensures 0 <= LoadAverage(loadAvg, ready) <= n * F
  {
  }

  /** The decay factor is below 2n/(2n+1). */
  lemma DecayBound(loadAvg: int, n: nat)
    requires n <= 545 && 0 <= loadAvg <= n * F
    ensures SumRealInt(MultRealInt(loadAvg, 2), 1) == 2 * loadAvg + F
    ensures var c := DivReals(MultRealInt(loadAvg, 2), 2 * loadAvg + F);
      0 <= c < F && c * (2 * n + 1) <= 2 * n * F && c == 2 * loadAvg * F / (2 * loadAvg + F)
  {
    DecayFactor(2 * loadAvg, F, n);
  }

  /** l * f / (l + f), for l up to 2 n f. */
  lemma DecayFactor(l: nat, f: nat, n: nat)
    requires f > 0 && l <= 2 * n * f
    ensures var c := l * f / (l + f); 0 <= c < f && c * (2 * n + 1) <= 2 * n * f
  {
    var y := l + f;
    var c := l * f / y;
    DivBounds(l * f, y);
    if c < 0 { MulLe(c, -1, y); }
    if c >= f { MulLe(f, c, y); }
    DecayRemainder(l, f, n, c);
  }

  lemma DecayRemainder(l: nat, f: nat, n: nat, c: nat)
    requires c < f && l <= 2 * n * f && (l + f) * c <= l * f
    ensures c * (2 * n + 1) <= 2 * n * f
  {
    var d, k := f - c, 2 * n;
    MulLe(l, k * f, d);
    assert d * l == l * f - l * c;
    assert d * (k * f) == f * (k * d);
    assert (l + f) * c == l * c + f * c;
    assert f * c <= f * (k * d);
    if k * d < c { MulLt(k * d, c, f); }
    assert k * d == k * f - k * c;
    assert c * (k + 1) == k * c + c;
  }

  /** Upper and lower bounds of recent_cpu with at most n ready threads, `sub` ticks into a second. */
  predicate RecentCpuInRange(recentCpu: int, n: nat, sub: nat) {
    -20 * (2 * n + 1) * F <= recentCpu <= (240 * n + 20 + sub) * F
  }

  /** The decay at the end of a second brings recent_cpu back into the range of the start of one. */
  lemma {:induction false} RecentCpuBound(loadAvg: int, recentCpu: int, nice: int, n: nat)
    requires n <= 545 && 0 <= loadAvg <= n * F && -20 <= nice <= 20
    requires RecentCpuInRange(recentCpu, n, TIMER_FREQ)
    ensures SumRealInt(MultRealInt(loadAvg, 2), 1) != 0
    ensures RecentCpuInRange(UpdatedRecentCpu(loadAvg, recentCpu, nice), n, 0)
    ensures var c := 2 * loadAvg * F / (2 * loadAvg + F);
      UpdatedRecentCpu(loadAvg, recentCpu, nice) == TruncDiv(c * recentCpu, F) + nice * F
  {
    DecayBound(loadAvg, n);
    var c := DivReals(MultRealInt(loadAvg, 2), 2 * loadAvg + F);
    var r := Abs(recentCpu);
    var k := 2 * n + 1;
    var top := if recentCpu < 0 then 20 else 120;
    assert r <= top * F * k;
    ScaledBound(c, r, k, top, n);
    assert c * recentCpu == if recentCpu < 0 then -(c * r) else c * r;
    assert IsInt64(c * recentCpu);
    assert TruncDiv(c * recentCpu, F) == if recentCpu < 0 then -(c * r / F) else c * r / F;
  }

  lemma ScaledBound(c: nat, r: nat, k: nat, top: nat, n: nat)
    requires c < F && k == 2 * n + 1 && n <= 545 && c * k <= 2 * n * F && top <= 120
    requires r <= top * F * k
    ensures 0 <= c * r <= (top * 2 * n * F) * F && c * r / F <= top * 2 * n * F
  {
    var m := top * F;
    MulMono(c, c, r, m * k);
    assert c * (m * k) == m * (c * k);
    MulLe(c * k, 2 * n * F, m);
    assert m * (2 * n * F) == (top * 2 * n * F) * F;
    MulLe(0, r, c);
    var bound := top * 2 * n * F;
    DivMono(c * r, bound * F, F);
    DivUnique(bound * F, F, bound);
  }
}
