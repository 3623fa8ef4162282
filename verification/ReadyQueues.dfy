/** The ready queues of the MLFQS scheduler as values: queue i holds the ready threads that were
    put there when their priority was i. */
module ReadyQueues {
  type Queues<T> = seq<seq<T>>

  function PriorityOf<T(==)>(prio: map<T, int>, t: T): int {
    if t in prio then prio[t] else 0
  }

  /** The threads of `q` whose priority is `p`, in order. */
  function WithPriority<T(==)>(q: seq<T>, prio: map<T, int>, p: int): seq<T> {
    if q == [] then []
    else WithPriority(q[..|q| - 1], prio, p) +
         if PriorityOf(prio, q[|q| - 1]) == p then [q[|q| - 1]] else []
  }

  /** The threads of priority `p` found in queues 0..i other than queue p, queue by queue. */
  function Strays<T(==)>(qs: Queues<T>, prio: map<T, int>, p: int, i: nat): seq<T>
    requires i <= |qs|
  {
    if i == 0 then []
    else Strays(qs, prio, p, i - 1) + if i - 1 == p then [] else WithPriority(qs[i - 1], prio, p)
  }

  /** Each thread moved to the queue of its priority: those already there keep their place, the
      others follow in the order in which the queues are scanned. */
  function Reordered<T(==)>(qs: Queues<T>, prio: map<T, int>): (r: Queues<T>)
    ensures |r| == |qs|
  {
    seq(|qs|, p requires 0 <= p < |qs| => WithPriority(qs[p], prio, p) + Strays(qs, prio, p, |qs|))
  }

  function Occurrences<T(==)>(q: seq<T>, t: T): nat { multiset(q)[t] }

  /** How often `t` occurs in queues 0..i. */
  function CountBelow<T(==)>(qs: Queues<T>, i: nat, t: T): nat
    requires i <= |qs|
  {
    if i == 0 then 0 else CountBelow(qs, i - 1, t) + Occurrences(qs[i - 1], t)
  }

  /** How often `t` is queued. */
  function Count<T(==)>(qs: Queues<T>, t: T): nat { CountBelow(qs, |qs|, t) }

  ghost predicate InPlace<T>(qs: Queues<T>, prio: map<T, int>) {
    forall i, t | 0 <= i < |qs| && t in qs[i] :: PriorityOf(prio, t) == i
  }

  function Enqueue<T>(qs: Queues<T>, p: int, t: T): Queues<T>
    requires 0 <= p < |qs|
  {
    qs[p := qs[p] + [t]]
  }

  /** The index of the highest nonempty queue below `n`, or -1. */
  function Top<T>(qs: Queues<T>, n: nat): (i: int)
    requires n <= |qs|
    ensures -1 <= i < n
    ensures i >= 0 ==> qs[i] != []
    ensures forall j | i < j < n :: qs[j] == []
  {
    if n == 0 then -1 else if qs[n - 1] != [] then n - 1 else Top(qs, n - 1)
  }

  /** The thread to run next and the queues without it. */
  function Pick<T>(qs: Queues<T>, idle: T): (T, Queues<T>) {
    var i := Top(qs, |qs|);
    if i < 0 then (idle, qs) else (qs[i][0], qs[i := qs[i][1..]])
  }

  // ---- counting ----

  lemma WithPriorityAppend<T>(a: seq<T>, b: seq<T>, prio: map<T, int>, p: int)
    ensures WithPriority(a + b, prio, p) == WithPriority(a, prio, p) + WithPriority(b, prio, p)
  {
    if b == [] {
      assert a + b == a;
    } else {
      var c := a + b;
      assert c[..|c| - 1] == a + b[..|b| - 1];
      WithPriorityAppend(a, b[..|b| - 1], prio, p);
    }
  }

  lemma {:induction false} WithPriorityCount<T>(q: seq<T>, prio: map<T, int>, p: int, t: T)
    ensures Occurrences(WithPriority(q, prio, p), t) ==
      if PriorityOf(prio, t) == p then Occurrences(q, t) else 0
  {
    if q != [] {
      var front, last := q[..|q| - 1], q[|q| - 1];
      WithPriorityCount(front, prio, p, t);
      assert WithPriority(q, prio, p) ==
        WithPriority(front, prio, p) + if PriorityOf(prio, last) == p then [last] else [];
      hide WithPriority, PriorityOf;
      assert q == front + [last];
      assert multiset(q) == multiset(front) + multiset{last};
    }
  }

  lemma WithPriorityAll<T>(q: seq<T>, prio: map<T, int>, p: int)
    requires forall t | t in q :: PriorityOf(prio, t) == p
    ensures WithPriority(q, prio, p) == q
  {
  }

  lemma WithPriorityNone<T>(q: seq<T>, prio: map<T, int>, p: int)
    requires forall t | t in q :: PriorityOf(prio, t) != p
    ensures WithPriority(q, prio, p) == []
  {
  }

  lemma StraysCount<T>(qs: Queues<T>, prio: map<T, int>, p: int, i: nat, t: T)
    requires i <= |qs|
    ensures Occurrences(Strays(qs, prio, p, i), t) ==
      if PriorityOf(prio, t) != p then 0
      else CountBelow(qs, i, t) - if 0 <= p < i then Occurrences(qs[p], t) else 0
  {
    if i != 0 {
      StraysCount(qs, prio, p, i - 1, t);
      WithPriorityCount(qs[i - 1], prio, p, t);
    }
  }

  lemma ReorderedCount<T>(qs: Queues<T>, prio: map<T, int>, p: int, t: T)
    requires 0 <= p < |qs|
    ensures Occurrences(Reordered(qs, prio)[p], t) == if PriorityOf(prio, t) == p then Count(qs, t) else 0
  {
    WithPriorityCount(qs[p], prio, p, t);
    StraysCount(qs, prio, p, |qs|, t);
  }

  /** A thread that can only sit in queue `p` is counted there. */
  lemma {:induction false} CountInPlace<T>(qs: Queues<T>, p: int, i: nat, t: T)
    requires i <= |qs|
    requires forall j | 0 <= j < i && j != p :: Occurrences(qs[j], t) == 0
    ensures CountBelow(qs, i, t) == if 0 <= p < i then Occurrences(qs[p], t) else 0
  {
    if i != 0 {
      CountInPlace(qs, p, i - 1, t);
    }
  }

  lemma {:induction false} CountUpdate<T>(qs: Queues<T>, p: nat, q: seq<T>, i: nat, t: T)
    requires p < |qs| && i <= |qs|
    ensures CountBelow(qs[p := q], i, t) ==
      CountBelow(qs, i, t) + if p < i then Occurrences(q, t) - Occurrences(qs[p], t) else 0
  {
    if i != 0 {
      CountUpdate(qs, p, q, i - 1, t);
    }
  }

  lemma {:induction false} CountPositive<T>(qs: Queues<T>, i: nat, t: T)
    requires i <= |qs|
    ensures CountBelow(qs, i, t) > 0 <==> exists j | 0 <= j < i :: t in qs[j]
  {
    if i != 0 {
      CountPositive(qs, i - 1, t);
      assert Occurrences(qs[i - 1], t) > 0 <==> t in qs[i - 1];
    }
  }

  /** Reordering keeps exactly the queued threads and puts each in the queue of its priority. */
  lemma ReorderedIsAPermutationInPlace<T>(qs: Queues<T>, prio: map<T, int>)
    requires Known(qs, prio)
    ensures InPlace(Reordered(qs, prio), prio)
    ensures forall t :: Count(Reordered(qs, prio), t) == Count(qs, t)
  {
    var r := Reordered(qs, prio);
    forall p, t | 0 <= p < |r| && t in r[p]
      ensures PriorityOf(prio, t) == p
    {
      ReorderedCount(qs, prio, p, t);
      assert Occurrences(r[p], t) > 0;
    }
    forall t
      ensures Count(r, t) == Count(qs, t)
    {
      var p := PriorityOf(prio, t);
      forall j | 0 <= j < |qs|
        ensures Occurrences(r[j], t) == if p == j then Count(qs, t) else 0
      {
        ReorderedCount(qs, prio, j, t);
      }
      CountInPlace(r, p, |r|, t);
      CountPositive(qs, |qs|, t);
    }
  }

  lemma TopIs<T>(qs: Queues<T>, n: nat, i: int)
    requires n <= |qs| && -1 <= i < n
    requires i >= 0 ==> qs[i] != []
    requires forall j | i < j < n :: qs[j] == []
    ensures Top(qs, n) == i
  {
  }

  /** Exactly the waiting threads are queued, each once and in the queue of its priority. */
  ghost predicate HoldsWaiters<T>(qs: Queues<T>, waiting: set<T>, prio: map<T, int>) {
    && (forall t | t in waiting :: Count(qs, t) == 1)
    && (forall i, t | 0 <= i < |qs| && t in qs[i] :: t in waiting)
    && InPlace(qs, prio)
  }

  lemma EnqueueHoldsWaiters<T>(qs: Queues<T>, waiting: set<T>, prio: map<T, int>, t: T)
    requires HoldsWaiters(qs, waiting, prio) && t !in waiting && 0 <= PriorityOf(prio, t) < |qs|
    ensures HoldsWaiters(Enqueue(qs, PriorityOf(prio, t), t), waiting + {t}, prio)
  {
    var p := PriorityOf(prio, t);
    var r := Enqueue(qs, p, t);
    CountPositive(qs, |qs|, t);
    forall u | u in waiting + {t}
      ensures Count(r, u) == 1
    {
      CountUpdate(qs, p, qs[p] + [t], |qs|, u);
    }
    forall i, u | 0 <= i < |r| && u in r[i]
      ensures u in waiting + {t} && PriorityOf(prio, u) == i
    {
      assert u in qs[i] || (i == p && u == t);
    }
  }

  /** The picked thread is the idle thread exactly when nothing waits; otherwise it is a waiting
      thread of the highest priority, and the others stay queued. */
  lemma PickIsMaximal<T>(qs: Queues<T>, waiting: set<T>, prio: map<T, int>, idle: T)
    requires HoldsWaiters(qs, waiting, prio) && idle !in waiting
    ensures var (t, rest) := Pick(qs, idle);
      && (t == idle <==> waiting == {})
      && (t != idle ==> t in waiting)
      && (forall u | u in waiting :: PriorityOf(prio, u) <= PriorityOf(prio, t))
      && HoldsWaiters(rest, waiting - {t}, prio)
  {
    var i := Top(qs, |qs|);
    var (t, rest) := Pick(qs, idle);
    forall u | u in waiting
      ensures i >= 0 && PriorityOf(prio, u) <= i
    {
      CountPositive(qs, |qs|, u);
    }
    if i >= 0 {
      assert qs[i] == [t] + rest[i];
      assert t in qs[i] && t in waiting;
      forall u | u in waiting
        ensures Count(rest, u) == if u == t then 0 else 1
      {
        CountUpdate(qs, i, rest[i], |qs|, u);
      }
      forall j, u | 0 <= j < |rest| && u in rest[j]
        ensures u in waiting - {t} && PriorityOf(prio, u) == j
      {
        assert u in qs[j];
        CountPositive(rest, |rest|, u);
        assert Count(rest, u) > 0;
      }
    } else {
      assert waiting == {};
    }
  }

  /** The number of queued threads in the first `i` queues. */
  function SizeBelow<T>(qs: Queues<T>, i: nat): nat
    requires i <= |qs|
  {
    if i == 0 then 0 else SizeBelow(qs, i - 1) + |qs[i - 1]|
  }

  lemma {:induction false} SizeOfSet<T>(q: seq<T>, s: set<T>)
    requires forall t :: t in s <==> t in q
    requires forall t | t in q :: Occurrences(q, t) == 1
    ensures |q| == |s|
    decreases |q|
  {
    if q != [] {
      var front, last := q[..|q| - 1], q[|q| - 1];
      assert q == front + [last];
      forall t
        ensures Occurrences(q, t) == Occurrences(front, t) + if t == last then 1 else 0
      {
        assert multiset(q) == multiset(front) + multiset{last};
      }
      assert last in q && Occurrences(front, last) == 0;
      forall t | t in front
        ensures Occurrences(front, t) == 1 && t in q && t != last
      {
        assert Occurrences(front, t) > 0;
      }
      SizeOfSet(front, s - {last});
    }
  }

  lemma EachIsInPlace<T>(qs: Queues<T>, waiting: set<T>, prio: map<T, int>)
    requires HoldsWaiters(qs, waiting, prio)
    ensures forall t | t in waiting :: 0 <= PriorityOf(prio, t) < |qs| && t in qs[PriorityOf(prio, t)]
    ensures forall i, t | 0 <= i < |qs| && t in qs[i] ::
      t in waiting && PriorityOf(prio, t) == i && Occurrences(qs[i], t) == 1
  {
    forall t | t in waiting
      ensures 0 <= PriorityOf(prio, t) < |qs| && t in qs[PriorityOf(prio, t)]
      ensures Occurrences(qs[PriorityOf(prio, t)], t) == 1
    {
      CountPositive(qs, |qs|, t);
      CountInPlace(qs, PriorityOf(prio, t), |qs|, t);
    }
  }

  ghost function Lower<T>(waiting: set<T>, prio: map<T, int>, p: int): set<T> {
    set t | t in waiting && PriorityOf(prio, t) < p
  }

  lemma SizeOfQueue<T>(qs: Queues<T>, waiting: set<T>, prio: map<T, int>, i: nat)
    requires HoldsWaiters(qs, waiting, prio) && i < |qs|
    ensures |Lower(waiting, prio, i + 1)| == |Lower(waiting, prio, i)| + |qs[i]|
  {
    EachIsInPlace(qs, waiting, prio);
    hide HoldsWaiters, Occurrences;
    var here := set t | t in waiting && PriorityOf(prio, t) == i;
    SizeOfSet(qs[i], here);
    assert Lower(waiting, prio, i + 1) == Lower(waiting, prio, i) + here;
  }

  lemma {:induction false} SizeBelowIs<T>(qs: Queues<T>, waiting: set<T>, prio: map<T, int>, i: nat)
    requires HoldsWaiters(qs, waiting, prio) && i <= |qs|
    ensures SizeBelow(qs, i) == |Lower(waiting, prio, i)|
    decreases i
  {
    if i == 0 {
      EachIsInPlace(qs, waiting, prio);
      assert Lower(waiting, prio, 0) == {};
    } else {
      hide HoldsWaiters, Lower;
      SizeBelowIs(qs, waiting, prio, i - 1);
      SizeOfQueue(qs, waiting, prio, i - 1);
    }
  }

  /** The sizes of the queues add up to the number of waiting threads. */
  lemma SizeIsTheWaiting<T>(qs: Queues<T>, waiting: set<T>, prio: map<T, int>)
    requires HoldsWaiters(qs, waiting, prio)
    ensures SizeBelow(qs, |qs|) == |waiting|
  {
    EachIsInPlace(qs, waiting, prio);
    SizeBelowIs(qs, waiting, prio, |qs|);
    hide HoldsWaiters;
    assert Lower(waiting, prio, |qs|) == waiting;
  }

  // ---- the order in which threads run ----

  /** What happens to the queues between two reorderings: a thread becomes ready, or the next one is picked. */
  datatype Event<T> = Readied(t: T, p: nat) | Picked

  function Happen<T>(qs: Queues<T>, e: Event<T>, idle: T): Queues<T>
    requires e.Readied? ==> e.p < |qs|
  {
    match e
    case Readied(t, p) => Enqueue(qs, p, t)
    case Picked => Pick(qs, idle).1
  }

  ghost predicate IsHistory<T>(qs: Queues<T>, es: seq<Event<T>>, end: Queues<T>, idle: T)
    decreases |es|
  {
    if es == [] then end == qs
    else (es[0].Readied? ==> es[0].p < |qs|) && IsHistory(Happen(qs, es[0], idle), es[1..], end, idle)
  }

  function Picks<T>(es: seq<Event<T>>): nat {
    if es == [] then 0 else (if es[0].Picked? then 1 else 0) + Picks(es[1..])
  }

  /** Round robin: while queue p is the highest one in use and nothing becomes ready above it, its k-th thread
      moves up by one place with each pick, whatever else becomes ready, and runs at the pick after k others. */
  lemma {:induction false} ThreadsRunInOrder<T>(qs: Queues<T>, es: seq<Event<T>>, end: Queues<T>, idle: T, p: nat,
                                              k: nat)
    requires p < |qs| && k < |qs[p]| && (forall j | p < j < |qs| :: qs[j] == [])
    requires IsHistory(qs, es, end, idle) && (forall e | e in es && e.Readied? :: e.p <= p) && Picks(es) <= k
    ensures |end| == |qs| && |end[p]| > k - Picks(es) && end[p][k - Picks(es)] == qs[p][k]
    ensures forall j | p < j < |end| :: end[j] == []
    ensures Picks(es) == k ==> Pick(end, idle).0 == qs[p][k]
    decreases |es|
  {
    if es == [] {
      TopIs(qs, |qs|, p);
    } else {
      TopIs(qs, |qs|, p);
      var next := Happen(qs, es[0], idle);
      ThreadsRunInOrder(next, es[1..], end, idle, p, if es[0].Picked? then k - 1 else k);
    }
  }

  /** The thread that gives way runs again at once exactly if every waiting thread has a lower priority. */
  lemma YieldsToEquals<T>(qs: Queues<T>, waiting: set<T>, prio: map<T, int>, t: T, idle: T)
    requires HoldsWaiters(qs, waiting, prio) && t !in waiting && 0 <= PriorityOf(prio, t) < |qs|
    ensures Pick(Enqueue(qs, PriorityOf(prio, t), t), idle).0 == t <==>
      forall u | u in waiting :: PriorityOf(prio, u) < PriorityOf(prio, t)
  {
    var p := PriorityOf(prio, t);
    var r := Enqueue(qs, p, t);
    var i := Top(r, |r|);
    assert r[p] != [];
    forall u | u in waiting
      ensures 0 <= PriorityOf(prio, u) <= i && u in qs[PriorityOf(prio, u)]
    {
      CountPositive(qs, |qs|, u);
      assert r[PriorityOf(prio, u)] != [];
    }
    if i != p || qs[p] != [] {
      var u := r[i][0];
      assert u in qs[i] && u in waiting && PriorityOf(prio, u) == i;
    }
  }

  /** A thread readied before the running one gives way runs at once exactly if every waiting thread has a lower
      priority and the running one no higher. */
  lemma ReadiedRunsFirst<T>(qs: Queues<T>, waiting: set<T>, prio: map<T, int>, t: T, running: T, idle: T)
    requires HoldsWaiters(qs, waiting, prio) && t !in waiting && running !in waiting && t != running
    requires 0 <= PriorityOf(prio, t) < |qs| && 0 <= PriorityOf(prio, running) < |qs|
    ensures Pick(Enqueue(Enqueue(qs, PriorityOf(prio, t), t), PriorityOf(prio, running), running), idle).0 == t <==>
      && (forall u | u in waiting :: PriorityOf(prio, u) < PriorityOf(prio, t))
      && PriorityOf(prio, running) <= PriorityOf(prio, t)
  {
    var p, q := PriorityOf(prio, t), PriorityOf(prio, running);
    var r := Enqueue(qs, p, t);
    EnqueueHoldsWaiters(qs, waiting, prio, t);
    EnqueueHoldsWaiters(r, waiting + {t}, prio, running);
    YieldsToEquals(qs, waiting, prio, t, idle);
    hide HoldsWaiters;
    var z := Enqueue(r, q, running);
    var i := Top(r, |r|);
    assert r[p] != [];
    TopIs(z, |z|, if q > i then q else i);
  }

  /** t stands somewhere before u. */
  ghost predicate Before<T>(q: seq<T>, t: T, u: T) {
    exists i, j :: 0 <= i < j < |q| && q[i] == t && q[j] == u
  }

  lemma BeforeInParts<T>(a: seq<T>, b: seq<T>, t: T, u: T)
    ensures Before(a, t, u) || Before(b, t, u) || (t in a && u in b) ==> Before(a + b, t, u)
  {
    var c := a + b;
    if Before(a, t, u) {
      var i, j :| 0 <= i < j < |a| && a[i] == t && a[j] == u;
      assert c[i] == t && c[j] == u;
    } else if Before(b, t, u) {
      var i, j :| 0 <= i < j < |b| && b[i] == t && b[j] == u;
      assert c[|a| + i] == t && c[|a| + j] == u;
    } else if t in a && u in b {
      var i :| 0 <= i < |a| && a[i] == t;
      var j :| 0 <= j < |b| && b[j] == u;
      assert c[i] == t && c[|a| + j] == u;
    }
  }

  lemma {:induction false} WithPriorityKeepsOrder<T>(q: seq<T>, prio: map<T, int>, p: int, t: T, u: T)
    requires PriorityOf(prio, t) == PriorityOf(prio, u) == p
    ensures t in q ==> t in WithPriority(q, prio, p)
    ensures Before(q, t, u) ==> Before(WithPriority(q, prio, p), t, u)
    decreases |q|
  {
    if q != [] {
      var front, last := q[..|q| - 1], q[|q| - 1];
      WithPriorityKeepsOrder(front, prio, p, t, u);
      var tail := if PriorityOf(prio, last) == p then [last] else [];
      assert WithPriority(q, prio, p) == WithPriority(front, prio, p) + tail;
      BeforeInParts(WithPriority(front, prio, p), tail, t, u);
      if Before(q, t, u) {
        var i, j :| 0 <= i < j < |q| && q[i] == t && q[j] == u;
        assert front[i] == t;
        assert j < |q| - 1 ==> front[j] == u;
      }
    }
  }

  lemma {:induction false} StraysKeepOrder<T>(qs: Queues<T>, prio: map<T, int>, p: int, n: nat, i: nat, j: nat,
                                            t: T, u: T)
    requires i <= j < n <= |qs| && i != p && j != p && t in qs[i] && u in qs[j]
    requires PriorityOf(prio, t) == PriorityOf(prio, u) == p && (i == j ==> Before(qs[i], t, u))
    ensures Before(Strays(qs, prio, p, n), t, u)
    decreases n
  {
    hide *;
    OneMoreStray(qs, prio, p, n - 1);
    if j < n - 1 {
      StraysKeepOrder(qs, prio, p, n - 1, i, j, t, u);
      BeforeInParts(Strays(qs, prio, p, n - 1), WithPriority(qs[n - 1], prio, p), t, u);
    } else {
      WithPriorityKeepsOrder(qs[j], prio, p, t, u);
      WithPriorityKeepsOrder(qs[j], prio, p, u, u);
      if i < j {
        IsStray(qs, prio, p, n - 1, i, t);
      }
      BeforeInParts(Strays(qs, prio, p, n - 1), WithPriority(qs[j], prio, p), t, u);
    }
  }

  lemma {:induction false} IsStray<T>(qs: Queues<T>, prio: map<T, int>, p: int, n: nat, i: nat, t: T)
    requires i < n <= |qs| && i != p && t in qs[i] && PriorityOf(prio, t) == p
    ensures t in Strays(qs, prio, p, n)
    decreases n
  {
    OneMoreStray(qs, prio, p, n - 1);
    hide WithPriority, Strays, PriorityOf;
    if i < n - 1 {
      IsStray(qs, prio, p, n - 1, i, t);
    } else {
      WithPriorityKeepsOrder(qs[i], prio, p, t, t);
    }
  }

  /** Reordering is fair: of two threads that end up in the same queue, the one comes first that was in this
      queue already; of two that were, and of two that were not, the one that was in front or in the lower queue. */
  lemma ReorderedKeepsOrder<T>(qs: Queues<T>, prio: map<T, int>, i: nat, j: nat, t: T, u: T)
    requires i < |qs| && j < |qs| && t in qs[i] && u in qs[j]
    requires PriorityOf(prio, t) == PriorityOf(prio, u) && 0 <= PriorityOf(prio, t) < |qs|
    requires var p := PriorityOf(prio, t);
      || (i == j && Before(qs[i], t, u)) || (i == p && j != p) || (i != p && j != p && i < j)
    ensures Before(Reordered(qs, prio)[PriorityOf(prio, t)], t, u)
  {
    var p := PriorityOf(prio, t);
    BeforeInParts(WithPriority(qs[p], prio, p), Strays(qs, prio, p, |qs|), t, u);
    if i == p {
      WithPriorityKeepsOrder(qs[p], prio, p, t, u);
      if j != p {
        IsStray(qs, prio, p, |qs|, j, u);
      }
    } else {
      StraysKeepOrder(qs, prio, p, |qs|, i, j, t, u);
    }
  }

  /** A change of priorities of threads that are not queued leaves the queues right. */
  lemma HoldsWaitersAgrees<T>(qs: Queues<T>, waiting: set<T>, prio: map<T, int>, prio': map<T, int>)
    requires HoldsWaiters(qs, waiting, prio)
    requires forall t | t in waiting :: PriorityOf(prio', t) == PriorityOf(prio, t)
    ensures HoldsWaiters(qs, waiting, prio')
  {
  }

  /** Reordering after any change of priorities makes the queues right again. */
  lemma ReorderedHoldsWaiters<T>(qs: Queues<T>, waiting: set<T>, prio: map<T, int>, prio': map<T, int>)
    requires HoldsWaiters(qs, waiting, prio) && Known(qs, prio')
    ensures HoldsWaiters(Reordered(qs, prio'), waiting, prio')
  {
    ReorderedIsAPermutationInPlace(qs, prio');
    var r := Reordered(qs, prio');
    forall i, t | 0 <= i < |r| && t in r[i]
      ensures t in waiting
    {
      CountPositive(r, |r|, t);
      assert Count(r, t) == Count(qs, t) > 0;
      CountPositive(qs, |qs|, t);
    }
  }

  // ---- mlfqs_reorder_list, one queue at a time ----

  /** Queue `i` has been scanned up to its thread `m`. */
  ghost predicate Scanned<T>(qs: Queues<T>, now: Queues<T>, prio: map<T, int>, i: nat, m: nat) {
    && |now| == |qs| && i < |qs| && m <= |qs[i]|
    && now[i] == WithPriority(qs[i][..m], prio, i) + qs[i][m..]
    && forall p | 0 <= p < |qs| && p != i :: now[p] == qs[p] + WithPriority(qs[i][..m], prio, p)
  }

  /** Entry `k` of queue `i` taken out and put at the back of queue `p`. */
  function Moved<T>(qs: Queues<T>, i: nat, k: nat, p: int): Queues<T>
    requires i < |qs| && k < |qs[i]| && 0 <= p < |qs|
  {
    var cut := qs[i := qs[i][..k] + qs[i][k + 1..]];
    cut[p := cut[p] + [qs[i][k]]]
  }

  lemma ScanStep<T>(qs: Queues<T>, now: Queues<T>, prio: map<T, int>, i: nat, m: nat)
    requires Scanned(qs, now, prio, i, m)
    requires AllKnown(qs[i], prio, |qs|)
    requires |WithPriority(qs[i][..m], prio, i)| < |now[i]|
    ensures m < |qs[i]|
    ensures var k := |WithPriority(qs[i][..m], prio, i)|;
      var t := now[i][k];
      && t == qs[i][m] && t in prio && 0 <= prio[t] < |qs|
      && Scanned(qs, if PriorityOf(prio, t) == i then now else Moved(now, i, k, PriorityOf(prio, t)), prio, i, m + 1)
      && |WithPriority(qs[i][..m + 1], prio, i)| == if PriorityOf(prio, t) == i then k + 1 else k
  {
    hide WithPriority;
    var front := WithPriority(qs[i][..m], prio, i);
    assert m < |qs[i]| && qs[i][m..] == [qs[i][m]] + qs[i][m + 1..];
    var t := qs[i][m];
    assert now[i][|front|] == t && t in qs[i];
    OneMoreWithPriority(qs[i], prio, m);
    if PriorityOf(prio, t) == i {
      assert now[i] == front + [t] + qs[i][m + 1..];
    } else {
      MovedKeepsScanned(qs, now, prio, i, m);
    }
  }

  lemma MovedKeepsScanned<T>(qs: Queues<T>, now: Queues<T>, prio: map<T, int>, i: nat, m: nat)
    requires Scanned(qs, now, prio, i, m) && m < |qs[i]|
    requires var p := PriorityOf(prio, qs[i][m]); p != i && 0 <= p < |qs|
    ensures |WithPriority(qs[i][..m], prio, i)| < |now[i]|
    ensures Scanned(qs, Moved(now, i, |WithPriority(qs[i][..m], prio, i)|, PriorityOf(prio, qs[i][m])), prio, i, m + 1)
  {
    hide WithPriority;
    OneMoreWithPriority(qs[i], prio, m);
    var front, rest := WithPriority(qs[i][..m], prio, i), qs[i][m + 1..];
    assert now[i] == front + [qs[i][m]] + rest;
    assert now[i][..|front|] == front && now[i][|front| + 1..] == rest;
  }

  lemma OneMoreWithPriority<T>(q: seq<T>, prio: map<T, int>, m: nat)
    requires m < |q|
    ensures forall p ::
      WithPriority(q[..m + 1], prio, p) ==
      WithPriority(q[..m], prio, p) + (if PriorityOf(prio, q[m]) == p then [q[m]] else [])
  {
    assert q[..m + 1][..m] == q[..m];
  }

  /** The queues when the first `i` of them have been scanned. */
  function PartlyReordered<T(==)>(qs: Queues<T>, prio: map<T, int>, i: nat): (r: Queues<T>)
    requires i <= |qs|
    ensures |r| == |qs|
  {
    seq(|qs|, p requires 0 <= p < |qs| =>
      (if p < i then WithPriority(qs[p], prio, p) else qs[p]) + Strays(qs, prio, p, i))
  }

  lemma PartlyReorderedEnds<T>(qs: Queues<T>, prio: map<T, int>)
    ensures PartlyReordered(qs, prio, 0) == qs
    ensures PartlyReordered(qs, prio, |qs|) == Reordered(qs, prio)
  {
    assert forall p | 0 <= p < |qs| :: PartlyReordered(qs, prio, 0)[p] == qs[p];
  }

  /** Every queued thread is known, and its priority is the index of a queue. */
  ghost predicate Known<T>(qs: Queues<T>, prio: map<T, int>) {
    forall i | 0 <= i < |qs| :: AllKnown(qs[i], prio, |qs|)
  }

  ghost predicate AllKnown<T>(q: seq<T>, prio: map<T, int>, n: nat) {
    forall t | t in q :: t in prio && 0 <= prio[t] < n
  }

  lemma KnownWhileReordering<T>(qs: Queues<T>, prio: map<T, int>, i: nat)
    requires i < |qs| && Known(qs, prio)
    ensures AllKnown(PartlyReordered(qs, prio, i)[i], prio, |qs|)
  {
    StraysAreQueued(qs, prio, i, i);
    assert AllKnown(qs[i], prio, |qs|);
    assert forall t | t in PartlyReordered(qs, prio, i)[i] :: t in qs[i] || t in Strays(qs, prio, i, i);
  }

  lemma OneMoreQueueScanned<T>(qs: Queues<T>, prio: map<T, int>, i: nat, now: Queues<T>)
    requires i < |qs|
    requires Scanned(PartlyReordered(qs, prio, i), now, prio, i, |PartlyReordered(qs, prio, i)[i]|)
    ensures now == PartlyReordered(qs, prio, i + 1)
  {
    forall p | 0 <= p < |qs|
      ensures now[p] == PartlyReordered(qs, prio, i + 1)[p]
    {
      OneQueueAfterScan(qs, prio, i, p, now);
    }
  }

  lemma OneQueueAfterScan<T>(qs: Queues<T>, prio: map<T, int>, i: nat, p: nat, now: Queues<T>)
    requires i < |qs| && p < |qs|
    requires Scanned(PartlyReordered(qs, prio, i), now, prio, i, |PartlyReordered(qs, prio, i)[i]|)
    ensures now[p] == PartlyReordered(qs, prio, i + 1)[p]
  {
    hide PartlyReordered, WithPriority, Strays;
    var strays, s, w := Strays(qs, prio, i, i), Strays(qs, prio, p, i), WithPriority(qs[i], prio, p);
    var kept := if p < i then WithPriority(qs[p], prio, p) else qs[p];
    var all := qs[i] + strays;
    PartlyReorderedAt(qs, prio, i, i);
    PartlyReorderedAt(qs, prio, i, p);
    PartlyReorderedAt(qs, prio, i + 1, p);
    OneMoreStray(qs, prio, p, i);
    assert all[..|all|] == all && all[|all|..] == [];
    WithPriorityAppend(qs[i], strays, prio, p);
    StraysHavePriority(qs, prio, i, i);
    if p == i {
      WithPriorityAll(strays, prio, p);
      assert now[p] == w + strays + [];
    } else {
      WithPriorityNone(strays, prio, p);
      assert now[p] == kept + s + (w + []);
    }
  }

  lemma PartlyReorderedAt<T>(qs: Queues<T>, prio: map<T, int>, i: nat, p: nat)
    requires i <= |qs| && p < |qs|
    ensures PartlyReordered(qs, prio, i)[p] ==
      (if p < i then WithPriority(qs[p], prio, p) else qs[p]) + Strays(qs, prio, p, i)
  {}

  lemma OneMoreStray<T>(qs: Queues<T>, prio: map<T, int>, p: int, i: nat)
    requires i < |qs|
    ensures i == p ==> Strays(qs, prio, p, i + 1) == Strays(qs, prio, p, i)
    ensures i != p ==> Strays(qs, prio, p, i + 1) == Strays(qs, prio, p, i) + WithPriority(qs[i], prio, p)
  {}

  lemma StraysHavePriority<T>(qs: Queues<T>, prio: map<T, int>, p: int, i: nat)
    requires i <= |qs|
    ensures forall t | t in Strays(qs, prio, p, i) :: PriorityOf(prio, t) == p
  {
    forall t | t in Strays(qs, prio, p, i)
      ensures PriorityOf(prio, t) == p
    {
      StraysCount(qs, prio, p, i, t);
      assert Occurrences(Strays(qs, prio, p, i), t) > 0;
    }
  }

  lemma StraysAreQueued<T>(qs: Queues<T>, prio: map<T, int>, p: int, i: nat)
    requires i <= |qs|
    ensures forall t | t in Strays(qs, prio, p, i) :: exists j | 0 <= j < |qs| :: t in qs[j]
  {
    forall t | t in Strays(qs, prio, p, i)
      ensures exists j | 0 <= j < |qs| :: t in qs[j]
    {
      StraysCount(qs, prio, p, i, t);
      assert Occurrences(Strays(qs, prio, p, i), t) > 0;
      CountPositive(qs, i, t);
    }
  }
}
