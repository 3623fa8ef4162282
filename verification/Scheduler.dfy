/** The MLFQS half of the thread scheduler (threads/thread.c, with `thread_mlfqs` set).  Every
    method is one stretch of code that runs with interrupts off.  Lists are sequences. */
module Scheduler {
  import opened Lists
  import opened Machine
  import opened Reals
  import opened Mlfqs
  import opened ReadyQueues

  const QUEUE_CNT := PRI_MAX + 1
  const TIME_SLICE := 4

  datatype Status = Running | Ready | Blocked | Dying

  class Thread {
    var status: Status
    var priority: int
    var origPriority: int
    var recentCpu: int
    var nice: int

    /** init_thread under MLFQS. */
    constructor ()
      ensures status == Blocked && recentCpu == 0 && nice == 0
      ensures priority == origPriority == Priority(0, 0)
    {
      status := Blocked;
      recentCpu, nice := 0, 0;
      priority, origPriority := Priority(0, 0), Priority(0, 0);
    }
  }

  lemma RemoveOne<T>(q: seq<T>, k: nat)
    requires Distinct(q) && k < |q|
    ensures Distinct(q[..k] + q[k + 1..])
    ensures forall t :: t in q[..k] + q[k + 1..] <==> t in q && t != q[k]
  {
  }

  /** recent_cpu after one timer tick: charged to the running thread, decayed once a second. */
  function TickedRecentCpu(recentCpu: int, nice: int, charged: bool, second: bool, loadAvg: int): int
    requires second ==> SumRealInt(MultRealInt(loadAvg, 2), 1) != 0
  {
    var r := if charged then SumRealInt(recentCpu, 1) else recentCpu;
    if second then UpdatedRecentCpu(loadAvg, r, nice) else r
  }

  /** A tick charges exactly one unit, and no more than that changes but at the end of a second. */
  lemma TickChargesOne(recentCpu: int, nice: int, charged: bool, loadAvg: int, n: nat)
    requires n <= 545 && 0 <= loadAvg <= n * F && -20 <= nice <= 20 && RecentCpuInRange(recentCpu, n, TIMER_FREQ - 1)
    ensures SumRealInt(MultRealInt(loadAvg, 2), 1) != 0
    ensures var r := recentCpu + if charged then F else 0;
      var c := 2 * loadAvg * F / (2 * loadAvg + F);
      && TickedRecentCpu(recentCpu, nice, charged, false, loadAvg) == r
      && TickedRecentCpu(recentCpu, nice, charged, true, loadAvg) == TruncDiv(c * r, F) + nice * F
  {
    hide UpdatedRecentCpu;
    RecentCpuBound(loadAvg, recentCpu + if charged then F else 0, nice, n);
  }

  class Scheduler {
    var ready: Queues<Thread>
    const idle: Thread
    var allList: seq<Thread>
    var current: Thread
    var loadAvg: int
    var ticks: nat
    var threadTicks: nat
    /** An upper bound on the number of ready threads, the running one included. */
    ghost const bound: nat

    /** A snapshot of the priorities of all threads. */
    ghost function Prio(): map<Thread, int>
      reads this`allList, allList`priority
    {
      map t | t in allList :: t.priority
    }

    ghost predicate GoodThread(t: Thread)
      reads t`priority, t`origPriority, t`nice
    {
      PRI_MIN <= t.priority <= PRI_MAX && t.origPriority == t.priority && -20 <= t.nice <= 20
    }

    /** Every recent_cpu is in the range of `sub` ticks into a second. */
    ghost predicate CpuRange(sub: nat)
      reads this`allList, allList`recentCpu
    {
      forall t | t in allList :: RecentCpuInRange(t.recentCpu, bound, sub)
    }

    /** A thread waits in the ready queues: exactly the ready threads other than idle do. */
    ghost predicate Waits(t: Thread)
      reads t`status
    {
      t.status == Ready && t != idle
    }

    ghost function Waiting(): set<Thread>
      reads this`allList, allList`status
    {
      set t | t in allList && Waits(t)
    }

    /** The load average, the priorities and the nice values are within their ranges. */
    ghost predicate Static()
      reads this`loadAvg, this`allList, allList`priority, allList`origPriority, allList`nice
    {
      && bound <= 545 && 0 <= loadAvg <= bound * F
      && Distinct(allList) && idle in allList
      && forall t | t in allList :: GoodThread(t)
    }

    ghost predicate Steady()
      reads this`ticks, this`loadAvg, this`allList
      reads allList`priority, allList`origPriority, allList`nice, allList`recentCpu
    {
      Static() && CpuRange(ticks % TIMER_FREQ)
    }

    /** What holds at all times between two scheduling steps, whoever runs. */
    ghost predicate Consistent()
      reads this, allList
    {
      && Steady()
      && |ready| == QUEUE_CNT && HoldsWaiters(ready, Waiting(), Prio())
    }

    /** What holds between any two of the methods below: exactly the current thread is running. */
    ghost predicate Valid()
      reads this, allList
    {
      && Consistent()
      && current in allList
      && forall t | t in allList :: t.status == Running <==> t == current
    }

    /** No thread that waits has a higher priority than the current one, and idle runs only when
        no thread waits. */
    ghost predicate BestRuns()
      reads this, allList, current
    {
      forall t | t in allList && Waits(t) :: current != idle && t.priority <= current.priority
    }

    /** Ready threads as the load average counts them. */
    ghost function ReadyThreads(): nat
      reads this
    {
      SizeBelow(ready, |ready|) + if current != idle then 1 else 0
    }

    lemma ReadyThreadsAreCounted()
      requires Consistent()
      ensures ReadyThreads() == |Waiting()| + if current != idle then 1 else 0
    {
      SizeIsTheWaiting(ready, Waiting(), Prio());
    }

    /** The state once threading has started: the initial thread runs, idle has blocked. */
    constructor (ghost bound: nat)
      requires 1 <= bound <= 545
      ensures Valid() && fresh(allList) && this.bound == bound
      ensures allList == [current, idle] && current != idle
      ensures loadAvg == 0 && ticks == 0 && SizeBelow(ready, QUEUE_CNT) == 0
    {
      var main := new Thread();
      idle := new Thread();
      ready := seq(QUEUE_CNT, _ => []);
      current, allList := main, [main, idle];
      loadAvg, ticks, threadTicks := 0, 0, 0;
      this.bound := bound;
      new;
      main.status := Running;
      assert Waiting() == {};
      EmptyQueues(ready, QUEUE_CNT);
    }

    // ---- mlfqs_reorder_list ----

    /** `e = list_remove (e); list_push_back (&mlfqs_ready_list[t->priority], &t->elem)`. */
    method MoveToOwnQueue(i: nat, k: nat)
      requires i < |ready| && k < |ready[i]| && 0 <= ready[i][k].priority < |ready|
      modifies this`ready
      ensures ready == Moved(old(ready), i, k, old(ready[i])[k].priority)
    {
      var t := ready[i][k];
      ready := ready[i := ready[i][..k] + ready[i][k + 1..]];
      ready := ready[t.priority := ready[t.priority] + [t]];
    }

    /** The inner loop: scans queue `i` once, moving each thread of another priority to the back of
        its own queue. */
    method ScanQueue(i: nat)
      requires |ready| == QUEUE_CNT && i < QUEUE_CNT
      requires AllKnown(ready[i], Prio(), QUEUE_CNT)
      modifies this`ready
      ensures Scanned(old(ready), ready, Prio(), i, |old(ready[i])|)
    {
      ghost var qs := ready;
      ghost var prio := Prio();
      ghost var m := 0;
      var k := 0;
      while k < |ready[i]|
        invariant Scanned(qs, ready, prio, i, m)
        invariant k == |WithPriority(qs[i][..m], prio, i)|
        decreases |qs[i]| - m
      {
        ScanStep(qs, ready, prio, i, m);
        var t := ready[i][k];
        if t.priority != i {
          MoveToOwnQueue(i, k);
        } else {
          k := k + 1;
        }
        m := m + 1;
      }
      assert m == |qs[i]|;
    }

    /** mlfqs_reorder_list: the queues held the waiting threads under the priorities `was`; they
        hold them again under the present ones. */
    method ReorderList(ghost was: map<Thread, int>)
      requires Static() && |ready| == QUEUE_CNT && HoldsWaiters(ready, Waiting(), was)
      modifies this`ready
      ensures ready == Reordered(old(ready), Prio())
      ensures HoldsWaiters(ready, Waiting(), Prio())
    {
      hide HoldsWaiters, Reordered, Distinct, PartlyReordered, Scanned, Known, Static, AllKnown, WithPriority, Strays;
      ghost var qs := ready;
      ghost var prio := Prio();
      QueuesAreKnown(was);
      ReorderedHoldsWaiters(qs, Waiting(), was, prio);
      PartlyReorderedEnds(qs, prio);
      var i := 0;
      while i < QUEUE_CNT
        invariant 0 <= i <= QUEUE_CNT
        invariant ready == PartlyReordered(qs, prio, i)
      {
        KnownWhileReordering(qs, prio, i);
        assert AllKnown(ready[i], Prio(), QUEUE_CNT);
        ScanQueue(i);
        OneMoreQueueScanned(qs, prio, i, ready);
        i := i + 1;
      }
    }

    // ---- picking the next thread ----

    /** mlfqs_list_size. */
    method ListSize() returns (size: nat)
      ensures size == SizeBelow(ready, |ready|)
    {
      size := 0;
      for i := 0 to |ready|
        invariant size == SizeBelow(ready, i)
      {
        size := size + |ready[i]|;
      }
    }

    /** mlfqs_list_empty. */
    method ListEmpty() returns (empty: bool)
      ensures empty <==> forall i | 0 <= i < |ready| :: ready[i] == []
    {
      for i := 0 to |ready|
        invariant forall j | 0 <= j < i :: ready[j] == []
      {
        if |ready[i]| > 0 { return false; }
      }
      return true;
    }

    /** next_thread_to_run. */
    method NextThreadToRun() returns (t: Thread)
      requires |ready| == QUEUE_CNT
      modifies this`ready
      ensures (t, ready) == Pick(old(ready), idle)
    {
      t := idle;
      var empty := ListEmpty();
      if empty {
        TopIs(ready, |ready|, -1);
        return;
      }
      var i := PRI_MAX;
      while i >= 0
        invariant -1 <= i <= PRI_MAX && ready == old(ready)
        invariant forall j | i < j < |ready| :: ready[j] == []
      {
        if |ready[i]| > 0 {
          TopIs(ready, |ready|, i);
          t := ready[i][0];
          ready := ready[i := ready[i][1..]];
          return;
        }
        i := i - 1;
      }
    }

    /** schedule and thread_schedule_tail: the current thread has just stopped running. */
    method Schedule()
      requires Consistent() && forall t | t in allList :: t.status != Running
      modifies this`current, this`threadTicks, this`ready, allList`status
      ensures Valid() && BestRuns()
      ensures (current, ready) == Pick(old(ready), idle) && threadTicks == 0
      ensures forall t | t in old(allList) :: t.status == (if t == current then Running else old(t.status))
    {
      hide HoldsWaiters;
      ghost var waiting := Waiting();
      PickIsMaximal(ready, waiting, Prio(), idle);
      var next := NextThreadToRun();
      SwitchTo(next);
      assert forall t | t in allList && Waits(t) :: t in waiting;
    }

    /** The part of thread_schedule_tail that starts the picked thread. */
    method SwitchTo(next: Thread)
      requires Steady() && next in allList && forall t | t in allList :: t.status != Running
      requires |ready| == QUEUE_CNT && HoldsWaiters(ready, Waiting() - {next}, Prio())
      modifies this`current, this`threadTicks, next`status
      ensures Valid() && current == next && Waiting() == old(Waiting()) - {next} && threadTicks == 0
    {
      ghost var waiting := Waiting();
      next.status := Running;
      current := next;
      threadTicks := 0;
      assert Waiting() == waiting - {next};
    }

    // ---- scheduling steps ----

    /** list_push_back (&mlfqs_ready_list[t->priority], &t->elem); t->status = THREAD_READY. */
    method MakeReady(t: Thread)
      requires Consistent() && t in allList && t.status != Ready && t != idle
      modifies this`ready, t`status
      ensures Consistent() && t.status == Ready
      ensures ready == Enqueue(old(ready), t.priority, t)
    {
      EnqueueHoldsWaiters(ready, Waiting(), Prio(), t);
      ghost var waiting := Waiting();
      ready := ready[t.priority := ready[t.priority] + [t]];
      t.status := Ready;
      assert Waiting() == waiting + {t};
    }

    /** thread_yield: the running thread goes on exactly if all others that wait have lower priorities, so it lets
        those of its own priority run first. */
    method Yield()
      requires Valid()
      modifies this`current, this`threadTicks, this`ready, allList`status
      ensures Valid() && BestRuns()
      ensures current == old(current) <==>
        forall t | t in old(Waiting()) :: old(current) != idle && t.priority < old(current).priority
      ensures (current, ready) ==
        Pick(if old(current) == idle then old(ready)
             else Enqueue(old(ready), old(current.priority), old(current)), idle)
      ensures threadTicks == 0
      ensures forall t | t in allList ::
        t.status == (if t == current then Running else if t == old(current) then Ready else old(t.status))
    {
      hide HoldsWaiters, Distinct, Enqueue, Top;
      if current != idle {
        YieldsToEquals(ready, Waiting(), Prio(), current, idle);
        MakeReady(current);
      } else {
        PickIsMaximal(ready, Waiting(), Prio(), idle);
        ghost var waiting := Waiting();
        current.status := Ready;
        assert Waiting() == waiting;
      }
      Schedule();
    }

    /** thread_block. */
    method Block()
      requires Valid()
      modifies this`current, this`threadTicks, this`ready, allList`status
      ensures Valid() && BestRuns()
      ensures (current, ready) == Pick(old(ready), idle) && threadTicks == 0
      ensures forall t | t in allList ::
        t.status == (if t == current then Running else if t == old(current) then Blocked else old(t.status))
    {
      ghost var waiting := Waiting();
      current.status := Blocked;
      assert Waiting() == waiting;
      Schedule();
    }

    /** thread_unblock: outside an interrupt the running thread gives way at once. */
    method Unblock(t: Thread, inInterrupt: bool)
      requires Valid() && t in allList && t.status == Blocked && t != idle
      modifies this`current, this`threadTicks, this`ready, allList`status
      ensures Valid()
      ensures var qs := Enqueue(old(ready), old(t.priority), t);
        if old(current) == idle || inInterrupt then (current, ready) == (old(current), qs)
        else (current, ready) == Pick(Enqueue(qs, old(current.priority), old(current)), idle)
      ensures threadTicks == if old(current) == idle || inInterrupt then old(threadTicks) else 0
      ensures forall u | u in allList ::
        u.status == (if u == current then Running else if u == t || u == old(current) then Ready else old(u.status))
      ensures old(current) != idle && !inInterrupt ==> BestRuns()
      ensures old(current) != idle && !inInterrupt ==> (current == t <==>
        (forall u | u in old(Waiting()) :: u.priority < t.priority) && old(current).priority <= t.priority)
    {
      hide HoldsWaiters, Distinct, Enqueue, Top;
      if current != idle {
        ReadiedRunsFirst(ready, Waiting(), Prio(), t, current, idle);
      }
      MakeReady(t);
      if current != idle && !inInterrupt {
        Yield();
      }
    }

    /** thread_exit, for a thread other than idle. */
    method Exit()
      requires Valid() && current != idle
      modifies this`current, this`threadTicks, this`ready, this`allList, allList`status
      ensures Valid() && BestRuns()
      ensures (current, ready) == Pick(old(ready), idle) && threadTicks == 0
      ensures forall t :: t in allList <==> t in old(allList) && t != old(current)
      ensures old(current).status == Dying
      ensures forall t | t in allList :: t.status == (if t == current then Running else old(t.status))
    {
      Forget();
      assert forall i | 0 <= i < |allList| :: allList[i] in old(allList);
      Schedule();
    }

    /** list_remove (&thread_current ()->allelem); status = THREAD_DYING. */
    method Forget()
      requires Valid() && current != idle
      modifies this`allList, current`status
      ensures Consistent() && current.status == Dying
      ensures forall t | t in allList :: t.status != Running
      ensures forall t :: t in allList <==> t in old(allList) && t != current
    {
      ghost var prio, waiting := Prio(), Waiting();
      var k :| 0 <= k < |allList| && allList[k] == current;
      RemoveOne(allList, k);
      allList := allList[..k] + allList[k + 1..];
      current.status := Dying;
      assert Waiting() == waiting;
      assert forall t | t in allList :: t in old(allList);
      HoldsWaitersAgrees(ready, waiting, prio, Prio());
    }

    /** thread_create: the new thread starts with the priority of a fresh thread and the CPU use
        and nice value of its creator. */
    method Create() returns (t: Thread)
      requires Valid()
      modifies this`current, this`threadTicks, this`ready, this`allList, allList`status
      ensures Valid() && fresh(t) && allList == old(allList) + [t]
      ensures t.priority == Priority(0, 0)
      ensures var qs := Enqueue(old(ready), Priority(0, 0), t);
        if old(current) == idle then (current, ready) == (old(current), qs)
        else (current, ready) == Pick(Enqueue(qs, old(current.priority), old(current)), idle)
      ensures old(current) != idle ==> BestRuns()
      ensures t.nice == old(current.nice) && t.recentCpu == old(current.recentCpu)
      ensures forall u | u in old(allList) ::
        u.status == (if u == current then Running else if u == old(current) then Ready else old(u.status))
    {
      t := new Thread();
      t.nice := current.nice;
      t.recentCpu := current.recentCpu;
      Register(t);
      Unblock(t, false);
    }

    /** list_push_back (&all_list, &t->allelem) for a new thread. */
    method Register(t: Thread)
      requires Valid() && t !in allList && GoodThread(t) && t.status == Blocked
      requires RecentCpuInRange(t.recentCpu, bound, ticks % TIMER_FREQ)
      modifies this`allList
      ensures Valid() && allList == old(allList) + [t]
    {
      ghost var prio, waiting := Prio(), Waiting();
      allList := allList + [t];
      assert Waiting() == waiting;
      HoldsWaitersAgrees(ready, waiting, prio, Prio());
    }

    /** thread_set_nice: the priority of the running thread follows at once, and it yields. */
    method SetNice(nice: int)
      requires Valid() && -20 <= nice <= 20
      modifies this`current, this`threadTicks, this`ready, allList`status, current`nice, current`priority,
               current`origPriority
      ensures Valid() && BestRuns()
      ensures var t := old(current); t.nice == nice && t.priority == Priority(t.recentCpu, nice)
      ensures (current, ready) ==
        Pick(if old(current) == idle then old(ready)
             else Enqueue(old(ready), old(current).priority, old(current)), idle)
      ensures forall t | t in allList ::
        t.status == (if t == current then Running else if t == old(current) then Ready else old(t.status))
    {
      current.nice := nice;
      var p := Priority(current.recentCpu, nice);
      var donated := current.origPriority != current.priority;
      var higher := p > current.priority;
      current.origPriority := p;
      if !donated || higher {
        current.priority := p;
      }
      HoldsWaitersAgrees(ready, Waiting(), old(Prio()), Prio());
      Yield();
    }

    // ---- the timer tick ----

    /** thread_foreach (mlfqs_update_recent_cpu, NULL). */
    method DecayAll()
      requires Static() && CpuRange(TIMER_FREQ)
      modifies allList`recentCpu
      ensures CpuRange(0)
      ensures forall t | t in allList ::
        t.recentCpu == TickedRecentCpu(old(t.recentCpu), t.nice, false, true, loadAvg)
    {
      DecayBound(loadAvg, bound);
      hide UpdatedRecentCpu, SumRealInt, MultRealInt, RecentCpuInRange;
      for i := 0 to |allList|
        invariant forall j | 0 <= j < i ::
          (var t := allList[j]; && RecentCpuInRange(t.recentCpu, bound, 0)
                                && t.recentCpu == UpdatedRecentCpu(loadAvg, old(t.recentCpu), t.nice))
        invariant forall j | i <= j < |allList| :: allList[j].recentCpu == old(allList[j].recentCpu)
      {
        var t := allList[i];
        assert t in allList && GoodThread(t);
        assert old(CpuRange(TIMER_FREQ)) && RecentCpuInRange(old(t.recentCpu), bound, TIMER_FREQ);
        RecentCpuBound(loadAvg, t.recentCpu, t.nice, bound);
        t.recentCpu := UpdatedRecentCpu(loadAvg, t.recentCpu, t.nice);
      }
    }

    /** One more tick, charged to the running thread unless it is idle. */
    method Charge()
      requires Static() && CpuRange(ticks % TIMER_FREQ) && current in allList
      modifies this`ticks, current`recentCpu
      ensures ticks == old(ticks) + 1 && CpuRange(old(ticks) % TIMER_FREQ + 1)
      ensures forall t | t in allList ::
        t.recentCpu == TickedRecentCpu(old(t.recentCpu), t.nice, t == current && t != idle, false, loadAvg)
    {
      ticks := ticks + 1;
      if current != idle {
        current.recentCpu := SumRealInt(current.recentCpu, 1);
      }
    }

    /** The first half of the MLFQS part of thread_tick: the load average and recent_cpu. */
    method UpdateCpuUse()
      requires Steady() && current in allList && |ready| == QUEUE_CNT && ReadyThreads() <= bound
      modifies this`ticks, this`loadAvg, allList`recentCpu
      ensures Steady() && ticks == old(ticks) + 1
      ensures loadAvg ==
        if ticks % TIMER_FREQ == 0 then LoadAverage(old(loadAvg), old(ReadyThreads())) else old(loadAvg)
      ensures forall t | t in allList ::
        t.recentCpu == TickedRecentCpu(old(t.recentCpu), t.nice, t == current && t != idle,
                                       ticks % TIMER_FREQ == 0, loadAvg)
    {
      hide UpdatedRecentCpu, SumRealInt, LoadAverage;
      Charge();
      if ticks % TIMER_FREQ == 0 {
        var size := ListSize();
        LoadAverageBound(loadAvg, ReadyThreads(), bound);
        loadAvg := LoadAverage(loadAvg, size + if current != idle then 1 else 0);
        DecayAll();
      }
    }

    /** thread_foreach (mlfqs_update_priority, NULL). */
    method UpdatePriorities()
      requires Distinct(allList)
      modifies allList`priority, allList`origPriority
      ensures forall t | t in allList :: t.origPriority == t.priority == Priority(t.recentCpu, t.nice)
    {
      for i := 0 to |allList|
        invariant forall j | 0 <= j < i ::
          (var t := allList[j]; t.origPriority == t.priority == Priority(t.recentCpu, t.nice))
      {
        var t := allList[i];
        t.priority := Priority(t.recentCpu, t.nice);
        t.origPriority := t.priority;
      }
    }

    /** The second half of the MLFQS part of thread_tick: new priorities, then new queues. */
    method Reprioritise()
      requires Steady() && |ready| == QUEUE_CNT && HoldsWaiters(ready, Waiting(), Prio())
      modifies this`ready, allList`priority, allList`origPriority
      ensures Consistent()
      ensures forall t | t in allList :: t.priority == Priority(t.recentCpu, t.nice)
      ensures ready == Reordered(old(ready), Prio())
    {
      ghost var waiting, prio := Waiting(), Prio();
      UpdatePriorities();
      assert Waiting() == waiting && Static();
      hide Priority, Reordered, HoldsWaiters, Distinct;
      ReorderList(prio);
      assert Waiting() == waiting;
    }

    lemma QueuesAreKnown(prio: map<Thread, int>)
      requires |ready| == QUEUE_CNT && HoldsWaiters(ready, Waiting(), prio) && Static()
      ensures Known(ready, Prio())
    {
      forall i, t | 0 <= i < |ready| && t in ready[i]
        ensures t in Prio() && 0 <= Prio()[t] < |ready|
      {
        assert t in Waiting() && GoodThread(t);
      }
    }

    /** timer_interrupt up to the sleepers, and thread_tick.  With at most `bound` ready threads all
        ranges are kept, so no update overflows. */
    method TimerInterrupt() returns (yieldOnReturn: bool)
      requires Valid() && ReadyThreads() <= bound
      modifies this`ticks, this`threadTicks, this`loadAvg, this`ready
      modifies allList`recentCpu, allList`priority, allList`origPriority
      ensures Valid() && ticks == old(ticks) + 1
      ensures loadAvg ==
        if ticks % TIMER_FREQ == 0 then LoadAverage(old(loadAvg), old(ReadyThreads())) else old(loadAvg)
      ensures forall t | t in allList ::
        t.recentCpu == TickedRecentCpu(old(t.recentCpu), t.nice, t == current && t != idle,
                                       ticks % TIMER_FREQ == 0, loadAvg)
      ensures forall t | t in allList ::
        t.priority == if ticks % 4 == 0 then Priority(t.recentCpu, t.nice) else old(t.priority)
      ensures ready == if ticks % 4 == 0 then Reordered(old(ready), Prio()) else old(ready)
      ensures threadTicks == old(threadTicks) + 1 && (yieldOnReturn <==> threadTicks >= TIME_SLICE)
    {
      hide Priority, TickedRecentCpu, LoadAverage, SumRealInt, MultRealInt, Reordered, HoldsWaiters, Distinct;
      UpdateCpuUse();
      assert Prio() == old(Prio()) && Waiting() == old(Waiting());
      if ticks % 4 == 0 {
        Reprioritise();
      }
      threadTicks := threadTicks + 1;
      yieldOnReturn := threadTicks >= TIME_SLICE;
    }
  }

  lemma EmptyQueues<T>(qs: Queues<T>, i: nat)
    requires i <= |qs| && forall j | 0 <= j < |qs| :: qs[j] == []
    ensures SizeBelow(qs, i) == 0
  {
  }
}
