/** Semaphores (threads/synch.c of project 2).  Code that runs with interrupts off is one step, so
    a run of any number of threads is a sequence of the steps below. */
module Semaphores {
  type Tid = nat

  /** A semaphore, the threads that were taken off its waiters but have not run since, and how
      many down and up operations have completed. */
  datatype Sema = Sema(value: nat, waiters: seq<Tid>, woken: set<Tid>, downs: nat, ups: nat)

  /** The first pass of sema_down by a thread, a later pass of its loop after it was unblocked,
      sema_try_down, and sema_up. */
  datatype Step = Down(t: Tid) | Recheck(t: Tid) | TryDown | Up

  function Init(value: nat): Sema { Sema(value, [], {}, 0, 0) }

  predicate Enabled(s: Sema, step: Step) {
    match step
    case Down(t) => t !in s.waiters && t !in s.woken
    case Recheck(t) => t in s.woken
    case TryDown => true
    case Up => true
  }

  /** `while (value == 0) { push; block }  value--` up to the next point where the thread sleeps. */
  function Pass(s: Sema, t: Tid): Sema {
    if s.value == 0 then s.(waiters := s.waiters + [t])
    else s.(value := s.value - 1, downs := s.downs + 1)
  }

  function Apply(s: Sema, step: Step): Sema {
    match step
    case Down(t) => Pass(s, t)
    case Recheck(t) => Pass(s.(woken := s.woken - {t}), t)
    case TryDown => if s.value > 0 then s.(value := s.value - 1, downs := s.downs + 1) else s
    case Up =>
      var u := if s.waiters == [] then s
               else s.(waiters := s.waiters[1..], woken := s.woken + {s.waiters[0]});
      u.(value := u.value + 1, ups := u.ups + 1)
  }

  /** All states that a sequence of steps passes through from `s` on. */
  ghost predicate IsRun(s: Sema, steps: seq<Step>, end: Sema)
    decreases steps
  {
    if steps == [] then end == s
    else Enabled(s, steps[0]) && IsRun(Apply(s, steps[0]), steps[1..], end)
  }

  /** Conservation, and no stuck waiter: whoever waits while the value is positive is outnumbered by
      threads that were woken to take it. */
  ghost predicate Inv(s: Sema, initial: nat) {
    && s.value + s.downs == initial + s.ups
    && (forall i, j | 0 <= i < j < |s.waiters| :: s.waiters[i] != s.waiters[j])
    && (forall t | t in s.waiters :: t !in s.woken)
    && (s.waiters != [] ==> s.value <= |s.woken|)
  }

  lemma WakingOneCounts(s: Sema)
    requires s.waiters != [] && forall t | t in s.waiters :: t !in s.woken
    ensures |s.woken + {s.waiters[0]}| == |s.woken| + 1
  {
    assert s.waiters[0] in s.waiters;
  }

  lemma StepKeepsInv(s: Sema, step: Step, initial: nat)
    requires Inv(s, initial) && Enabled(s, step)
    ensures Inv(Apply(s, step), initial)
  {
    match step {
      case Recheck(t) =>
        assert |s.woken - {t}| == |s.woken| - 1;
      case Up =>
        if s.waiters != [] {
          WakingOneCounts(s);
        }
      case _ =>
    }
  }

  /** Over every interleaving the value is initial + ups - downs, and a thread sleeps while the
      value is positive only if at least that many woken threads have not run yet. */
  lemma {:induction false} RunKeepsInv(s: Sema, steps: seq<Step>, end: Sema, initial: nat)
    requires Inv(s, initial) && IsRun(s, steps, end)
    ensures Inv(end, initial)
    ensures end.value == initial + end.ups - end.downs
    ensures end.woken == {} ==> end.value == 0 || end.waiters == []
    decreases steps
  {
    if steps != [] {
      StepKeepsInv(s, steps[0], initial);
      RunKeepsInv(Apply(s, steps[0]), steps[1..], end, initial);
    }
  }

  function Ups(steps: seq<Step>): nat {
    if steps == [] then 0 else (if steps[0].Up? then 1 else 0) + Ups(steps[1..])
  }

  /** How many passes of sema_down and calls of sema_try_down are let in: those that find the value positive. */
  function Grants(s: Sema, steps: seq<Step>): nat
    decreases |steps|
  {
    if steps == [] then 0
    else (if !steps[0].Up? && s.value > 0 then 1 else 0) + Grants(Apply(s, steps[0]), steps[1..])
  }

  /** Each one that is let in takes one from the value, and each up gives one; so with the value at 1 from the
      start and no up nobody is let in after the first. */
  lemma {:induction false} EveryGrantTakesOne(s: Sema, steps: seq<Step>, end: Sema)
    requires IsRun(s, steps, end)
    ensures end.value + Grants(s, steps) == s.value + Ups(steps)
    ensures end.downs - s.downs == Grants(s, steps) && end.ups - s.ups == Ups(steps)
    decreases |steps|
  {
    if steps != [] {
      EveryGrantTakesOne(Apply(s, steps[0]), steps[1..], end);
    }
  }

  /** Threads are woken in the order of their arrival: whatever else happens, the k-th waiter stays
      in line for the next k ups, one place further on after each, and the up after those wakes it
      and no other. */
  lemma {:induction false} WaitersAreServedInOrder(s: Sema, steps: seq<Step>, end: Sema, k: nat)
    requires k < |s.waiters| && IsRun(s, steps, end) && Ups(steps) <= k
    ensures |end.waiters| > k - Ups(steps) && end.waiters[k - Ups(steps)] == s.waiters[k]
    ensures Ups(steps) == k ==> Enabled(end, Up) && Apply(end, Up).woken == end.woken + {s.waiters[k]}
    decreases steps
  {
    if steps != [] {
      WaitersAreServedInOrder(Apply(s, steps[0]), steps[1..], end, if steps[0].Up? then k - 1 else k);
    }
  }

  /** The object: its fields change in place, one method per step. */
  class Semaphore {
    var value: nat
    var waiters: seq<Tid>
    ghost var woken: set<Tid>
    ghost var downs: nat
    ghost var ups: nat

    ghost function View(): Sema
      reads this
    {
      Sema(value, waiters, woken, downs, ups)
    }

    /** sema_init. */
    constructor (value: nat)
      ensures View() == Init(value) && Inv(View(), value)
    {
      this.value, waiters := value, [];
      woken, downs, ups := {}, 0, 0;
    }

    /** One pass of the loop in sema_down; true means the thread now sleeps. */
    method DownPass(t: Tid, ghost first: bool) returns (blocked: bool)
      requires Enabled(View(), if first then Down(t) else Recheck(t))
      modifies this
      ensures View() == Apply(old(View()), if first then Down(t) else Recheck(t))
      ensures blocked <==> old(value) == 0
    {
      if !first { woken := woken - {t}; }
      if value == 0 {
        waiters := waiters + [t];
        return true;
      }
      value := value - 1;
      downs := downs + 1;
      return false;
    }

    method TryDown() returns (success: bool)
      modifies this
      ensures View() == Apply(old(View()), Step.TryDown) && (success <==> old(value) > 0)
    {
      success := value > 0;
      if success {
        value := value - 1;
        downs := downs + 1;
      }
    }

    /** sema_up: unblocks the longest waiter, if any, then increments the value. */
    method Up() returns (unblocked: set<Tid>)
      modifies this
      ensures View() == Apply(old(View()), Step.Up)
      ensures unblocked == if old(waiters) == [] then {} else {old(waiters)[0]}
    {
      unblocked := {};
      if |waiters| > 0 {
        unblocked := {waiters[0]};
        woken := woken + {waiters[0]};
        waiters := waiters[1..];
      }
      value := value + 1;
      ups := ups + 1;
    }
  }
}
