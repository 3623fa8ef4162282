/** Locks and Mesa condition variables (threads/synch.c of project 2) as a transition system: one
    lock, one condition, any number of threads.  A step is one stretch of code that no other
    thread can interrupt or observe half done. */
module Monitors {
  import opened Options
  import opened Lists
  import Sema = Semaphores

  type Tid = nat

  /** Where a thread is.  `waiting` tells lock_acquire and lock_release inside cond_wait from
      plain calls. */
  datatype PC =
    | Outside
    | Acquiring(waiting: bool)      // in lock_acquire, before its sema_down
    | AcquireBlocked(waiting: bool) // asleep on the lock's semaphore
    | AcquireWoken(waiting: bool)   // unblocked, has not looked at the value again
    | Acquired(waiting: bool)       // past sema_down, holder not yet set
    | Holding                       // holds the lock
    | Releasing(waiting: bool)      // holder cleared, before sema_up
    | Enqueued                      // in cond_wait, on the waiters list, still holds the lock
    | WaitDown                      // in cond_wait, lock released, before sema_down of its own semaphore
    | WaitBlocked                   // asleep on its own semaphore
    | WaitWoken                     // unblocked from its own semaphore
    | Signalling(target: Tid, all: bool) // took `target` off the waiters list, before its sema_up
    | Broadcasting                  // at the loop test of cond_broadcast

  /** `own[t]` is the value of the semaphore on the stack of a thread t in cond_wait. */
  datatype State = State(
    holder: Option<Tid>, lockValue: nat, lockWaiters: seq<Tid>,
    condWaiters: seq<Tid>, own: map<Tid, nat>, pc: map<Tid, PC>)

  datatype Action =
    | StartAcquire(t: Tid) | LockDown(t: Tid) | SetHolder(t: Tid)
    | StartRelease(t: Tid) | LockUp(t: Tid)
    | StartWait(t: Tid) | OwnDown(t: Tid)
    | Signal(t: Tid) | StartBroadcast(t: Tid) | BroadcastTest(t: Tid) | SignalUp(t: Tid)

  /** The step that the thread is about to take is `a`. */
  predicate AtStep(s: State, a: Action) {
    a.t in s.pc &&
    var p := s.pc[a.t];
    match a
    case StartAcquire(_) => p == Outside
    case LockDown(_) => p.Acquiring? || p.AcquireWoken?
    case SetHolder(_) => p.Acquired?
    case StartRelease(_) => p == Holding || p == Enqueued
    case LockUp(_) => p.Releasing?
    case StartWait(_) => p == Holding
    case OwnDown(_) => p == WaitDown || p == WaitWoken
    case Signal(_) => p == Holding
    case StartBroadcast(_) => p == Holding
    case BroadcastTest(_) => p == Broadcasting
    case SignalUp(_) => p.Signalling?
  }

  /** The step makes sense: whoever it unblocks sleeps on the semaphore in question, and a waiter's
      semaphore still exists. */
  predicate Enabled(s: State, a: Action) {
    && AtStep(s, a)
    && (a.LockUp? && s.lockWaiters != [] ==>
          s.lockWaiters[0] in s.pc && s.pc[s.lockWaiters[0]].AcquireBlocked?)
    && (a.OwnDown? ==> a.t in s.own)
    && (a.SignalUp? ==> var u := s.pc[a.t].target; u in s.own && u in s.pc && InWait(s.pc[u]))
  }

  function Goto(s: State, t: Tid, p: PC): State { s.(pc := s.pc[t := p]) }

  /** Takes the first waiter off the condition, to be woken next. */
  function PopWaiter(s: State, t: Tid, all: bool): State
    requires s.condWaiters != []
  {
    Goto(s.(condWaiters := s.condWaiters[1..]), t, Signalling(s.condWaiters[0], all))
  }

  function Apply(s: State, a: Action): State
    requires Enabled(s, a)
  {
    var t := a.t;
    var p := s.pc[t];
    match a
    case StartAcquire(_) => Goto(s, t, Acquiring(false))
    case LockDown(_) =>
      if s.lockValue == 0 then Goto(s.(lockWaiters := s.lockWaiters + [t]), t, AcquireBlocked(p.waiting))
      else Goto(s.(lockValue := s.lockValue - 1), t, Acquired(p.waiting))
    case SetHolder(_) => Goto(s.(holder := Some(t)), t, Holding)
    case StartRelease(_) => Goto(s.(holder := None), t, Releasing(p == Enqueued))
    case LockUp(_) =>
      var w := if s.lockWaiters == [] then s
               else var u := s.lockWaiters[0];
                 Goto(s.(lockWaiters := s.lockWaiters[1..]), u, AcquireWoken(s.pc[u].waiting));
      Goto(w.(lockValue := w.lockValue + 1), t, if p.waiting then WaitDown else Outside)
    case StartWait(_) =>
      Goto(s.(own := s.own[t := 0], condWaiters := s.condWaiters + [t]), t, Enqueued)
    case OwnDown(_) =>
      if s.own[t] == 0 then Goto(s, t, WaitBlocked)
      else Goto(s.(own := s.own[t := s.own[t] - 1]), t, Acquiring(true))
    case Signal(_) => if s.condWaiters == [] then s else PopWaiter(s, t, false)
    case StartBroadcast(_) => Goto(s, t, Broadcasting)
    case BroadcastTest(_) => if s.condWaiters == [] then Goto(s, t, Holding) else PopWaiter(s, t, true)
    case SignalUp(_) =>
      var u := p.target;
      var w := if s.pc[u] == WaitBlocked then Goto(s, u, WaitWoken) else s;
      Goto(w.(own := w.own[u := w.own[u] + 1]), t, if p.all then Broadcasting else Holding)
  }

  // ---- invariants ----

  /** The threads that the holder field names. */
  predicate HoldsLock(p: PC) {
    p == Holding || p == Enqueued || p.Signalling? || p == Broadcasting
  }

  /** The threads between their sema_down and their sema_up of the lock. */
  predicate Owns(p: PC) {
    p.Acquired? || HoldsLock(p) || p.Releasing?
  }

  predicate Owner(s: State, t: Tid) { t in s.pc && Owns(s.pc[t]) }

  /** At most one thread owns the lock, and the semaphore's value is 0 exactly then. */
  ghost predicate LockInv(s: State) {
    && s.lockValue <= 1
    && (forall t, u | Owner(s, t) && Owner(s, u) :: t == u)
    && (s.lockValue == 0 <==> exists t :: Owner(s, t))
    && (forall t | t in s.pc :: s.holder == Some(t) <==> HoldsLock(s.pc[t]))
    && (s.holder.Some? ==> s.holder.value in s.pc)
  }

  predicate Hurries(s: State, t: Tid) { t in s.pc && s.pc[t].AcquireWoken? }

  /** The sleepers on the lock are its waiters, and nobody sleeps on a free lock unless a woken
      thread is on its way to it. */
  ghost predicate QueueInv(s: State) {
    && Distinct(s.lockWaiters)
    && (forall t :: t in s.lockWaiters <==> t in s.pc && s.pc[t].AcquireBlocked?)
    && (s.lockWaiters != [] && s.lockValue > 0 ==> exists t :: Hurries(s, t))
  }

  /** Past enqueueing itself and before reacquiring the lock. */
  predicate InWait(p: PC) {
    p == Enqueued || p == Releasing(true) || p == WaitDown || p == WaitBlocked || p == WaitWoken
  }

  /** The holder of the lock took t off the list and has yet to wake it. */
  predicate BeingSignalled(s: State, t: Tid) {
    s.holder.Some? && s.holder.value in s.pc && s.pc[s.holder.value].Signalling?
    && s.pc[s.holder.value].target == t
  }

  predicate Posted(s: State, t: Tid) { t in s.own && s.own[t] == 1 }

  /** A waiting thread is on the list, or being signalled, or has its semaphore posted, and exactly
      one of these; it sleeps only in the first two cases. */
  predicate Reachable(s: State, t: Tid)
    requires t in s.pc
  {
    && t in s.own && s.own[t] <= 1
    && (t in s.condWaiters || BeingSignalled(s, t) || Posted(s, t))
    && !(t in s.condWaiters && BeingSignalled(s, t))
    && !(t in s.condWaiters && Posted(s, t))
    && !(BeingSignalled(s, t) && Posted(s, t))
    && (s.pc[t] == WaitWoken ==> Posted(s, t))
    && (s.pc[t] == WaitBlocked ==> !Posted(s, t))
    && (s.pc[t] == Enqueued || s.pc[t] == Releasing(true) ==> t in s.condWaiters)
  }

  /** No lost wakeup. */
  ghost predicate WaitInv(s: State) {
    && Distinct(s.condWaiters)
    && (forall t | t in s.condWaiters || BeingSignalled(s, t) :: t in s.pc && InWait(s.pc[t]))
    && (forall t | t in s.pc && InWait(s.pc[t]) :: Reachable(s, t))
  }

  ghost predicate Inv(s: State) { LockInv(s) && QueueInv(s) && WaitInv(s) }

  /** Every thread that is signalling is the holder. */
  lemma SignallersHold(s: State, t: Tid)
    requires LockInv(s) && t in s.pc && s.pc[t].Signalling?
    ensures s.holder == Some(t)
    ensures forall x :: BeingSignalled(s, x) <==> x == s.pc[t].target
  {}

  /** Under the invariant every step that a thread is about to take makes sense. */
  lemma StepsAreEnabled(s: State, a: Action)
    requires Inv(s) && AtStep(s, a)
    ensures Enabled(s, a)
  {
    if a.LockUp? && s.lockWaiters != [] {
      assert s.lockWaiters[0] in s.lockWaiters;
    }
    if a.SignalUp? {
      SignallersHold(s, a.t);
      assert BeingSignalled(s, s.pc[a.t].target);
    }
  }

  /** Exactly the threads that are asleep have no step, and the holder can take each of its four. */
  lemma AwakeThreadsHaveSteps(s: State, t: Tid)
    requires Inv(s) && t in s.pc
    ensures (exists a: Action :: a.t == t && AtStep(s, a)) <==> !s.pc[t].AcquireBlocked? && s.pc[t] != WaitBlocked
    ensures s.pc[t] == Holding ==>
      AtStep(s, StartRelease(t)) && AtStep(s, StartWait(t)) && AtStep(s, Signal(t)) && AtStep(s, StartBroadcast(t))
  {
    if !s.pc[t].AcquireBlocked? && s.pc[t] != WaitBlocked {
      var a := NextStep(s.pc[t], t);
      assert a.t == t && AtStep(s, a);
    }
  }

  /** One of the steps that a thread that is awake can take next. */
  function NextStep(p: PC, t: Tid): Action {
    match p
    case Outside => StartAcquire(t)
    case Acquired(_) => SetHolder(t)
    case Holding => StartRelease(t)
    case Enqueued => StartRelease(t)
    case Releasing(_) => LockUp(t)
    case WaitDown => OwnDown(t)
    case WaitWoken => OwnDown(t)
    case Signalling(_, _) => SignalUp(t)
    case Broadcasting => BroadcastTest(t)
    case _ => LockDown(t)
  }

  /** A step of one thread leaves alone who owns, holds and waits among the others. */
  lemma OthersKeep(s: State, a: Action, x: Tid)
    requires Enabled(s, a) && x in s.pc && x != a.t
    ensures x in Apply(s, a).pc
    ensures Owns(Apply(s, a).pc[x]) == Owns(s.pc[x])
    ensures HoldsLock(Apply(s, a).pc[x]) == HoldsLock(s.pc[x])
    ensures InWait(Apply(s, a).pc[x]) == InWait(s.pc[x])
    ensures HoldsLock(s.pc[x]) || s.pc[x].Acquired? ==> Apply(s, a).pc[x] == s.pc[x]
  {}

  lemma SamePids(s: State, a: Action, x: Tid)
    requires Enabled(s, a)
    ensures x in Apply(s, a).pc <==> x in s.pc
  {}

  /** What a step does to the lock, and how the place of the thread that takes it changes. */
  lemma OwnStep(s: State, a: Action)
    requires Enabled(s, a)
    ensures a.t in Apply(s, a).pc
    ensures var s', t := Apply(s, a), a.t;
      || (Owner(s', t) == Owner(s, t) && s'.lockValue == s.lockValue)
      || (!Owner(s, t) && Owner(s', t) && s'.lockValue == s.lockValue - 1)
      || (Owner(s, t) && !Owner(s', t) && s'.lockValue == s.lockValue + 1)
    ensures var s', p, p' := Apply(s, a), s.pc[a.t], Apply(s, a).pc[a.t];
      || (s'.holder == s.holder && HoldsLock(p') == HoldsLock(p))
      || (s'.holder == Some(a.t) && HoldsLock(p') && p.Acquired?)
      || (s'.holder == None && HoldsLock(p) && !HoldsLock(p'))
  {}

  lemma StepKeepsLockInv(s: State, a: Action)
    requires LockInv(s) && Enabled(s, a)
    ensures LockInv(Apply(s, a))
  {
    var s' := Apply(s, a);
    var t := a.t;
    forall x | x != t
      ensures Owner(s', x) == Owner(s, x)
      ensures x in s.pc ==> HoldsLock(s'.pc[x]) == HoldsLock(s.pc[x])
    {
      SamePids(s, a, x);
      if x in s.pc { OthersKeep(s, a, x); }
    }
    OwnStep(s, a);
    hide Apply, Owns, HoldsLock;
    if s'.lockValue == 0 {
      if Owner(s, t) {
        assert Owner(s', t);
      } else if s.lockValue == 0 {
        var o :| Owner(s, o);
        assert Owner(s', o);
      } else {
        assert Owner(s', t);
      }
    }
    forall x | x in s'.pc
      ensures s'.holder == Some(x) <==> HoldsLock(s'.pc[x])
    {
      SamePids(s, a, x);
    }
  }

  lemma StepKeepsQueueInv(s: State, a: Action)
    requires LockInv(s) && QueueInv(s) && Enabled(s, a)
    ensures QueueInv(Apply(s, a))
  {
    var s' := Apply(s, a);
    var t := a.t;
    if a.LockDown? {
      AppendDistinct(s.lockWaiters, t);
    } else if a.LockUp? {
      if s.lockWaiters != [] {
        PopDistinct(s.lockWaiters);
        assert Hurries(s', s.lockWaiters[0]);
      }
    } else if s.lockWaiters != [] && s.lockValue > 0 {
      var w :| Hurries(s, w);
      assert Hurries(s', w);
    }
  }

  /** The step takes x off the list of the condition. */
  predicate Pops(s: State, a: Action, x: Tid) {
    (a.Signal? || a.BroadcastTest?) && s.condWaiters != [] && x == s.condWaiters[0]
  }

  /** What a step does to the list of the condition and to the thread being signalled. */
  lemma StepSignals(s: State, a: Action, x: Tid)
    requires LockInv(s) && Enabled(s, a)
    ensures BeingSignalled(Apply(s, a), x) <==>
      Pops(s, a, x) || (BeingSignalled(s, x) && !a.SignalUp?)
  {
    var s' := Apply(s, a);
    if s.holder.Some? && s.holder.value != a.t {
      OthersKeep(s, a, s.holder.value);
      assert Owner(s, s.holder.value) && !Owner(s, a.t);
    }
  }

  lemma StepKeepsWaiters(s: State, a: Action)
    requires LockInv(s) && WaitInv(s) && Enabled(s, a)
    ensures Distinct(Apply(s, a).condWaiters)
    ensures forall t :: t in Apply(s, a).condWaiters <==>
      (a.StartWait? && t == a.t) || (t in s.condWaiters && !Pops(s, a, t))
  {
    if a.StartWait? {
      AppendDistinct(s.condWaiters, a.t);
    } else if (a.Signal? || a.BroadcastTest?) && s.condWaiters != [] {
      PopDistinct(s.condWaiters);
    }
  }

  lemma StepKeepsOthersReachable(s: State, a: Action, x: Tid)
    requires LockInv(s) && WaitInv(s) && Enabled(s, a)
    requires x in s.pc && InWait(s.pc[x]) && x != a.t
    ensures x in Apply(s, a).pc && Reachable(Apply(s, a), x)
  {
    StepSignals(s, a, x);
    StepKeepsWaiters(s, a);
    if a.SignalUp? {
      SignallersHold(s, a.t);
    }
    assert Reachable(s, x);
    if Pops(s, a, x) {
      assert x in s.condWaiters;
      assert Owner(s, a.t) && !Owner(s, x);
    }
    hide LockInv, WaitInv, BeingSignalled, Distinct, Owns, HoldsLock;
  }

  lemma StepKeepsSelfReachable(s: State, a: Action)
    requires LockInv(s) && WaitInv(s) && Enabled(s, a)
    requires a.t in Apply(s, a).pc && InWait(Apply(s, a).pc[a.t])
    ensures Reachable(Apply(s, a), a.t)
  {
    StepSignals(s, a, a.t);
    StepKeepsWaiters(s, a);
    if InWait(s.pc[a.t]) {
      assert Reachable(s, a.t);
    }
  }

  lemma StepKeepsWaitInv(s: State, a: Action)
    requires LockInv(s) && WaitInv(s) && Enabled(s, a)
    ensures WaitInv(Apply(s, a))
  {
    var s' := Apply(s, a);
    StepKeepsWaiters(s, a);
    forall x | x in s'.condWaiters || BeingSignalled(s', x)
      ensures x in s'.pc && InWait(s'.pc[x])
    {
      StepSignals(s, a, x);
      SamePids(s, a, x);
      if x != a.t && x in s.pc { OthersKeep(s, a, x); }
    }
    forall x | x in s'.pc && InWait(s'.pc[x])
      ensures Reachable(s', x)
    {
      SamePids(s, a, x);
      if x == a.t {
        StepKeepsSelfReachable(s, a);
      } else {
        OthersKeep(s, a, x);
        StepKeepsOthersReachable(s, a, x);
      }
    }
  }

  // ---- runs ----

  function Step(s: State, a: Action): State {
    if Enabled(s, a) then Apply(s, a) else s
  }

  function Run(s: State, steps: seq<Action>): State
    decreases |steps|
  {
    if steps == [] then s else Run(Step(s, steps[0]), steps[1..])
  }

  /** lock_init and cond_init were called and every thread is still outside the monitor. */
  predicate Initial(s: State) {
    && s.holder == None && s.lockValue == 1 && s.lockWaiters == [] && s.condWaiters == []
    && forall t | t in s.pc :: s.pc[t] == Outside
  }

  lemma InitialInv(s: State)
    requires Initial(s)
    ensures Inv(s)
  {
    assert forall t :: !Owner(s, t);
  }

  lemma StepKeepsInv(s: State, a: Action)
    requires Inv(s)
    ensures Inv(Step(s, a))
  {
    if Enabled(s, a) {
      StepKeepsLockInv(s, a);
      StepKeepsQueueInv(s, a);
      StepKeepsWaitInv(s, a);
    }
  }

  lemma {:induction false} RunKeepsInv(s: State, steps: seq<Action>)
    requires Inv(s)
    ensures Inv(Run(s, steps))
    decreases |steps|
  {
    if steps != [] {
      StepKeepsInv(s, steps[0]);
      RunKeepsInv(Step(s, steps[0]), steps[1..]);
    }
  }

  /** The guarantees of the monitor, in every state that any interleaving can reach: one thread at
      most between acquire and release; a holder means a closed semaphore; a thread about to take a
      step can take it; nobody sleeps on a free lock unless a woken thread is on its way to it; and
      no wakeup of a waiting thread is lost. */
  lemma EveryRunIsSafe(s: State, steps: seq<Action>)
    requires Initial(s)
    ensures var z := Run(s, steps);
      && (forall t, u | Owner(z, t) && Owner(z, u) :: t == u)
      && (z.holder.Some? ==> z.lockValue == 0 && Owner(z, z.holder.value))
      && (forall a | AtStep(z, a) :: Enabled(z, a))
      && (z.lockWaiters != [] && z.lockValue > 0 ==> exists t :: Hurries(z, t))
      && (forall t | t in z.pc && InWait(z.pc[t]) :: Reachable(z, t))
  {
    InitialInv(s);
    RunKeepsInv(s, steps);
    var z := Run(s, steps);
    forall a | AtStep(z, a)
      ensures Enabled(z, a)
    {
      StepsAreEnabled(z, a);
    }
    hide Run, QueueInv, Reachable;
    if z.holder.Some? {
      assert Owner(z, z.holder.value);
    }
  }

  // ---- signal and broadcast ----

  /** A signal with waiters moves exactly the longest waiting one: it leaves the list, it is the one
      being signalled, and the step after posts its semaphore; every other waiting thread is where
      it was. */
  lemma SignalMovesOne(s: State, t: Tid)
    requires Inv(s) && AtStep(s, Signal(t)) && s.condWaiters != []
    ensures var u, s1 := s.condWaiters[0], Step(s, Signal(t)); var s2 := Step(s1, SignalUp(t));
      && s1.condWaiters == s.condWaiters[1..] && s2.condWaiters == s.condWaiters[1..]
      && u !in s2.condWaiters
      && (forall x :: BeingSignalled(s1, x) <==> x == u)
      && (forall x :: !BeingSignalled(s2, x))
      && Posted(s2, u) && !Posted(s, u)
      && (forall x | x in s.pc && InWait(s.pc[x]) && x != u :: Posted(s2, x) == Posted(s, x))
      && s2.pc[t] == Holding
  {
    var u := s.condWaiters[0];
    assert u in s.condWaiters && Reachable(s, u);
    PopDistinct(s.condWaiters);
    StepKeepsInv(s, Signal(t));
    var s1 := Step(s, Signal(t));
    assert AtStep(s1, SignalUp(t)) && s1.pc[t] == Signalling(u, false);
    SignallersHold(s1, t);
    SignalEnds(s1, t);
    hide Inv, Distinct, Enabled, Reachable;
    assert s1 == PopWaiter(s, t, false);
  }

  lemma SignalEnds(s: State, t: Tid)
    requires Inv(s) && AtStep(s, SignalUp(t)) && !s.pc[t].all
    ensures var u, z := s.pc[t].target, Step(s, SignalUp(t));
      && z.condWaiters == s.condWaiters && z.pc[t] == Holding && Posted(z, u)
      && (forall x :: !BeingSignalled(z, x)) && forall x | x != u :: Posted(z, x) == Posted(s, x)
  {
    StepsAreEnabled(s, SignalUp(t));
    SignallersHold(s, t);
    var u := s.pc[t].target;
    assert BeingSignalled(s, u) && Reachable(s, u);
    hide Inv, LockInv, WaitInv, QueueInv, Enabled;
  }

  /** t is inside cond_broadcast. */
  predicate InBroadcast(s: State, t: Tid) {
    t in s.pc && (s.pc[t] == Broadcasting || (s.pc[t].Signalling? && s.pc[t].all))
  }

  /** How many more steps of its own the broadcaster needs before its loop ends. */
  function BroadcastSteps(s: State, t: Tid): nat {
    2 * |s.condWaiters| + if t in s.pc && s.pc[t].Signalling? then 2 else 1
  }

  /** t is past its broadcast with the lock; the list is empty, and each thread that still waits has
      its semaphore posted and is not asleep. */
  predicate AllMoved(s: State, t: Tid) {
    && t in s.pc && s.pc[t] == Holding && s.condWaiters == []
    && forall x | x in s.pc && InWait(s.pc[x]) :: Posted(s, x) && s.pc[x] != WaitBlocked
  }

  lemma EmptyListMeansPosted(s: State, t: Tid)
    requires Inv(s) && t in s.pc && s.pc[t] == Holding && s.condWaiters == []
    ensures AllMoved(s, t)
  {
    assert s.holder == Some(t);
    forall x | x in s.pc && InWait(s.pc[x])
      ensures Posted(s, x) && s.pc[x] != WaitBlocked
    {
      assert Reachable(s, x);
    }
  }

  /** Others' steps do not disturb a broadcast: only the holder touches the list.  Its own steps
      bring it closer to the end, where the list is empty. */
  lemma BroadcastStep(s: State, a: Action, t: Tid)
    requires Inv(s) && AtStep(s, a) && InBroadcast(s, t)
    ensures var z := Step(s, a);
      if a.t != t then InBroadcast(z, t) && z.condWaiters == s.condWaiters &&
        BroadcastSteps(z, t) == BroadcastSteps(s, t)
      else if BroadcastSteps(s, t) == 1 then AllMoved(z, t)
      else InBroadcast(z, t) && BroadcastSteps(z, t) == BroadcastSteps(s, t) - 1
  {
    StepsAreEnabled(s, a);
    if a.t != t {
      OthersKeep(s, a, t);
      assert Owner(s, t) && !Owner(s, a.t);
    } else if BroadcastSteps(s, t) == 1 {
      StepKeepsInv(s, a);
      EmptyListMeansPosted(Step(s, a), t);
    }
  }

  function StepsOf(steps: seq<Action>, t: Tid): nat {
    if steps == [] then 0 else (if steps[0].t == t then 1 else 0) + StepsOf(steps[1..], t)
  }

  /** Every action of the list is the next step of its thread. */
  ghost predicate Proper(s: State, steps: seq<Action>)
    decreases |steps|
  {
    steps == [] || (AtStep(s, steps[0]) && Proper(Step(s, steps[0]), steps[1..]))
  }

  /** However it is interleaved with others, cond_broadcast ends after a number of its own steps
      fixed when it starts, and then every thread that was on the list has been moved off it. */
  lemma {:induction false} BroadcastMovesAll(s: State, steps: seq<Action>, t: Tid)
    requires Inv(s) && InBroadcast(s, t) && Proper(s, steps)
    requires steps != [] && steps[|steps| - 1].t == t && StepsOf(steps, t) == BroadcastSteps(s, t)
    ensures AllMoved(Run(s, steps), t)
    decreases |steps|
  {
    hide *;
    var a := steps[0];
    Unfold(s, steps, t);
    BroadcastStep(s, a, t);
    StepKeepsInv(s, a);
    var s1 := Step(s, a);
    if |steps| == 1 {
    } else if a.t == t && BroadcastSteps(s, t) == 1 {
      LastIsCounted(steps[1..], t);
    } else {
      BroadcastMovesAll(s1, steps[1..], t);
    }
  }

  lemma Unfold(s: State, steps: seq<Action>, t: Tid)
    requires steps != [] && Proper(s, steps)
    ensures Run(s, steps) == Run(Step(s, steps[0]), steps[1..])
    ensures AtStep(s, steps[0]) && Proper(Step(s, steps[0]), steps[1..])
    ensures StepsOf(steps, t) == (if steps[0].t == t then 1 else 0) + StepsOf(steps[1..], t)
    ensures |steps| == 1 ==> Run(s, steps) == Step(s, steps[0]) && StepsOf(steps[1..], t) == 0
    ensures |steps| > 1 ==> steps[1..][|steps| - 2] == steps[|steps| - 1]
  {
    hide Step, AtStep;
  }

  lemma {:induction false} LastIsCounted(steps: seq<Action>, t: Tid)
    requires steps != [] && steps[|steps| - 1].t == t
    ensures StepsOf(steps, t) > 0
  {
    if |steps| > 1 {
      LastIsCounted(steps[1..], t);
    }
  }

  // ---- acquiring and waiting end with the lock ----

  /** In lock_acquire, or in cond_wait, which releases the lock and acquires it again. */
  predicate Underway(p: PC) {
    InWait(p) || p.Acquiring? || p.AcquireBlocked? || p.AcquireWoken? || p.Acquired?
  }

  /** t is back from lock_acquire or cond_wait: it holds the lock, and nobody else is past its semaphore. */
  ghost predicate HasLock(s: State, t: Tid) {
    && t in s.pc && s.pc[t] == Holding && s.holder == Some(t) && s.lockValue == 0
    && forall u | Owner(s, u) :: u == t
  }

  lemma StepLeavesUnderway(s: State, a: Action, t: Tid)
    requires Inv(s) && t in s.pc && Underway(s.pc[t])
    ensures t in Step(s, a).pc && (Underway(Step(s, a).pc[t]) || HasLock(Step(s, a), t))
  {
    StepKeepsInv(s, a);
    if Enabled(s, a) {
      StepToHolding(s, a, t);
    }
    hide Inv, Apply, Enabled, Underway;
    if !Underway(Step(s, a).pc[t]) {
      HolderHasLock(Step(s, a), t);
    }
  }

  lemma StepToHolding(s: State, a: Action, t: Tid)
    requires Enabled(s, a) && t in s.pc && Underway(s.pc[t])
    ensures t in Apply(s, a).pc
    ensures Underway(Apply(s, a).pc[t]) || (Apply(s, a).pc[t] == Holding && Apply(s, a).holder == Some(t))
  {}

  lemma HolderHasLock(s: State, t: Tid)
    requires Inv(s) && t in s.pc && s.pc[t] == Holding && s.holder == Some(t)
    ensures HasLock(s, t)
  {
    hide QueueInv, WaitInv;
    assert Owner(s, t);
  }

  /** Whoever starts lock_acquire or cond_wait is in it until it has the lock, however it is interleaved with
      others: neither comes back without. */
  lemma {:induction false} EndsWithTheLock(s: State, steps: seq<Action>, t: Tid)
    requires Inv(s) && t in s.pc && Underway(s.pc[t])
    ensures
      || (t in Run(s, steps).pc && Underway(Run(s, steps).pc[t]))
      || exists k :: 0 <= k <= |steps| && HasLock(Run(s, steps[..k]), t)
    decreases |steps|
  {
    hide Inv, Step, HasLock, Underway;
    if steps != [] {
      StepLeavesUnderway(s, steps[0], t);
      StepKeepsInv(s, steps[0]);
      var z := Step(s, steps[0]);
      if Underway(z.pc[t]) {
        EndsWithTheLock(z, steps[1..], t);
        if k :| 0 <= k <= |steps[1..]| && HasLock(Run(z, steps[1..][..k]), t) {
          RunOfPrefix(s, steps, k);
          assert HasLock(Run(s, steps[..k + 1]), t);
        }
      } else {
        RunOfPrefix(s, steps, 0);
        assert HasLock(Run(s, steps[..1]), t);
      }
    }
  }

  lemma OutsideIsNotUnderway()
    ensures !Underway(Outside)
  {}

  lemma RunOfPrefix(s: State, steps: seq<Action>, k: nat)
    requires k < |steps|
    ensures Run(s, steps[..k + 1]) == Run(Step(s, steps[0]), steps[1..][..k])
  {
    assert steps[..k + 1][1..] == steps[1..][..k];
  }

  /** In a run from the start: a thread that has called cond_wait is outside the monitor again only after it
      has held the lock again. */
  lemma WaitReturnsWithTheLock(s: State, before: seq<Action>, t: Tid, after: seq<Action>)
    requires Initial(s) && AtStep(Run(s, before), StartWait(t))
    requires var z := Step(Run(s, before), StartWait(t));
      t in Run(z, after).pc && Run(z, after).pc[t] == Outside
    ensures exists k ::
      0 <= k <= |after| && HasLock(Run(Step(Run(s, before), StartWait(t)), after[..k]), t)
  {
    InitialInv(s);
    RunKeepsInv(s, before);
    var z := Run(s, before);
    StepsAreEnabled(z, StartWait(t));
    StepKeepsInv(z, StartWait(t));
    assert t in Step(z, StartWait(t)).pc && Underway(Step(z, StartWait(t)).pc[t]);
    hide *;
    EndsWithTheLock(Step(z, StartWait(t)), after, t);
    OutsideIsNotUnderway();
  }

  /** The same for lock_acquire. */
  lemma AcquireReturnsWithTheLock(s: State, before: seq<Action>, t: Tid, after: seq<Action>)
    requires Initial(s) && AtStep(Run(s, before), StartAcquire(t))
    requires var z := Step(Run(s, before), StartAcquire(t));
      t in Run(z, after).pc && Run(z, after).pc[t] == Outside
    ensures exists k ::
      0 <= k <= |after| && HasLock(Run(Step(Run(s, before), StartAcquire(t)), after[..k]), t)
  {
    InitialInv(s);
    RunKeepsInv(s, before);
    var z := Run(s, before);
    StepsAreEnabled(z, StartAcquire(t));
    StepKeepsInv(z, StartAcquire(t));
    assert t in Step(z, StartAcquire(t)).pc && Underway(Step(z, StartAcquire(t)).pc[t]);
    hide *;
    EndsWithTheLock(Step(z, StartAcquire(t)), after, t);
    OutsideIsNotUnderway();
  }

  // ---- the order of waiting threads ----

  predicate IsPop(s: State, a: Action) { Enabled(s, a) && (a.Signal? || a.BroadcastTest?) && s.condWaiters != [] }

  function PopCount(s: State, steps: seq<Action>): nat
    decreases |steps|
  {
    if steps == [] then 0 else (if IsPop(s, steps[0]) then 1 else 0) + PopCount(Step(s, steps[0]), steps[1..])
  }

  /** Threads are signalled in the order in which they began to wait: whatever else happens, the k-th on the
      list stays in line for the next k signals, and the one after those is for it. */
  lemma {:induction false} SignalledInOrder(s: State, steps: seq<Action>, k: nat)
    requires k < |s.condWaiters| && PopCount(s, steps) <= k
    ensures var z, m := Run(s, steps), k - PopCount(s, steps);
      && m < |z.condWaiters| && z.condWaiters[m] == s.condWaiters[k]
      && (m == 0 ==> forall a | IsPop(z, a) ::
            Step(z, a).pc[a.t].Signalling? && Step(z, a).pc[a.t].target == s.condWaiters[k])
    decreases |steps|
  {
    if steps != [] {
      SignalledInOrder(Step(s, steps[0]), steps[1..], if IsPop(s, steps[0]) then k - 1 else k);
    }
  }

  /** The semaphore of the lock, without its counters. */
  function LockSema(s: State): Sema.Sema {
    Sema.Sema(s.lockValue, s.lockWaiters, set t | t in s.pc && s.pc[t].AcquireWoken?, 0, 0)
  }

  /** The lock is the semaphore of module Semaphores: each step is one of its steps or none, so that what is
      proved there, and the order in which its waiters are woken, holds of locks. */
  lemma LockIsASemaphore(s: State, a: Action)
    requires Inv(s) && Enabled(s, a)
    ensures var z, m := LockSema(Step(s, a)), LockSema(s);
      match a
      case LockDown(t) =>
        var step := if s.pc[t].AcquireWoken? then Sema.Recheck(t) else Sema.Down(t);
        Sema.Enabled(m, step) && z == Sema.Apply(m, step).(downs := 0, ups := 0)
      case LockUp(_) => z == Sema.Apply(m, Sema.Up).(downs := 0, ups := 0)
      case _ => z == m
  {
    WokenByStep(s, a);
    hide Inv, Reachable;
    var z, woken := LockSema(Step(s, a)), LockSema(s).woken;
    if a.LockDown? {
      assert z.woken == woken - {a.t};
    } else if a.LockUp? && s.lockWaiters != [] {
      assert z.woken == woken + {s.lockWaiters[0]};
    } else {
      assert z.woken == woken;
    }
  }

  lemma WokenByStep(s: State, a: Action)
    requires Inv(s) && Enabled(s, a)
    ensures forall x :: x in LockSema(Step(s, a)).woken <==>
      if a.LockDown? then x in LockSema(s).woken && x != a.t
      else x in LockSema(s).woken || (a.LockUp? && s.lockWaiters != [] && x == s.lockWaiters[0])
    ensures a.LockDown? ==> a.t !in s.lockWaiters
  {
    hide LockInv, WaitInv;
    forall x
      ensures x in LockSema(Step(s, a)).woken <==>
        if a.LockDown? then x in LockSema(s).woken && x != a.t
        else x in LockSema(s).woken || (a.LockUp? && s.lockWaiters != [] && x == s.lockWaiters[0])
    {
      SamePids(s, a, x);
    }
  }
}
