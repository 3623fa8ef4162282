/** Priority donation (threads/synch.c of project 1): passing a priority along a chain of lock holders, and
    giving it up on release. */
module Donation {
  import opened Lists
  import opened Machine

  class Thread {
    var priority: int
    var origPriority: int
    var blockingLock: Lock?
    var acquiredLocks: seq<Lock>

    constructor (priority: int)
      ensures this.priority == priority && origPriority == priority && blockingLock == null && acquiredLocks == []
    {
      this.priority, origPriority := priority, priority;
      blockingLock, acquiredLocks := null, [];
    }
  }

  class Lock {
    var holder: Thread?
    var value: nat
    /** The waiters of its semaphore. */
    var waiters: seq<Thread>

    /** lock_init. */
    constructor ()
      ensures holder == null && value == 1 && waiters == []
    {
      holder, value, waiters := null, 1, [];
    }
  }

  // ---- donation along a chain ----

  /** How lock_propagate_donation ends: its loop ends; or it goes round for ever, at a holder whose
      priority is not below; or it follows the null holder of a lock. */
  datatype Outcome = Done | Spins | NullHolder

  /** Who waits for what and who holds what, with the priorities, at one moment. */
  datatype System = System(blockedOn: map<Thread, Lock?>, holder: map<Lock, Thread?>, priority: map<Thread, int>)

  /** The system when `curr` waits for `lock`. */
  ghost function View(threads: set<Thread>, locks: set<Lock>, curr: Thread, lock: Lock): (s: System)
    reads threads`blockingLock, threads`priority, locks`holder
    ensures s.priority.Keys == s.blockedOn.Keys == threads && s.holder.Keys == locks
    ensures AllKnown(threads, locks) && lock in locks ==> Closed(s)
  {
    System(map t | t in threads :: if t == curr then lock else t.blockingLock,
           map l | l in locks :: l.holder,
           map t | t in threads :: t.priority)
  }

  /** The threads and locks that others lead to are among these. */
  ghost predicate AllKnown(threads: set<Thread>, locks: set<Lock>)
    reads threads`blockingLock, locks`holder
  {
    && (forall t | t in threads :: t.blockingLock == null || t.blockingLock in locks)
    && (forall l | l in locks :: l.holder == null || l.holder in threads)
  }

  ghost predicate Closed(s: System) {
    && s.priority.Keys == s.blockedOn.Keys
    && (forall t | t in s.blockedOn :: s.blockedOn[t] == null || s.blockedOn[t] in s.holder)
    && (forall l | l in s.holder :: s.holder[l] == null || s.holder[l] in s.blockedOn)
  }

  /** The holder that the loop goes to after t, if there is one. */
  ghost function NextHolder(s: System, t: Thread): Thread?
    requires Closed(s) && t in s.blockedOn
  {
    if s.blockedOn[t] == null then null else s.holder[s.blockedOn[t]]
  }

  /** Each thread of the chain is the holder of the lock that blocks the one before, from `first` on. */
  ghost predicate Follows(c: seq<Thread>, s: System, first: Thread)
    requires Closed(s)
  {
    && |c| > 0 && c[0] == first && (forall k | 0 <= k < |c| :: c[k] in s.blockedOn)
    && forall k | 0 <= k < |c| - 1 :: NextHolder(s, c[k]) == c[k + 1]
  }

  ghost predicate AllLower(c: seq<Thread>, s: System, donated: int)
    requires Closed(s) && forall k | 0 <= k < |c| :: c[k] in s.blockedOn
  {
    forall k | 0 < k < |c| :: s.priority[c[k]] < donated
  }

  /** A chain that ends with a thread that is not blocked, without repetitions, whose later threads all have
      a lower priority than the one passed on. */
  ghost predicate GoodChain(c: seq<Thread>, s: System, first: Thread, donated: int)
    requires Closed(s)
  {
    Follows(c, s, first) && Distinct(c) && s.blockedOn[c[|c| - 1]] == null && AllLower(c, s, donated)
  }

  /** Two chains agree as far as both go. */
  lemma {:induction false} ChainsAgree(c: seq<Thread>, d: seq<Thread>, s: System, first: Thread, k: nat)
    requires Closed(s) && Follows(c, s, first) && Follows(d, s, first) && k < |c| && k < |d|
    ensures c[k] == d[k]
  {
    if k > 0 {
      ChainsAgree(c, d, s, first, k - 1);
      assert NextHolder(s, c[k - 1]) == c[k - 1 + 1] && NextHolder(s, d[k - 1]) == d[k - 1 + 1];
    }
  }

  /** Why the loop left its last thread. */
  ghost predicate Ended(c: seq<Thread>, outcome: Outcome, s: System, donated: int)
    requires Closed(s) && |c| > 0 && c[|c| - 1] in s.blockedOn
  {
    var last := c[|c| - 1];
    match outcome
    case Done => s.blockedOn[last] == null
    case NullHolder => s.blockedOn[last] != null && NextHolder(s, last) == null
    case Spins =>
      && NextHolder(s, last) != null
      && (NextHolder(s, last) in c || s.priority[NextHolder(s, last)] >= donated)
  }

  /** The loop ends exactly if there is a good chain. */
  lemma DoneExactlyOnGoodChains(c: seq<Thread>, outcome: Outcome, s: System, first: Thread, donated: int)
    requires Closed(s) && Follows(c, s, first) && Distinct(c) && AllLower(c, s, donated) &&
      Ended(c, outcome, s, donated)
    ensures outcome == Done <==> exists d :: GoodChain(d, s, first, donated)
  {
    if outcome == Done {
      assert GoodChain(c, s, first, donated);
    } else {
      forall d
        ensures !GoodChain(d, s, first, donated)
      {
        if Follows(d, s, first) {
          NotGood(c, d, outcome, s, first, donated);
        }
      }
    }
  }

  lemma NotGood(c: seq<Thread>, d: seq<Thread>, outcome: Outcome, s: System, first: Thread, donated: int)
    requires Closed(s) && Follows(c, s, first) && Ended(c, outcome, s, donated) && outcome != Done
    requires Follows(d, s, first)
    ensures !GoodChain(d, s, first, donated)
  {
    forall k | 0 <= k < |c| && k < |d|
      ensures c[k] == d[k]
    {
      ChainsAgree(c, d, s, first, k);
    }
    if |d| < |c| {
      assert NextHolder(s, c[|d| - 1]) == c[|d| - 1 + 1];
    } else if |c| < |d| {
      assert NextHolder(s, d[|c| - 1]) == d[|c| - 1 + 1];
      assert d[|c|] in c ==> !Distinct(d);
      assert s.priority[d[|c|]] >= donated ==> !AllLower(d, s, donated);
    }
  }

  /** lock_propagate_donation by the running thread `curr`.  A lock without holder changes nothing.  Otherwise
      the higher of the two priorities goes to the holder, and along the chain as far as priorities
      are lower; all other threads keep theirs.  The loop ends exactly if the chain is good. */
  method PropagateDonation(curr: Thread, lock: Lock, ghost threads: set<Thread>, ghost locks: set<Lock>)
    returns (outcome: Outcome, ghost chain: seq<Thread>)
    requires curr in threads && lock in locks && AllKnown(threads, locks)
    modifies threads`priority, curr`blockingLock
    ensures lock.holder == null ==> outcome == Done && chain == [] && curr.blockingLock == old(curr.blockingLock)
    ensures lock.holder != null ==>
      var s, donated := old(View(threads, locks, curr, lock)), Max(old(curr.priority), old(lock.holder.priority));
      && curr.blockingLock == lock && Follows(chain, s, lock.holder) && Distinct(chain) && AllLower(chain, s, donated)
      && Ended(chain, outcome, s, donated)
      && (outcome == Done <==> exists c :: GoodChain(c, s, lock.holder, donated))
      && forall t | t in chain :: t.priority == donated
    ensures forall t | t in threads && t !in chain :: t.priority == old(t.priority)
    ensures AllKnown(threads, locks)
  {
    hide Follows, AllLower, Ended, GoodChain, Distinct;
    chain := [];
    if lock.holder == null {
      return Done, [];
    }
    ghost var s := View(threads, locks, curr, lock);
    var h := lock.holder;
    assert s.holder[lock] == h && h in threads;
    ghost var donated := Max(curr.priority, h.priority);
    if curr.priority > h.priority {
      h.priority := curr.priority;
    }
    curr.blockingLock := lock;
    StartOfChain(s, h, donated);
    outcome, chain := Donate(h, s, threads, locks, donated);
    DoneExactlyOnGoodChains(chain, outcome, s, h, donated);
  }

  lemma StartOfChain(s: System, h: Thread, donated: int)
    requires Closed(s) && h in s.blockedOn
    ensures Follows([h], s, h) && Distinct([h]) && AllLower([h], s, donated)
  {}

  lemma ExtendChain(c: seq<Thread>, s: System, first: Thread, donated: int, t: Thread)
    requires Closed(s) && Follows(c, s, first) && Distinct(c) && AllLower(c, s, donated)
    requires NextHolder(s, c[|c| - 1]) == t && t !in c && s.priority[t] < donated
    ensures Follows(c + [t], s, first) && Distinct(c + [t]) && AllLower(c + [t], s, donated)
  {
    AppendDistinct(c, t);
    hide Distinct, NextHolder;
  }

  /** The system has not changed but for the priorities of a chain. */
  ghost predicate SameBut(s: System, threads: set<Thread>, locks: set<Lock>, chain: seq<Thread>, donated: int)
    requires threads <= s.blockedOn.Keys && threads <= s.priority.Keys && locks <= s.holder.Keys
    reads threads`blockingLock, threads`priority, locks`holder
  {
    && (forall t | t in threads :: t.blockingLock == s.blockedOn[t])
    && (forall l | l in locks :: l.holder == s.holder[l])
    && (forall t | t in threads :: t.priority == if t in chain then donated else s.priority[t])
  }

  /** The loop of lock_propagate_donation, from the holder on. */
  method Donate(h: Thread, ghost s: System, ghost threads: set<Thread>, ghost locks: set<Lock>, ghost donated: int)
    returns (outcome: Outcome, ghost chain: seq<Thread>)
    requires Closed(s) && threads == s.blockedOn.Keys == s.priority.Keys && locks == s.holder.Keys && h in threads
    requires SameBut(s, threads, locks, [h], donated)
    requires Follows([h], s, h) && Distinct([h]) && AllLower([h], s, donated)
    modifies threads`priority
    ensures SameBut(s, threads, locks, chain, donated) && forall t | t in chain :: t in threads
    ensures Follows(chain, s, h) && Distinct(chain) && AllLower(chain, s, donated) && Ended(chain, outcome, s, donated)
  {
    hide Distinct, AllLower, Follows, Ended, Closed, NextHolder, SameBut;
    var next: Thread := h;
    chain := [h];
    outcome := Done;
    ghost var rest := threads - {h};
    SameButAt(s, threads, locks, chain, donated, next);
    while next.blockingLock != null
      invariant next in threads && next.blockingLock == s.blockedOn[next] && next.priority == donated
      invariant outcome == Done && Follows(chain, s, h) && |chain| > 0 && next == chain[|chain| - 1] && Distinct(chain)
      invariant forall t | t in chain :: t in threads
      invariant forall t :: t in rest <==> t in threads && t !in chain
      invariant AllLower(chain, s, donated) && SameBut(s, threads, locks, chain, donated)
      decreases |rest|
    {
      var l := next.blockingLock;
      AtLast(s, next);
      HolderIs(s, threads, locks, chain, donated, l);
      if l.holder == null {
        outcome := NullHolder;
        break;
      }
      SameButAt(s, threads, locks, chain, donated, l.holder);
      if next.priority > l.holder.priority {
        SameButAll(s, threads, locks, chain, donated);
        l.holder.priority := next.priority;
        next := l.holder;
        SameButAll(s, threads, locks, chain + [next], donated);
        ExtendChain(chain, s, h, donated, next);
        chain := chain + [next];
        rest := rest - {next};
      } else {
        outcome := Spins;
        break;
      }
    }
    WhyEnded(s, chain, outcome, donated);
  }

  lemma SameButAt(s: System, threads: set<Thread>, locks: set<Lock>, chain: seq<Thread>, donated: int, t: Thread)
    requires threads <= s.blockedOn.Keys && threads <= s.priority.Keys && locks <= s.holder.Keys && t in threads
    requires SameBut(s, threads, locks, chain, donated)
    ensures t.blockingLock == s.blockedOn[t] && t.priority == if t in chain then donated else s.priority[t]
  {}

  lemma HolderIs(s: System, threads: set<Thread>, locks: set<Lock>, chain: seq<Thread>, donated: int, l: Lock)
    requires threads <= s.blockedOn.Keys && threads <= s.priority.Keys && locks <= s.holder.Keys && l in locks
    requires SameBut(s, threads, locks, chain, donated)
    ensures l.holder == s.holder[l]
  {}

  lemma SameButAll(s: System, threads: set<Thread>, locks: set<Lock>, chain: seq<Thread>, donated: int)
    requires threads <= s.blockedOn.Keys && threads <= s.priority.Keys && locks <= s.holder.Keys
    ensures SameBut(s, threads, locks, chain, donated) <==>
      && (forall t | t in threads :: t.blockingLock == s.blockedOn[t])
      && (forall l | l in locks :: l.holder == s.holder[l])
      && (forall t | t in threads :: t.priority == if t in chain then donated else s.priority[t])
  {}

  /** What the loop sees at a thread. */
  lemma AtLast(s: System, t: Thread)
    requires Closed(s) && t in s.blockedOn
    ensures s.blockedOn[t] == null || (s.blockedOn[t] in s.holder && NextHolder(s, t) == s.holder[s.blockedOn[t]])
    ensures NextHolder(s, t) == null || NextHolder(s, t) in s.blockedOn
  {}

  lemma WhyEnded(s: System, chain: seq<Thread>, outcome: Outcome, donated: int)
    requires Closed(s) && |chain| > 0 && chain[|chain| - 1] in s.blockedOn
    requires var last := chain[|chain| - 1];
      match outcome
      case Done => s.blockedOn[last] == null
      case NullHolder => s.blockedOn[last] != null && s.holder[s.blockedOn[last]] == null
      case Spins =>
        && s.blockedOn[last] != null && s.holder[s.blockedOn[last]] != null
        && (s.holder[s.blockedOn[last]] in chain || s.priority[s.holder[s.blockedOn[last]]] >= donated)
    ensures Ended(chain, outcome, s, donated)
  {}

  // ---- waiters in order of priority ----

  ghost predicate Sorted(ws: seq<Thread>)
    reads ws`priority
  {
    forall i, j | 0 <= i < j < |ws| :: ws[i].priority >= ws[j].priority
  }

  /** list_insert_ordered by priority: behind all waiters of at least the same priority. */
  method InsertOrdered(ws: seq<Thread>, t: Thread) returns (r: seq<Thread>)
    ensures multiset(r) == multiset(ws) + multiset{t}
    ensures Sorted(ws) ==> Sorted(r)
    ensures exists k | 0 <= k <= |ws| ::
      && r == ws[..k] + [t] + ws[k..]
      && (forall i | 0 <= i < k :: ws[i].priority >= t.priority) && (k < |ws| ==> t.priority > ws[k].priority)
  {
    var k := 0;
    while k < |ws| && !(t.priority > ws[k].priority)
      invariant k <= |ws| && forall i | 0 <= i < k :: ws[i].priority >= t.priority
    {
      k := k + 1;
    }
    r := ws[..k] + [t] + ws[k..];
    assert multiset(r) == multiset(ws) + multiset{t} by {
      assert ws == ws[..k] + ws[k..];
    }
    if Sorted(ws) {
      InsertKeepsSorted(ws, k, t);
    }
  }

  lemma InsertKeepsSorted(ws: seq<Thread>, k: nat, t: Thread)
    requires k <= |ws| && Sorted(ws) && (forall i | 0 <= i < k :: ws[i].priority >= t.priority)
    requires k < |ws| ==> t.priority > ws[k].priority
    ensures Sorted(ws[..k] + [t] + ws[k..])
  {
    var r := ws[..k] + [t] + ws[k..];
    forall i, j | 0 <= i < j < |r|
      ensures r[i].priority >= r[j].priority
    {
      assert r[j] == if j < k then ws[j] else if j == k then t else ws[j - 1];
      assert r[i] == if i < k then ws[i] else if i == k then t else ws[i - 1];
    }
  }

  /** list_sort by priority. */
  method SortByPriority(ws: seq<Thread>) returns (r: seq<Thread>)
    ensures multiset(r) == multiset(ws) && Sorted(r)
  {
    r := [];
    var i := 0;
    while i < |ws|
      invariant i <= |ws| && Sorted(r) && multiset(r) == multiset(ws[..i])
    {
      r := InsertOrdered(r, ws[i]);
      assert ws[..i + 1] == ws[..i] + [ws[i]];
      i := i + 1;
    }
    assert ws[..i] == ws;
  }

  /** sema_up: sorts the waiters, wakes one of the highest priority, and lets it in. */
  method SemaUp(lock: Lock) returns (woken: Thread?)
    modifies lock`value, lock`waiters
    ensures lock.value == old(lock.value) + 1 && Sorted(lock.waiters)
    ensures woken == null <==> old(lock.waiters) == []
    ensures woken == null ==> lock.waiters == []
    ensures woken != null ==> multiset(old(lock.waiters)) == multiset(lock.waiters) + multiset{woken}
    ensures woken != null ==> forall t | t in old(lock.waiters) :: t.priority <= woken.priority
  {
    lock.value := lock.value + 1;
    var sorted := SortByPriority(lock.waiters);
    lock.waiters := sorted;
    woken := null;
    if |sorted| > 0 {
      woken := sorted[0];
      lock.waiters := sorted[1..];
      assert sorted == [woken] + sorted[1..];
      forall t | t in old(lock.waiters)
        ensures t.priority <= woken.priority
      {
        assert t in multiset(sorted);
      }
    } else {
      assert |multiset(old(lock.waiters))| == 0;
    }
  }

  // ---- giving a donation up ----

  /** m is the highest of the thread's own priority and those of these waiters. */
  ghost predicate IsHighest(m: int, own: int, waiters: set<Thread>)
    reads waiters`priority
  {
    && m >= own && (forall t | t in waiters :: m >= t.priority)
    && (m == own || exists t :: t in waiters && m == t.priority)
  }

  /** The first waiters of some locks, and all of them. */
  ghost function Fronts(locks: seq<Lock>): set<Thread>
    reads (set l | l in locks)`waiters
  {
    set l | l in locks && l.waiters != [] :: l.waiters[0]
  }

  ghost function AllWaiters(locks: seq<Lock>): set<Thread>
    reads (set l | l in locks)`waiters
  {
    set l, t | l in locks && t in l.waiters :: t
  }

  /** Two priorities that are both the highest of the same ones are the same. */
  lemma HighestIsUnique(m: int, n: int, own: int, waiters: set<Thread>)
    requires IsHighest(m, own, waiters) && IsHighest(n, own, waiters)
    ensures m == n
  {}

  /** No waiter of these locks outranks both the thread itself and the first waiter of every lock. */
  ghost predicate FrontsCover(own: int, locks: seq<Lock>)
    reads (set l | l in locks)`waiters, AllWaiters(locks)`priority, Fronts(locks)`priority
  {
    forall t | t in AllWaiters(locks) ::
      t.priority <= own || exists f :: f in Fronts(locks) && t.priority <= f.priority
  }

  /** The highest of the first waiters is the highest of all exactly if no other waiter outranks them. */
  lemma FrontsSufficeExactly(m: int, own: int, locks: seq<Lock>)
    requires IsHighest(m, own, Fronts(locks))
    ensures IsHighest(m, own, AllWaiters(locks)) <==> FrontsCover(own, locks)
  {
    forall f | f in Fronts(locks)
      ensures f in AllWaiters(locks)
    {
      var l :| l in locks && l.waiters != [] && l.waiters[0] == f;
      assert f in l.waiters;
    }
    if IsHighest(m, own, AllWaiters(locks)) {
      forall t | t in AllWaiters(locks)
        ensures t.priority <= own || exists f :: f in Fronts(locks) && t.priority <= f.priority
      {
        assert t.priority <= m;
      }
    }
  }

  /** Sorted waiters are enough for that. */
  lemma SortedIsCovered(own: int, locks: seq<Lock>)
    requires forall l | l in locks :: Sorted(l.waiters)
    ensures FrontsCover(own, locks)
  {
    forall t | t in AllWaiters(locks)
      ensures exists f :: f in Fronts(locks) && t.priority <= f.priority
    {
      var l :| l in locks && t in l.waiters;
      var k :| 0 <= k < |l.waiters| && l.waiters[k] == t;
      assert l.waiters[0] in Fronts(locks);
      assert k > 0 ==> l.waiters[0].priority >= l.waiters[k].priority;
    }
  }

  /** The part of lock_release that gives donated priorities up: of the locks that the thread still holds, the
      highest first waiter counts, or its own priority. */
  method GiveUpDonations(curr: Thread) returns (ghost fronts: set<Thread>, ghost all: set<Thread>)
    requires forall l | l in curr.acquiredLocks :: curr !in l.waiters
    modifies curr`priority
    ensures fronts == Fronts(curr.acquiredLocks) && all == AllWaiters(curr.acquiredLocks)
    ensures IsHighest(curr.priority, curr.origPriority, fronts)
    ensures IsHighest(curr.priority, curr.origPriority, all) <==> FrontsCover(curr.origPriority, curr.acquiredLocks)
  {
    hide IsHighest, Fronts, AllWaiters, FrontsCover;
    var highest := curr.origPriority;
    var i := 0;
    NoFronts(highest);
    assert curr.acquiredLocks[..0] == [];
    while i < |curr.acquiredLocks|
      invariant i <= |curr.acquiredLocks|
      invariant IsHighest(highest, curr.origPriority, Fronts(curr.acquiredLocks[..i]))
    {
      var l := curr.acquiredLocks[i];
      OneMoreFront(curr.acquiredLocks, i, highest, curr.origPriority);
      if l.waiters != [] {
        if l.waiters[0].priority > highest {
          highest := l.waiters[0].priority;
        }
      }
      i := i + 1;
    }
    assert curr.acquiredLocks[..i] == curr.acquiredLocks;
    FrontsAreWaiters(curr.acquiredLocks);
    curr.priority := highest;
    fronts, all := Fronts(curr.acquiredLocks), AllWaiters(curr.acquiredLocks);
    FrontsSufficeExactly(curr.priority, curr.origPriority, curr.acquiredLocks);
  }

  lemma NoFronts(own: int)
    ensures IsHighest(own, own, Fronts([]))
  {}

  lemma OneMoreFront(locks: seq<Lock>, i: nat, m: int, own: int)
    requires i < |locks| && IsHighest(m, own, Fronts(locks[..i]))
    ensures var ws := locks[i].waiters;
      IsHighest(if ws != [] && ws[0].priority > m then ws[0].priority else m, own, Fronts(locks[..i + 1]))
  {
    assert locks[..i + 1] == locks[..i] + [locks[i]];
    assert Fronts(locks[..i + 1]) == Fronts(locks[..i]) + if locks[i].waiters != [] then {locks[i].waiters[0]} else {};
  }

  lemma FrontsAreWaiters(locks: seq<Lock>)
    ensures forall t | t in Fronts(locks) :: exists l :: l in locks && t in l.waiters
  {}

  // ---- taking and releasing a lock ----

  /** The list of a thread names exactly the locks that it holds, each once. */
  ghost predicate HoldersOk(threads: set<Thread>, locks: set<Lock>)
    reads threads`acquiredLocks, locks`holder
  {
    && (forall t | t in threads :: Distinct(t.acquiredLocks))
    && (forall t, l | t in threads && l in locks :: l in t.acquiredLocks <==> l.holder == t)
  }

  /** One pass of the loop in sema_down on the semaphore of a lock; true means that the thread now sleeps, in
      line behind all waiters of at least its priority. */
  method DownPass(curr: Thread, lock: Lock) returns (blocked: bool)
    modifies lock`value, lock`waiters
    ensures blocked <==> old(lock.value) == 0
    ensures lock.value == if blocked then 0 else old(lock.value) - 1
    ensures !blocked ==> lock.waiters == old(lock.waiters)
    ensures blocked ==> multiset(lock.waiters) == multiset(old(lock.waiters)) + multiset{curr}
    ensures blocked && old(Sorted(lock.waiters)) ==> Sorted(lock.waiters)
  {
    if lock.value == 0 {
      lock.waiters := InsertOrdered(lock.waiters, curr);
      return true;
    }
    lock.value := lock.value - 1;
    return false;
  }

  /** The end of lock_acquire, past its sema_down, which lets a thread in only when the holder has gone. */
  method TakeLock(curr: Thread, lock: Lock, ghost threads: set<Thread>, ghost locks: set<Lock>)
    requires curr in threads && lock in locks && HoldersOk(threads, locks) && lock.holder == null
    modifies curr`blockingLock, curr`acquiredLocks, lock`holder
    ensures HoldersOk(threads, locks)
    ensures curr.blockingLock == null && lock.holder == curr && curr.acquiredLocks == old(curr.acquiredLocks) + [lock]
  {
    AppendDistinct(curr.acquiredLocks, lock);
    curr.blockingLock := null;
    lock.holder := curr;
    curr.acquiredLocks := curr.acquiredLocks + [lock];
  }

  /** The first part of lock_release. */
  method DropLock(curr: Thread, lock: Lock, ghost threads: set<Thread>, ghost locks: set<Lock>)
    requires curr in threads && lock in locks && HoldersOk(threads, locks) && lock.holder == curr
    modifies curr`acquiredLocks, lock`holder
    ensures HoldersOk(threads, locks)
    ensures lock.holder == null && curr.acquiredLocks == Remove(old(curr.acquiredLocks), lock)
    ensures forall l :: l in curr.acquiredLocks <==> l in old(curr.acquiredLocks) && l != lock
  {
    RemoveFromDistinct(curr.acquiredLocks, lock);
    lock.holder := null;
    curr.acquiredLocks := Remove(curr.acquiredLocks, lock);
  }

  /** lock_release by the holder.  The released priority is that of the highest waiter on the locks still held,
      or the thread's own, exactly if the first waiters of these locks are not outranked by others. */
  method LockRelease(curr: Thread, lock: Lock, ghost threads: set<Thread>, ghost locks: set<Lock>)
    returns (woken: Thread?)
    requires curr in threads && lock in locks && HoldersOk(threads, locks) && lock.holder == curr
    requires curr !in lock.waiters && forall l | l in curr.acquiredLocks :: curr !in l.waiters
    modifies lock, curr`acquiredLocks, curr`priority
    ensures HoldersOk(threads, locks) && (old(AllKnown(threads, locks)) ==> AllKnown(threads, locks))
    ensures lock.holder == null && lock.value == old(lock.value) + 1
    ensures curr.acquiredLocks == Remove(old(curr.acquiredLocks), lock)
    ensures IsHighest(curr.priority, curr.origPriority, Fronts(curr.acquiredLocks))
    ensures IsHighest(curr.priority, curr.origPriority, AllWaiters(curr.acquiredLocks)) <==>
      old(FrontsCover(curr.origPriority, Remove(curr.acquiredLocks, lock)))
    ensures (forall l | l in curr.acquiredLocks :: l.waiters == []) ==> curr.priority == curr.origPriority
    ensures Sorted(lock.waiters) && (woken == null <==> old(lock.waiters) == [])
    ensures woken == null ==> lock.waiters == []
    ensures woken != null ==> multiset(old(lock.waiters)) == multiset(lock.waiters) + multiset{woken}
    ensures woken != null ==> forall t | t in old(lock.waiters) :: t.priority <= woken.priority
  {
    hide IsHighest, Sorted, Distinct, Remove, Fronts, AllWaiters, FrontsCover, HoldersOk;
    label before:
    DropLock(curr, lock, threads, locks);
    ghost var fronts, all := GiveUpDonations(curr);
    if forall l | l in curr.acquiredLocks :: l.waiters == [] {
      NobodyDonates(curr.acquiredLocks, curr.priority, curr.origPriority);
    }
    assert lock !in curr.acquiredLocks;
    SameWaiters@before(curr.acquiredLocks, curr, curr.origPriority);
    label dropped:
    woken := SemaUp(lock);
    SameWaiters@dropped(curr.acquiredLocks, null, curr.origPriority);
  }

  /** lock_release when the waiters of every lock held are in order: the priority becomes the highest of the
      thread's own and those of all who wait for the locks that it still holds, which is one number. */
  method SortedRelease(curr: Thread, lock: Lock, ghost threads: set<Thread>, ghost locks: set<Lock>)
    returns (woken: Thread?)
    requires curr in threads && lock in locks && HoldersOk(threads, locks) && lock.holder == curr
    requires curr !in lock.waiters && forall l | l in curr.acquiredLocks :: curr !in l.waiters
    requires forall l | l in curr.acquiredLocks :: Sorted(l.waiters)
    modifies lock, curr`acquiredLocks, curr`priority
    ensures HoldersOk(threads, locks) && curr.acquiredLocks == Remove(old(curr.acquiredLocks), lock)
    ensures forall m :: IsHighest(m, curr.origPriority, AllWaiters(curr.acquiredLocks)) <==> m == curr.priority
  {
    hide IsHighest, Sorted, Distinct, Remove, Fronts, AllWaiters, FrontsCover;
    RemoveFromDistinct(curr.acquiredLocks, lock);
    SortedIsCovered(curr.origPriority, Remove(curr.acquiredLocks, lock));
    woken := LockRelease(curr, lock, threads, locks);
    forall m | IsHighest(m, curr.origPriority, AllWaiters(curr.acquiredLocks))
      ensures m == curr.priority
    {
      HighestIsUnique(m, curr.priority, curr.origPriority, AllWaiters(curr.acquiredLocks));
    }
  }

  /** What FrontsCover and the highest priority depend on. */
  twostate lemma SameWaiters(ls: seq<Lock>, new except: Thread?, new own: int)
    requires forall l | l in ls :: l.waiters == old(l.waiters) && except !in l.waiters
    requires forall l, t | l in ls && t in l.waiters && t != except :: t.priority == old(t.priority)
    ensures Fronts(ls) == old(Fronts(ls)) && AllWaiters(ls) == old(AllWaiters(ls))
    ensures FrontsCover(own, ls) == old(FrontsCover(own, ls))
  {
    assert Fronts(ls) == old(Fronts(ls)) && AllWaiters(ls) == old(AllWaiters(ls));
    forall f | f in Fronts(ls)
      ensures exists l :: l in ls && f in l.waiters
    {
      var l :| l in ls && l.waiters != [] && l.waiters[0] == f;
    }
  }

  /** Without waiters on the locks that are still held, all donations are undone. */
  lemma NobodyDonates(locks: seq<Lock>, m: int, own: int)
    requires IsHighest(m, own, Fronts(locks)) && forall l | l in locks :: l.waiters == []
    ensures m == own
  {}

  /** lock_acquire by the running thread, until it returns or first sleeps on the lock. */
  method LockAcquire(curr: Thread, lock: Lock, ghost threads: set<Thread>, ghost locks: set<Lock>)
    returns (outcome: Outcome, taken: bool, ghost chain: seq<Thread>)
    requires curr in threads && lock in locks && HoldersOk(threads, locks) && AllKnown(threads, locks)
    requires (lock.value > 0 ==> lock.holder == null)
    modifies threads`priority, curr`blockingLock, curr`acquiredLocks, lock
    ensures HoldersOk(threads, locks) && AllKnown(threads, locks)
    ensures old(lock.holder) == null ==> outcome == Done && chain == []
    ensures old(lock.holder) != null ==>
      var s, donated := old(View(threads, locks, curr, lock)), old(Max(curr.priority, lock.holder.priority));
      && Follows(chain, s, old(lock.holder)) && AllLower(chain, s, donated) && Ended(chain, outcome, s, donated)
      && (outcome == Done <==> exists c :: GoodChain(c, s, old(lock.holder), donated))
      && forall t | t in chain :: t.priority == donated
    ensures forall t | t in threads && t !in chain :: t.priority == old(t.priority)
    ensures outcome != Done ==> lock.value == old(lock.value) && lock.waiters == old(lock.waiters)
    ensures taken <==> outcome == Done && old(lock.value) > 0
    ensures taken ==> lock.holder == curr && lock.value == old(lock.value) - 1 && lock.waiters == old(lock.waiters)
    ensures taken ==> curr.blockingLock == null && curr.acquiredLocks == old(curr.acquiredLocks) + [lock]
    ensures !taken ==> lock.holder == old(lock.holder) && curr.acquiredLocks == old(curr.acquiredLocks)
    ensures !taken ==> curr.blockingLock == if lock.holder == null then old(curr.blockingLock) else lock
    ensures outcome == Done && !taken ==> lock.value == 0
    ensures outcome == Done && !taken ==> multiset(lock.waiters) == multiset(old(lock.waiters)) + multiset{curr}
    ensures outcome == Done && !taken && Sorted(old(lock.waiters)) ==> Sorted(lock.waiters)
  {
    hide Follows, AllLower, Ended, GoodChain, Distinct, Sorted, HoldersOk;
    outcome, chain := PropagateDonation(curr, lock, threads, locks);
    taken := false;
    if outcome == Done {
      var blocked := DownPass(curr, lock);
      if !blocked {
        TakeLock(curr, lock, threads, locks);
        taken := true;
      }
    }
  }

  // ---- where it goes wrong ----

  /** Acquiring a lock that is free. */
  method AcquireFree(curr: Thread, lock: Lock, ghost threads: set<Thread>, ghost locks: set<Lock>)
    requires curr in threads && lock in locks && HoldersOk(threads, locks) && AllKnown(threads, locks)
    requires lock.value == 1 && lock.holder == null
    modifies threads`priority, curr`blockingLock, curr`acquiredLocks, lock
    ensures HoldersOk(threads, locks) && AllKnown(threads, locks)
    ensures forall t | t in threads :: t.priority == old(t.priority)
    ensures lock.holder == curr && lock.value == 0 && lock.waiters == old(lock.waiters)
    ensures curr.blockingLock == null && curr.acquiredLocks == old(curr.acquiredLocks) + [lock]
  {
    hide Follows, AllLower, Ended, GoodChain, Distinct, Sorted, HoldersOk, Closed;
    var _, _, _ := LockAcquire(curr, lock, threads, locks);
  }

  /** Acquiring a lock whose holder is not blocked. */
  method AcquireHeld(curr: Thread, lock: Lock, holder: Thread, ghost threads: set<Thread>, ghost locks: set<Lock>)
    requires curr in threads && lock in locks && HoldersOk(threads, locks) && AllKnown(threads, locks)
    requires lock.value == 0 && lock.holder == holder
    requires holder != curr && holder.blockingLock == null
    modifies threads`priority, curr`blockingLock, curr`acquiredLocks, lock
    ensures HoldersOk(threads, locks) && AllKnown(threads, locks)
    ensures holder.priority == Max(old(curr.priority), old(holder.priority))
    ensures forall t | t in threads && t != holder :: t.priority == old(t.priority)
    ensures lock.holder == holder && lock.value == 0
    ensures old(lock.waiters) == [] ==> lock.waiters == [curr]
    ensures multiset(lock.waiters) == multiset(old(lock.waiters)) + multiset{curr}
    ensures Sorted(old(lock.waiters)) ==> Sorted(lock.waiters)
    ensures curr.blockingLock == lock && curr.acquiredLocks == old(curr.acquiredLocks)
  {
    hide Distinct, Sorted, HoldersOk;
    ghost var s, donated := View(threads, locks, curr, lock), Max(curr.priority, holder.priority);
    assert NextHolder(s, holder) == null && s.blockedOn[holder] == null;
    var _, _, chain := LockAcquire(curr, lock, threads, locks);
    OnlyFirst(chain, s, holder, donated);
    if old(lock.waiters) == [] {
      OneElement(lock.waiters, curr);
    }
  }

  lemma OneElement<T>(s: seq<T>, x: T)
    requires multiset(s) == multiset([]) + multiset{x}
    ensures s == [x]
  {
    assert |s| == |multiset(s)| == 1;
    assert s[0] in multiset(s);
  }

  /** Threads with these priorities, and free locks. */
  method NewSystem(p: int, q: int, r: int)
    returns (first: Thread, second: Thread, third: Thread, a: Lock, b: Lock, c: Lock)
    ensures fresh({first, second, third}) && fresh({a, b, c})
    ensures first != second && first != third && second != third && a != b && a != c && b != c
    ensures HoldersOk({first, second, third}, {a, b, c}) && AllKnown({first, second, third}, {a, b, c})
    ensures first.priority == p && second.priority == q && third.priority == r && first.origPriority == p
    ensures forall t | t in {first, second, third} :: t.blockingLock == null && t.acquiredLocks == []
    ensures forall l | l in {a, b, c} :: l.holder == null && l.value == 1 && l.waiters == []
  {
    first := new Thread(p);
    second := new Thread(q);
    third := new Thread(r);
    a := new Lock();
    b := new Lock();
    c := new Lock();
  }

  /** Three threads and two locks after three calls of lock_acquire: the first thread holds one lock and sleeps on
      the other, which the second thread holds. */
  method SleepingHolder(low: int, high: int)
    returns (first: Thread, second: Thread, third: Thread, lock: Lock, other: Lock, ghost locks: set<Lock>)
    requires low < high
    ensures fresh({first, second, third}) && fresh(locks) && {lock, other} <= locks && lock != other
    ensures first != second && first != third && second != third
    ensures HoldersOk({first, second, third}, locks) && AllKnown({first, second, third}, locks)
    ensures first.priority == low && second.priority == third.priority == high
    ensures first.blockingLock == other && second.blockingLock == null
    ensures lock.holder == first && lock.waiters == [] && lock.value == 0
    ensures other.holder == second && other.waiters == [first] && second.acquiredLocks == [other]
  {
    hide HoldersOk, AllKnown;
    var spare;
    first, second, third, lock, other, spare := NewSystem(low, high, high);
    locks := {lock, other, spare};
    AcquireFree(first, lock, {first, second, third}, locks);
    AcquireFree(second, other, {first, second, third}, locks);
    AcquireHeld(first, other, second, {first, second, third}, locks);
  }

  /** The loop goes round for ever: the holder of the lock sleeps on another one, whose holder has a priority that
      is not lower than the one passed on. */
  method SpinExample(low: int, high: int) returns (outcome: Outcome)
    requires low < high
    ensures outcome == Spins
  {
    hide Distinct, Sorted, HoldersOk, IsHighest, FrontsCover, GoodChain, Fronts, AllWaiters, Remove;
    var first, second, third, lock, other, locks := SleepingHolder(low, high);
    ghost var threads := {first, second, third};
    ghost var s := View(threads, locks, third, lock);
    assert NextHolder(s, first) == second && s.priority[second] == high;
    var result, _, chain := LockAcquire(third, lock, threads, locks);
    outcome := result;
    OnlyFirst(chain, s, first, high);
  }

  /** The loop follows a null holder: the holder of the lock was woken for another one, which was released, but has
      not run yet. */
  method NullHolderExample(low: int, high: int) returns (outcome: Outcome)
    requires low < high
    ensures outcome == NullHolder
  {
    hide Distinct, Sorted, HoldersOk, IsHighest, FrontsCover, GoodChain, Fronts, AllWaiters, Remove;
    var first, second, third, lock, other, locks := SleepingHolder(low, high);
    ghost var threads := {first, second, third};
    var _ := LockRelease(second, other, threads, locks);
    ghost var s := View(threads, locks, third, lock);
    assert NextHolder(s, first) == null && s.blockedOn[first] == other;
    var result, _, chain := LockAcquire(third, lock, threads, locks);
    outcome := result;
    OnlyFirst(chain, s, first, high);
  }

  /** The chain does not go on where there is no holder or one whose priority is not lower. */
  lemma OnlyFirst(c: seq<Thread>, s: System, first: Thread, donated: int)
    requires Closed(s) && first in s.blockedOn && Follows(c, s, first) && AllLower(c, s, donated)
    requires NextHolder(s, first) != null ==> s.priority[NextHolder(s, first)] >= donated
    ensures c == [first]
  {
    if |c| > 1 {
      GoesOn(c, s, first, 0);
      assert false;
    }
  }

  lemma GoesOn(c: seq<Thread>, s: System, first: Thread, k: nat)
    requires Closed(s) && Follows(c, s, first) && k + 1 < |c|
    ensures c[k + 1] == NextHolder(s, c[k])
  {}

  /** A chain of a thread and the unblocked holder of the lock that it waits for. */
  lemma AtMostTwo(c: seq<Thread>, s: System, first: Thread, next: Thread)
    requires Closed(s) && Follows(c, s, first) && NextHolder(s, first) == next && NextHolder(s, next) == null
    ensures forall t | t in c :: t == first || t == next
  {
    if |c| > 1 {
      GoesOn(c, s, first, 0);
    }
    if |c| > 2 {
      GoesOn(c, s, first, 1);
      assert false;
    }
  }

  /** A donation may unsort waiters, and then a release is too low.  Two threads wait, in order, for a lock of the
      owner, which has the priority of the first of them; the second holds another lock.  A third thread of a higher
      priority comes to wait for that one, which raises the second and the owner.  When the owner then releases one
      of its locks it falls back to the first, below the second. */
  method DonateThenRelease(owner: Thread, first: Thread, second: Thread, third: Thread, a: Lock, b: Lock, c: Lock,
                           ghost threads: set<Thread>, ghost locks: set<Lock>)
    requires threads == {owner, first, second, third} && locks == {a, b, c} && a != b && a != c && b != c
    requires owner != first && owner != second && owner != third && first != second && first != third && second != third
    requires HoldersOk(threads, locks) && AllKnown(threads, locks)
    requires a.holder == owner && b.holder == second && c.holder == owner && owner.acquiredLocks == [a, c]
    requires a.waiters == [first, second] && b.waiters == c.waiters == []
    requires second.blockingLock == a && owner.blockingLock == null
    requires owner.origPriority <= first.priority && second.priority <= first.priority < third.priority
    requires owner.priority < third.priority && b.value == 0
    modifies threads`priority, third`blockingLock, third`acquiredLocks, b, c, owner`acquiredLocks
    ensures HoldersOk(threads, locks) && AllKnown(threads, locks)
    ensures old(Sorted(a.waiters)) && owner.acquiredLocks == [a] && a.holder == owner
    ensures third.blockingLock == b && b.holder == second && b.waiters == [third]
    ensures owner.priority == old(first.priority) && second.priority == old(third.priority)
    ensures !IsHighest(owner.priority, owner.origPriority, AllWaiters(owner.acquiredLocks))
  {
    hide HoldersOk, AllKnown, Distinct;
    DonateToSecond(owner, first, second, third, a, b, threads, locks);
    RemoveLast(a, c);
    var _ := LockRelease(owner, c, threads, locks);
    assert a in [a] && second in a.waiters;
    assert first in Fronts([a]) && second in AllWaiters([a]);
  }

  method DonateToSecond(owner: Thread, first: Thread, second: Thread, third: Thread, a: Lock, b: Lock,
                        ghost threads: set<Thread>, ghost locks: set<Lock>)
    requires {owner, first, second, third} <= threads && {a, b} <= locks && a != b
    requires HoldersOk(threads, locks) && AllKnown(threads, locks)
    requires owner != first && owner != second && owner != third && first != second && first != third && second != third
    requires a.holder == owner && b.holder == second && second.blockingLock == a && owner.blockingLock == null
    requires second.priority <= third.priority && owner.priority < third.priority && b.value == 0 && b.waiters == []
    modifies threads`priority, third`blockingLock, third`acquiredLocks, b
    ensures HoldersOk(threads, locks) && AllKnown(threads, locks)
    ensures first.priority == old(first.priority) && second.priority == old(third.priority)
    ensures third.blockingLock == b && b.holder == second && b.waiters == [third]
  {
    hide Ended, GoodChain, Distinct, HoldersOk, Sorted;
    ghost var s := View(threads, locks, third, b);
    assert NextHolder(s, second) == owner && NextHolder(s, owner) == null;
    TwoAreGood(s, second, owner, third.priority);
    var _, _, chain := LockAcquire(third, b, threads, locks);
    AtMostTwo(chain, s, second, owner);
    OneElement(b.waiters, third);
  }

  lemma TwoAreGood(s: System, first: Thread, next: Thread, donated: int)
    requires Closed(s) && first in s.blockedOn && first != next && NextHolder(s, first) == next
    requires s.blockedOn[next] == null && s.priority[next] < donated
    ensures GoodChain([first, next], s, first, donated)
  {}

  lemma RemoveLast<T>(a: T, c: T)
    requires a != c
    ensures Remove([a, c], c) == [a]
  {
    assert [a, c][1..] == [c];
    assert [c][1..] == [];
  }

  /** Two threads that hold these locks after three calls of lock_acquire. */
  method TwoHolders() returns (owner: Thread, first: Thread, second: Thread, a: Lock, b: Lock, c: Lock)
    ensures fresh({owner, first, second}) && fresh({a, b, c})
    ensures owner != first && owner != second && first != second && a != b && a != c && b != c
    ensures HoldersOk({owner, first, second}, {a, b, c}) && AllKnown({owner, first, second}, {a, b, c})
    ensures a.holder == owner && b.holder == second && c.holder == owner && owner.acquiredLocks == [a, c]
    ensures a.waiters == b.waiters == c.waiters == [] && a.value == b.value == 0 && owner.blockingLock == null
    ensures owner.priority == owner.origPriority == first.priority == 31 && second.priority == 30
  {
    hide HoldersOk, AllKnown;
    owner, first, second, a, b, c := NewSystem(31, 31, 30);
    ghost var threads, locks := {owner, first, second}, {a, b, c};
    AcquireFree(owner, a, threads, locks);
    AcquireFree(owner, c, threads, locks);
    AcquireFree(second, b, threads, locks);
    assert [] + [a] + [c] == [a, c];
  }

  /** Then two threads come to wait, in the order of their priorities. */
  method SortedWaiters() returns (owner: Thread, first: Thread, second: Thread, a: Lock, b: Lock, c: Lock)
    ensures fresh({owner, first, second}) && fresh({a, b, c})
    ensures owner != first && owner != second && first != second && a != b && a != c && b != c
    ensures HoldersOk({owner, first, second}, {a, b, c}) && AllKnown({owner, first, second}, {a, b, c})
    ensures a.holder == owner && b.holder == second && c.holder == owner && owner.acquiredLocks == [a, c]
    ensures a.waiters == [first, second] && b.waiters == c.waiters == []
    ensures second.blockingLock == a && owner.blockingLock == null && b.value == 0
    ensures owner.priority == owner.origPriority == first.priority == 31 && second.priority == 30
  {
    hide GoodChain, Remove, Ended, Follows, AllLower, Closed, HoldersOk, Distinct, AllKnown;
    owner, first, second, a, b, c := TwoHolders();
    ghost var threads, locks := {owner, first, second}, {a, b, c};
    AcquireHeld(first, a, owner, threads, locks);
    assert Sorted(a.waiters) && a.waiters == [first];
    AcquireHeld(second, a, owner, threads, locks);
    TwoInOrder(a.waiters, first, second);
  }

  lemma TwoInOrder(ws: seq<Thread>, first: Thread, second: Thread)
    requires multiset(ws) == multiset([first]) + multiset{second} && Sorted(ws) && first.priority > second.priority
    ensures ws == [first, second]
  {
    assert |ws| == |multiset(ws)| == 2;
    assert ws[0] in multiset(ws) && ws[1] in multiset(ws);
    assert ws == [ws[0], ws[1]];
    assert multiset(ws) == multiset{ws[0], ws[1]};
  }

  /** After calls of lock_acquire and one lock_release the owner of a lock has 31, although a thread with 40 waits
      for it. */
  method UnsortedExample() returns (owner: Thread, second: Thread, a: Lock)
    ensures a.holder == owner && second in a.waiters && owner.priority == 31 && second.priority == 40
    ensures !IsHighest(owner.priority, owner.origPriority, AllWaiters(owner.acquiredLocks))
  {
    hide IsHighest, FrontsCover, Fronts, AllWaiters, Remove;
    var first, b, c;
    owner, first, second, a, b, c := SortedWaiters();
    var third := new Thread(40);
    assert HoldersOk({owner, first, second, third}, {a, b, c});
    DonateThenRelease(owner, first, second, third, a, b, c, {owner, first, second, third}, {a, b, c});
  }
}
