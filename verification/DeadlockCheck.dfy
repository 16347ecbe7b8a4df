/** The deadlock check made before a thread waits for a lock, on a snapshot of all locks. */
module DeadlockCheck {
  import opened Basics
  import opened LockLists
  import opened WaitGraph

  /** Who holds what and who waits for what, by identity; the lists as `held` and `queue` give them. */
  datatype Snapshot = Snapshot(
    holding: map<Thread, seq<Lock>>,
    waiters: map<Lock, seq<Thread>>,
    heldBy: map<Lock, Thread>,         // absent for 0
    waitingOn: map<Thread, Lock>)      // absent for 0

  /** The lists agree with held_by_ and lock_waiting_on_. */
  ghost predicate Consistent(s: Snapshot) {
    && (forall l :: l in s.heldBy ==> l in s.waiters && s.heldBy[l] in s.holding && l in s.holding[s.heldBy[l]])
    && (forall t, l :: t in s.holding && l in s.holding[t] ==> l in s.heldBy && s.heldBy[l] == t)
    && (forall u :: u in s.waitingOn ==> u in s.holding && s.waitingOn[u] in s.waiters && u in s.waiters[s.waitingOn[u]])
    && (forall l, u :: l in s.waiters && u in s.waiters[l] ==> u in s.waitingOn && s.waitingOn[u] == l)
  }

  /** The objects look like the snapshot. */
  ghost predicate Shows(s: Snapshot)
    reads s.holding.Keys, s.waiters.Keys
    requires Consistent(s)
  {
    && (forall t :: t in s.holding ==> HoldingShown(s, t))
    && (forall l :: l in s.waiters ==> WaitersShown(s, l))
  }

  ghost predicate HoldingShown(s: Snapshot, t: Thread)
    reads t, s.waiters.Keys
    requires Consistent(s) && t in s.holding
  {
    t.held == s.holding[t] && t.HoldingLinked()
  }

  ghost predicate WaitersShown(s: Snapshot, l: Lock)
    reads l, s.holding.Keys
    requires Consistent(s) && l in s.waiters
  {
    && l.queue == s.waiters[l] && l.WaitersLinked()
    && l.heldBy == if l in s.heldBy then s.heldBy[l] else null
  }

  /** Every waiting thread and the thread that holds its lock. */
  ghost function Waits(s: Snapshot): map<Thread, Thread> {
    map t | t in s.waitingOn && s.waitingOn[t] in s.heldBy :: s.heldBy[s.waitingOn[t]]
  }

  /** What the check looks for: the holder of `start` waits, directly or not, for t or is t. */
  ghost predicate HolderReaches(s: Snapshot, start: Lock, t: Thread) {
    start in s.heldBy && Reaches(Waits(s), s.heldBy[start], t)
  }

  /** It does if and only if t holds `start` or that is so for a thread waiting on a lock t holds. */
  lemma HolderReachesIff(s: Snapshot, start: Lock, t: Thread)
    requires Consistent(s) && t in s.holding
    ensures HolderReaches(s, start, t) <==>
            exists l :: l in s.holding[t] && (l == start || exists u :: u in s.waiters[l] && HolderReaches(s, start, u))
  {
    var next := Waits(s);
    if HolderReaches(s, start, t) {
      var h := s.heldBy[start];
      var n: nat :| Follow(next, h, n) == Some(t);
      if n == 0 {
        assert start in s.holding[t];
      } else {
        var u := Follow(next, h, n - 1).value;
        var l := s.waitingOn[u];
        assert Reaches(next, h, u);
        assert l in s.holding[t] && u in s.waiters[l] && HolderReaches(s, start, u);
      }
    }
    forall l, u | l in s.holding[t] && u in s.waiters[l] && HolderReaches(s, start, u) ensures HolderReaches(s, start, t) {
      ReachesNext(next, s.heldBy[start], u);
    }
    if start in s.holding[t] {
      ReachesSelf(next, t);
    }
  }

  /** Nobody on the way down from the current thread is visited twice. */
  lemma NewOnPath(s: Snapshot, path: set<Thread>, t: Thread, u: Thread)
    requires Acyclic(Waits(s)) && u in Waits(s) && Waits(s)[u] == t
    requires forall v :: v in path ==> Reaches(Waits(s), t, v)
    ensures u !in path
    ensures forall v :: v in path + {u} ==> Reaches(Waits(s), u, v)
  {
    NoWayBack(Waits(s), u);
    ReachesSelf(Waits(s), u);
    forall v | v in path ensures Reaches(Waits(s), u, v) {
      ReachesFromNext(Waits(s), u, v);
    }
  }

  /** A step along the holding list. */
  lemma HoldingLink(s: Snapshot, t: Thread, i: nat)
    requires Consistent(s) && t in s.holding && HoldingShown(s, t) && i <= |s.holding[t]|
    ensures t.holding == LockAt(s.holding[t], 0)
    ensures i < |s.holding[t]| ==>
              var l := s.holding[t][i];
              l in s.holding[t] && l in s.waiters && l.nextHeld == LockAt(s.holding[t], i + 1)
  {
  }

  /** A step along the waiters list of a lock that t holds. */
  lemma WaitersLink(s: Snapshot, t: Thread, l: Lock, i: nat)
    requires Consistent(s) && t in s.holding && l in s.holding[t] && l in s.waiters && WaitersShown(s, l) && i <= |s.waiters[l]|
    ensures l.waiters == ThreadAt(s.waiters[l], 0)
    ensures i < |s.waiters[l]| ==>
              var u := s.waiters[l][i];
              u in s.holding && u.nextWaiter == ThreadAt(s.waiters[l], i + 1) && u in Waits(s) && Waits(s)[u] == t
  {
    if i < |s.waiters[l]| {
      assert s.waiters[l][i] in s.waiters[l];
      assert s.waiters[l][i] in s.waitingOn;
    }
  }

  /** Nobody listed on l is what the check looks for. */
  ghost predicate Harmless(s: Snapshot, start: Lock, l: Lock) {
    l in s.waiters && forall u :: u in s.waiters[l] ==> !HolderReaches(s, start, u)
  }

  /** Lock::checkForCircularDeadLock: down the locks of a thread and the waiters of each.  `path` is
      the threads on the way here. */
  method CheckForCircularDeadLock(threadWaiting: Thread, start: Lock, ghost s: Snapshot, ghost path: set<Thread>)
    returns (found: bool)
    requires Consistent(s) && Shows(s) && Acyclic(Waits(s))
    requires threadWaiting in s.holding && threadWaiting in path && path <= s.holding.Keys
    requires forall v :: v in path ==> Reaches(Waits(s), threadWaiting, v)
    ensures found <==> HolderReaches(s, start, threadWaiting)
    decreases s.holding.Keys - path
  {
    hide Consistent, HoldingShown, WaitersShown, Acyclic, Reaches, HolderReaches, Waits;
    HolderReachesIff(s, start, threadWaiting);
    HoldingLink(s, threadWaiting, 0);
    ghost var locks := s.holding[threadWaiting];
    var lock := threadWaiting.holding;
    ghost var i := 0;
    while lock != null
      invariant 0 <= i <= |locks| && lock == LockAt(locks, i)
      invariant forall k :: 0 <= k < i ==> locks[k] != start && Harmless(s, start, locks[k])
      decreases |locks| - i
    {
      HoldingLink(s, threadWaiting, i);
      if lock == start {
        return true;
      }
      found := CheckWaiters(threadWaiting, lock, start, s, path);
      if found {
        return;
      }
      lock, i := lock.nextHeld, i + 1;
    }
    return false;
  }

  /** Its inner loop, over the waiters of one lock that the thread holds. */
  method CheckWaiters(threadWaiting: Thread, lock: Lock, start: Lock, ghost s: Snapshot, ghost path: set<Thread>)
    returns (found: bool)
    requires Consistent(s) && Shows(s) && Acyclic(Waits(s))
    requires threadWaiting in s.holding && threadWaiting in path && path <= s.holding.Keys
    requires lock in s.holding[threadWaiting] && lock in s.waiters
    requires forall v :: v in path ==> Reaches(Waits(s), threadWaiting, v)
    ensures found <==> !Harmless(s, start, lock)
    decreases s.holding.Keys - path, 0
  {
    hide Consistent, HoldingShown, WaitersShown, Acyclic, HolderReaches, Waits;
    WaitersLink(s, threadWaiting, lock, 0);
    ghost var queue := s.waiters[lock];
    var thread := lock.waiters;
    ghost var j := 0;
    while thread != null
      invariant 0 <= j <= |queue| && thread == ThreadAt(queue, j)
      invariant forall k :: 0 <= k < j ==> !HolderReaches(s, start, queue[k])
      decreases |queue| - j
    {
      WaitersLink(s, threadWaiting, lock, j);
      NewOnPath(s, path, threadWaiting, thread);
      found := CheckForCircularDeadLock(thread, start, s, path + {thread});
      if found {
        return;
      }
      thread, j := thread.nextWaiter, j + 1;
    }
    return false;
  }

  /** Who waits for whom once the current thread waits for a lock. */
  ghost function WaitsWith(s: Snapshot, current: Thread, lock: Lock): map<Thread, Thread> {
    Waits(s.(waitingOn := s.waitingOn[current := lock]))
  }

  /** Waiting closes a cycle exactly when the holder of the lock already waits for the current
      thread, or is the current thread. */
  lemma CycleIff(s: Snapshot, current: Thread, lock: Lock)
    requires Acyclic(Waits(s)) && current !in s.waitingOn
    ensures !Acyclic(WaitsWith(s, current, lock)) <==> HolderReaches(s, lock, current)
  {
    if lock in s.heldBy {
      assert WaitsWith(s, current, lock) == Waits(s)[current := s.heldBy[lock]];
      NewEdgeClosesCycle(Waits(s), current, s.heldBy[lock]);
    } else {
      assert WaitsWith(s, current, lock) == Waits(s);
    }
  }

  /** Lock::checkForDeadLock: on a consistent snapshot without a wait cycle it terminates, and fires
      exactly when the current thread, by waiting for this lock, would close one. */
  method CheckForDeadLock(lock: Lock, current: Thread, ghost s: Snapshot) returns (deadlock: bool)
    requires Consistent(s) && Shows(s) && Acyclic(Waits(s))
    requires lock in s.waiters && current in s.holding && current !in s.waitingOn
    ensures deadlock <==> !Acyclic(WaitsWith(s, current, lock))
  {
    CycleIff(s, current, lock);
    ReachesSelf(Waits(s), current);
    if lock.heldBy == current {
      return true;
    }
    deadlock := CheckForCircularDeadLock(current, lock, s, {current});
  }
}
