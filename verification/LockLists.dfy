/** The two pointer lists of the lock classes: the waiters of a lock and the locks a thread holds. */
module LockLists {
  import opened Basics

  class Thread {
    var nextWaiter: Thread?     // next_thread_in_lock_waiters_list_
    var holding: Lock?          // holding_lock_list_
    var waitingOn: Lock?        // lock_waiting_on_
    ghost var held: seq<Lock>   // what holding_lock_list_ links

    constructor ()
      ensures held == [] && HoldingLinked() && nextWaiter == null && waitingOn == null
    {
      nextWaiter, holding, waitingOn, held := null, null, null, [];
    }

    /** The holding list links exactly `held`: no cycle, no duplicate, ended by null. */
    ghost predicate HoldingLinked()
      reads this, held
    {
      && holding == LockAt(held, 0)
      && (forall i :: 0 <= i < |held| ==> held[i].nextHeld == LockAt(held, i + 1))
      && Distinct(held)
    }

    /** Lock::pushFrontToCurrentThreadHoldingList, on the current thread. */
    method PushFrontToHoldingList(lock: Lock)
      requires HoldingLinked() && lock !in held
      modifies `holding, `held, lock`nextHeld
      ensures HoldingLinked() && held == [lock] + old(held)
    {
      lock.nextHeld := holding;
      holding := lock;
      held := [lock] + held;
    }

    /** Unlinks the lock behind `previous`. */
    method UnlinkHeld(previous: Lock, lock: Lock, ghost i: nat)
      requires HoldingLinked() && i + 1 < |held| && previous == held[i] && previous.nextHeld == lock
      modifies `held, previous`nextHeld
      ensures HoldingLinked()
      ensures held == Without(old(held), lock) && lock !in held
    {
      hide Without, Distinct;
      WithoutAt(held, i + 1, lock, Without(held, lock));
      OthersDiffer(Without(held, lock), i);
      previous.nextHeld := lock.nextHeld;
      held := Without(held, lock);
      assert held[i] == previous && old(held)[i + 1] == lock;
    }

    /** Lock::removeFromCurrentThreadHoldingList, whether or not the lock is listed. */
    method RemoveFromHoldingList(lock: Lock)
      requires HoldingLinked()
      modifies `holding, `held, held`nextHeld, lock`nextHeld
      ensures HoldingLinked() && lock.nextHeld == null
      ensures held == Without(old(held), lock) && lock !in held
    {
      hide Without;
      if holding == lock {
        WithoutAt(held, 0, lock, Without(held, lock));
        holding := lock.nextHeld;
        held := Without(held, lock);
      } else {
        var current := holding;
        ghost var i := 0;
        while current != null && current.nextHeld != lock
          invariant 0 <= i <= |held| && current == LockAt(held, i)
          invariant forall k :: 0 <= k <= i && k < |held| ==> held[k] != lock
          decreases |held| - i
          modifies {}
        {
          current, i := current.nextHeld, i + 1;
        }
        if current != null {
          UnlinkHeld(current, lock, i);
        } else {
          WithoutNone(held, lock);
        }
      }
      assert HoldingLinked() && lock !in held;
      lock.nextHeld := null;
    }
  }

  class Lock {
    var heldBy: Thread?         // held_by_
    var nextHeld: Lock?         // next_lock_on_holding_list_
    var waiters: Thread?        // waiters_list_
    ghost var queue: seq<Thread>

    constructor ()
      ensures queue == [] && WaitersLinked() && heldBy == null
    {
      heldBy, nextHeld, waiters, queue := null, null, null, [];
    }

    /** The waiters list links exactly `queue`, newest first: no cycle, no duplicate. */
    ghost predicate WaitersLinked()
      reads this, queue
    {
      && waiters == ThreadAt(queue, 0)
      && (forall i :: 0 <= i < |queue| ==> queue[i].nextWaiter == ThreadAt(queue, i + 1))
      && Distinct(queue)
    }

    method PushFrontToWaitersList(current: Thread)
      requires WaitersLinked() && current !in queue
      modifies `waiters, `queue, current`nextWaiter
      ensures WaitersLinked() && queue == [current] + old(queue)
    {
      current.nextWaiter := waiters;
      waiters := current;
      queue := [current] + queue;
    }

    /** popBackThreadFromWaitersList: the longest waiting thread, or null. */
    method PopBackFromWaitersList() returns (thread: Thread?)
      requires WaitersLinked()
      modifies `waiters, `queue, queue`nextWaiter
      ensures WaitersLinked()
      ensures old(queue) == [] ==> thread == null && queue == []
      ensures old(queue) != [] ==> thread != null && old(queue) == queue + [thread]
    {
      thread := null;
      if waiters == null {
      } else if waiters.nextWaiter == null {
        thread := waiters;
        waiters := null;
        queue := [];
      } else {
        var previous := waiters;
        ghost var i := 0;
        while previous.nextWaiter.nextWaiter != null
          invariant 0 <= i < |queue| - 1 && previous == queue[i]
          invariant previous.nextWaiter == queue[i + 1]
          decreases |queue| - i
          modifies {}
        {
          previous, i := previous.nextWaiter, i + 1;
        }
        thread := previous.nextWaiter;
        previous.nextWaiter := null;
        queue := queue[..i + 1];
      }
    }

    /** Unlinks the thread behind `previous`. */
    method UnlinkWaiter(previous: Thread, thread: Thread, ghost i: nat)
      requires WaitersLinked() && i + 1 < |queue| && previous == queue[i] && previous.nextWaiter == thread
      modifies `queue, previous`nextWaiter
      ensures WaitersLinked()
      ensures queue == Without(old(queue), thread) && thread !in queue
    {
      hide Without, Distinct;
      WithoutAt(queue, i + 1, thread, Without(queue, thread));
      OthersDiffer(Without(queue, thread), i);
      previous.nextWaiter := thread.nextWaiter;
      queue := Without(queue, thread);
      assert queue[i] == previous && old(queue)[i + 1] == thread;
    }

    /** removeCurrentThreadFromWaitersList, as SpinLock::acquire uses it; the assert wants a waiter. */
    method RemoveFromWaitersList(current: Thread)
      requires WaitersLinked() && queue != []
      modifies `waiters, `queue, queue`nextWaiter, current`nextWaiter
      ensures WaitersLinked() && current.nextWaiter == null
      ensures queue == Without(old(queue), current) && current !in queue
    {
      hide Without;
      if current == waiters {
        WithoutAt(queue, 0, current, Without(queue, current));
        waiters := current.nextWaiter;
        queue := Without(queue, current);
      } else {
        var thread := waiters;
        ghost var i := 0;
        while thread.nextWaiter != null && thread.nextWaiter != current
          invariant 0 <= i < |queue| && thread == queue[i]
          invariant forall k :: 0 <= k <= i ==> queue[k] != current
          decreases |queue| - i
          modifies {}
        {
          thread, i := thread.nextWaiter, i + 1;
        }
        if thread.nextWaiter != null {
          UnlinkWaiter(thread, current, i);
        } else {
          WithoutNone(queue, current);
        }
      }
      assert WaitersLinked() && current !in queue;
      current.nextWaiter := null;
    }
  }

  ghost function ThreadAt(list: seq<Thread>, i: nat): Thread? {
    if i < |list| then list[i] else null
  }

  ghost function LockAt(list: seq<Lock>, i: nat): Lock? {
    if i < |list| then list[i] else null
  }
}
