/** What a whole signal, broadcast, wait or acquire does, from its first step to its last, whatever the
    other threads do in between. */
module Signals {
  import opened Basics
  import opened Holders
  import opened LockProtocol

  /** Thread t is inside a signal or broadcast in every state of the run but the last. */
  ghost predicate OneSignal(s: State, t: Tid, steps: seq<(Tid, Choice)>)
    decreases |steps|
  {
    && steps != [] && t in s.pc && s.pc[t].Signalling?
    && var z := Next(s, steps[0].0, steps[0].1);
       if |steps| == 1 then t in z.pc && !z.pc[t].Signalling? else OneSignal(z, t, steps[1..])
  }

  /** The last step of a run. */
  lemma OneStepRun(s: State, steps: seq<(Tid, Choice)>)
    requires |steps| == 1
    ensures Run(s, steps) == Next(s, steps[0].0, steps[0].1)
  {
    assert steps[1..] == [];
  }

  // ---------------------------------------------------------------------
  // Broadcast
  // ---------------------------------------------------------------------

  /** A signal ends in the critical section, a broadcast only from an empty pop. */
  lemma SignalEnds(s: State, t: Tid, u: Tid, c: Choice)
    requires Inv(s) && t in s.pc && s.pc[t].Signalling?
    ensures var z := Next(s, u, c);
            && t in z.pc
            && (!z.pc[t].Signalling? ==> u == t && z.pc[t] == Critical && ListOf(z, TheCondition) == ListOf(s, TheCondition))
            && (!z.pc[t].Signalling? && s.pc[t].all ==> ListOf(s, TheCondition) == [])
            && (z.pc[t].Signalling? ==> z.pc[t].all == s.pc[t].all)
  {
    hide Locks, Sleepers, Queues, NoLostWakeup;
  }

  lemma {:induction false} BroadcastDrains(s: State, t: Tid, steps: seq<(Tid, Choice)>)
    requires Inv(s) && OneSignal(s, t, steps) && s.pc[t].all
    ensures var z := Run(s, steps); Inv(z) && t in z.pc && z.pc[t] == Critical && ListOf(z, TheCondition) == []
    decreases |steps|
  {
    hide Inv, Next, ListOf;
    var z := Next(s, steps[0].0, steps[0].1);
    InvKept(s, steps[0].0, steps[0].1);
    SignalEnds(s, t, steps[0].0, steps[0].1);
    if |steps| == 1 {
      OneStepRun(s, steps);
    } else {
      BroadcastDrains(z, t, steps[1..]);
    }
  }

  /** Nobody is between its push onto the list of the condition and its waking. */
  ghost predicate NobodyWaits(s: State) {
    forall u :: u in s.pc ==> !Waits(TheCondition, s.pc[u], u in s.sleeping)
  }

  lemma DrainedMeansNobodyWaits(s: State, t: Tid)
    requires Inv(s) && t in s.pc && s.pc[t] == Critical && ListOf(s, TheCondition) == []
    ensures NobodyWaits(s)
  {
    hide Sleepers, NoLostWakeup, EmptyPops, Waits, LocksMutexList, LocksCondList;
    var q := QueueOf(s, TheCondition);
    assert InHand(s.pc[t]) && forall v :: v in s.pc && InHand(s.pc[v]) ==> s.heldBy == Some(v);
    assert forall v :: v in s.pc ==> Popped(TheCondition, s.pc[v]) == None || InHand(s.pc[v]);
    assert q.popped == map[];
    assert forall u :: u !in q.members;
    forall u | u in s.pc ensures !Waits(TheCondition, s.pc[u], u in s.sleeping) {
      assert u !in q.members;
    }
  }

  /** A broadcast pops everybody who is listed when it begins, oldest first, and whoever is pushed in
      the meantime; when it ends the list is empty and nobody waits on the condition. */
  lemma BroadcastPopsAll(s0: State, before: seq<(Tid, Choice)>, t: Tid, steps: seq<(Tid, Choice)>)
    requires Init(s0)
    requires var s := Run(s0, before); t in s.pc && s.pc[t] == Signalling(true, SigLock) && OneSignal(s, t, steps)
    ensures var s := Run(s0, before); var z := Run(s, steps);
            && Pops(s, TheCondition, steps) == InOrder(ListOf(s, TheCondition)) + Pushes(s, TheCondition, steps)
            && (forall u :: u in ListOf(s, TheCondition) ==> u in Pops(s, TheCondition, steps))
            && ListOf(z, TheCondition) == [] && NobodyWaits(z) && t in z.pc && z.pc[t] == Critical
  {
    hide Init, Inv, Run, Next, OneSignal, NobodyWaits, Pops, Pushes, ListOf;
    InitInv(s0);
    RunInv(s0, before);
    var s := Run(s0, before);
    BroadcastDrains(s, t, steps);
    DrainedMeansNobodyWaits(Run(s, steps), t);
    QueueConserved(s, TheCondition, steps);
    InOrderSame(ListOf(s, TheCondition));
  }

  lemma {:induction false} InOrderSame(list: seq<Tid>)
    ensures forall u :: u in list <==> u in InOrder(list)
  {
    if list != [] {
      InOrderSame(list[1..]);
      assert list == [list[0]] + list[1..];
    }
  }

  // ---------------------------------------------------------------------
  // Signal
  // ---------------------------------------------------------------------

  /** The list of the condition when the signal takes its lock. */
  ghost function LockedList(s: State, t: Tid, steps: seq<(Tid, Choice)>): Option<seq<Tid>>
    decreases |steps|
  {
    if steps == [] then None
    else if steps[0].0 == t && Awake(s, t) && s.pc[t].Signalling? && s.pc[t].sig == SigLock && s.c.lock == None then Some(ListOf(s, TheCondition))
    else LockedList(Next(s, steps[0].0, steps[0].1), t, steps[1..])
  }

  /** Only the thread that has the mutex pops the list of the condition. */
  lemma OthersPopNothing(s: State, t: Tid, u: Tid, c: Choice)
    requires Inv(s) && t in s.pc && s.pc[t].Signalling? && u != t
    ensures PoppedBy(s, TheCondition, u) == []
    ensures t in Next(s, u, c).pc && Next(s, u, c).pc[t] == s.pc[t]
    ensures s.pc[t].sig == SigPop ==> ListOf(Next(s, u, c), TheCondition) == ListOf(s, TheCondition)
  {
    hide Sleepers, Queues, NoLostWakeup, EmptyPops;
    assert InHand(s.pc[t]);
    if Awake(s, u) {
      OnlyUnderTheLock(s, s.pc[u], u, c);
      assert LocksCondList(s.pc[u]) ==> s.c.lock == Some(u);
      PopNeedsMutex(s, s.pc[u]);
      assert !InHand(s.pc[u]);
    }
  }

  /** A list changes under its lock only. */
  lemma OnlyUnderTheLock(s: State, pc: Pc, t: Tid, c: Choice)
    ensures ListOf(Effect(s, pc, t), TheCondition) != ListOf(s, TheCondition) ==> LocksCondList(pc)
    ensures ListOf(Effect(s, pc, t), TheMutex) != ListOf(s, TheMutex) ==> LocksMutexList(pc)
  {
  }

  lemma PopNeedsMutex(s: State, pc: Pc)
    ensures OpOn(s, TheCondition, pc) == Pop ==> InHand(pc)
  {
  }

  /** What a plain signal has yet to pop. */
  ghost function ToPop(s: State, t: Tid, steps: seq<(Tid, Choice)>): seq<Tid>
    requires t in s.pc && s.pc[t].Signalling?
  {
    if s.pc[t].sig == SigLock then (if LockedList(s, t, steps).Some? then Last(LockedList(s, t, steps).value) else [])
    else if s.pc[t].sig == SigPop then Last(ListOf(s, TheCondition))
    else []
  }

  function Last(list: seq<Tid>): seq<Tid> {
    if list == [] then [] else [list[|list| - 1]]
  }

  /** Its own steps: to the pop with the list unchanged, and no second pop. */
  lemma OwnSignalStep(s: State, t: Tid, c: Choice, rest: seq<(Tid, Choice)>)
    requires Inv(s) && t in s.pc && s.pc[t].Signalling? && !s.pc[t].all
    ensures var z := Next(s, t, c);
            && t in z.pc
            && (z.pc[t].Signalling? ==> !z.pc[t].all && ToPop(s, t, [(t, c)] + rest) == PoppedBy(s, TheCondition, t) + ToPop(z, t, rest))
            && (!z.pc[t].Signalling? ==> s.pc[t].sig != SigLock && ToPop(s, t, [(t, c)] + rest) == PoppedBy(s, TheCondition, t) == [])
            && (s.pc[t].sig == SigLock && z.pc[t].Signalling? ==>
                  LockedList(s, t, [(t, c)] + rest) == if z.pc[t].sig == SigLock then LockedList(z, t, rest) else Some(ListOf(s, TheCondition)))
  {
    hide Locks, Queues, NoLostWakeup, EmptyPops;
    assert t !in s.sleeping;
    assert ([(t, c)] + rest)[1..] == rest;
  }

  lemma {:induction false} SignalPopsFrom(s: State, t: Tid, steps: seq<(Tid, Choice)>)
    requires Inv(s) && OneSignal(s, t, steps) && !s.pc[t].all
    ensures Pops(s, TheCondition, steps) == ToPop(s, t, steps)
    ensures s.pc[t].sig == SigLock ==> LockedList(s, t, steps).Some?
    ensures var z := Run(s, steps); t in z.pc && z.pc[t] == Critical
    decreases |steps|
  {
    hide Inv, Next, ListOf, PoppedBy;
    var u, c, rest := steps[0].0, steps[0].1, steps[1..];
    var z := Next(s, u, c);
    assert steps == [(u, c)] + rest;
    InvKept(s, u, c);
    SignalEnds(s, t, u, c);
    if u == t {
      OwnSignalStep(s, t, c, rest);
    } else {
      OthersPopNothing(s, t, u, c);
    }
    if |steps| == 1 {
      OneStepRun(s, steps);
      assert Pops(z, TheCondition, rest) == [];
    } else {
      SignalPopsFrom(z, t, rest);
    }
  }

  /** A plain signal pops the oldest of the list it locks, if there is one, and nobody else. */
  lemma SignalPopsOne(s0: State, before: seq<(Tid, Choice)>, t: Tid, steps: seq<(Tid, Choice)>)
    requires Init(s0)
    requires var s := Run(s0, before); t in s.pc && s.pc[t] == Signalling(false, SigLock) && OneSignal(s, t, steps)
    ensures var s := Run(s0, before); var list := LockedList(s, t, steps);
            && list.Some? && Pops(s, TheCondition, steps) == Last(list.value)
            && t in Run(s, steps).pc && Run(s, steps).pc[t] == Critical
  {
    hide Init, Inv, Run, Next, OneSignal, Pops, LockedList;
    InitInv(s0);
    RunInv(s0, before);
    SignalPopsFrom(Run(s0, before), t, steps);
  }

  // ---------------------------------------------------------------------
  // Acquire and wait
  // ---------------------------------------------------------------------

  /** An acquire is left with the mutex in hand only. */
  lemma AcquireEnds(s: State, t: Tid, u: Tid, c: Choice)
    requires Inv(s) && t in s.pc && s.pc[t].Acquiring?
    ensures var z := Next(s, u, c);
            && t in z.pc
            && (!z.pc[t].Acquiring? ==> u == t && z.pc[t] == Critical && z.mutex == Some(t) && z.heldBy == Some(t))
  {
    hide Locks, Sleepers, Queues, NoLostWakeup, EmptyPops, LocksMutexList, LocksCondList, WaitingOn;
    AcquireStep(s, t, u, c);
    InvKept(s, u, c);
    OwnFacts(Next(s, u, c), t);
    hide Next;
  }

  lemma AcquireStep(s: State, t: Tid, u: Tid, c: Choice)
    requires t in s.pc && s.pc[t].Acquiring?
    ensures var z := Next(s, u, c); t in z.pc && (!z.pc[t].Acquiring? ==> u == t && z.pc[t] == Critical)
  {
  }

  /** Where the calls begin. */
  lemma CallsBegin(s: State, t: Tid, c: Choice)
    requires Awake(s, t) && (s.pc[t] == Idle || s.pc[t] == Critical)
    ensures var z := Next(s, t, c);
            && t in z.pc && z == s.(pc := z.pc)
            && z.pc[t] == if s.pc[t] == Idle then
                            (match c
                             case Acquire => Acquiring(AcqTest)
                             case TryAcquire => Trying
                             case _ => Idle)
                          else
                            (match c
                             case Release => Releasing(false, RelClear)
                             case Wait => Waiting(WaitLock)
                             case Signal(all) => Signalling(all, SigLock)
                             case _ => Critical)
  {
  }

  /** A thread spins for a list lock exactly while it is taken. */
  lemma SpinsWhileLocked(s: State, t: Tid, c: Choice)
    requires Inv(s) && Awake(s, t)
    ensures var z := Next(s, t, c);
            var m := s.pc[t] == Acquiring(AcqLockList) || (s.pc[t].Releasing? && s.pc[t].rel == RelLockList);
            var n := s.pc[t] == Waiting(WaitLock) || (s.pc[t].Signalling? && s.pc[t].sig == SigLock);
            && t in z.pc
            && (m ==> if s.m.lock.Some? then z.pc[t] == s.pc[t] && z.m.lock == s.m.lock else z.pc[t] != s.pc[t] && z.m.lock == Some(t))
            && (n ==> if s.c.lock.Some? then z.pc[t] == s.pc[t] && z.c.lock == s.c.lock else z.pc[t] != s.pc[t] && z.c.lock == Some(t))
  {
    hide Inv;
  }

  /** An acquire goes for the list lock only from a test that found the mutex taken, and lists itself
      only when a second test, under the list lock, finds it taken too; once woken it tests again. */
  lemma AcquireListsOnlyIfTaken(s: State, t: Tid, c: Choice)
    requires Inv(s) && Awake(s, t) && s.pc[t].Acquiring?
    ensures var z := Next(s, t, c);
            && t in z.pc
            && (z.pc[t] == Acquiring(AcqLockList) ==> s.pc[t] == Acquiring(AcqLockList) || (s.pc[t] == Acquiring(AcqTest) && s.mutex.Some?))
            && (z.pc[t] == Acquiring(AcqPush) ==> s.mutex.Some? && s.m.lock == Some(t))
            && (s.pc[t] == Asleep(TheMutex) ==> z.pc[t] == Acquiring(AcqTest))
  {
    hide Sleepers, Queues, NoLostWakeup, EmptyPops;
  }

  /** acquireNonBlocking takes the mutex if it is free, and else goes without it at once. */
  lemma TryAcquireIff(s: State, t: Tid, c: Choice)
    requires Inv(s) && t in s.pc && s.pc[t] == Trying
    ensures var z := Next(s, t, c);
            t in z.pc && if s.mutex == None then z.mutex == Some(t) && Owns(z.pc[t]) else z.mutex == s.mutex && z.pc[t] == Idle
  {
    hide Locks, Queues, NoLostWakeup, EmptyPops;
    assert t !in s.sleeping;
  }

  /** Inside Condition::wait: the release, the sleep, and taking the mutex again. */
  predicate InWait(pc: Pc) {
    pc.Waiting? || (pc.Releasing? && pc.inWait)
  }

  /** A wait goes on with an acquire, unless it is one that does not take the mutex again. */
  lemma WaitEnds(s: State, t: Tid, u: Tid, c: Choice)
    requires Inv(s) && t in s.pc && InWait(s.pc[t])
    ensures var z := Next(s, u, c);
            && t in z.pc
            && (!InWait(z.pc[t]) ==>
                  && u == t && s.pc[t] == Waiting(WaitAsleep) && t !in s.sleeping
                  && z.pc[t] == if c == Leave then Idle else Acquiring(AcqTest))
  {
    hide Locks, Queues, NoLostWakeup, EmptyPops;
  }

  /** Thread t is inside a wait in every state of the run but the last. */
  ghost predicate OneWait(s: State, t: Tid, steps: seq<(Tid, Choice)>)
    decreases |steps|
  {
    && steps != [] && t in s.pc && InWait(s.pc[t])
    && var z := Next(s, steps[0].0, steps[0].1);
       if |steps| == 1 then t in z.pc && !InWait(z.pc[t]) else OneWait(z, t, steps[1..])
  }

  /** The push is still to come. */
  predicate BeforePush(pc: Pc) {
    pc == Waiting(WaitLock) || pc == Waiting(WaitPush) || (pc.Releasing? && pc.inWait)
  }

  lemma PushStep(s: State, t: Tid, u: Tid, c: Choice)
    requires Inv(s) && t in s.pc && InWait(s.pc[t]) && BeforePush(s.pc[t])
    ensures var z := Next(s, u, c);
            t in z.pc && InWait(z.pc[t]) && (BeforePush(z.pc[t]) || PushedBy(s, TheCondition, u) == [t])
  {
    hide Locks, Queues, NoLostWakeup, EmptyPops;
    assert t !in s.sleeping;
  }

  lemma {:induction false} WaitPushes(s: State, t: Tid, steps: seq<(Tid, Choice)>)
    requires Inv(s) && OneWait(s, t, steps)
    ensures BeforePush(s.pc[t]) ==> t in Pushes(s, TheCondition, steps)
    ensures var z := Run(s, steps); Inv(z) && t in z.pc && !InWait(z.pc[t])
    decreases |steps|
  {
    hide Inv, Next, PushedBy;
    var u, c := steps[0].0, steps[0].1;
    var z := Next(s, u, c);
    InvKept(s, u, c);
    if BeforePush(s.pc[t]) {
      PushStep(s, t, u, c);
    }
    if |steps| == 1 {
      OneStepRun(s, steps);
    } else {
      WaitPushes(z, t, steps[1..]);
    }
  }

  lemma NotListedOutside(s: State, t: Tid)
    requires Inv(s) && t in s.pc && !InWait(s.pc[t])
    ensures t !in ListOf(s, TheCondition)
  {
    hide Locks, Sleepers, NoLostWakeup, EmptyPops;
    assert t in ListOf(s, TheCondition) ==> t in QueueOf(s, TheCondition).members;
  }

  /** A wait is over only after some signal or broadcast has popped the thread. */
  lemma WaitEndsAfterPop(s0: State, before: seq<(Tid, Choice)>, t: Tid, steps: seq<(Tid, Choice)>)
    requires Init(s0)
    requires var s := Run(s0, before); t in s.pc && s.pc[t] == Waiting(WaitLock) && OneWait(s, t, steps)
    ensures t in Pops(Run(s0, before), TheCondition, steps)
  {
    hide Init, Inv, Run, Next, OneWait, Pops, Pushes, ListOf;
    InitInv(s0);
    RunInv(s0, before);
    var s := Run(s0, before);
    WaitPushes(s, t, steps);
    NotListedOutside(Run(s, steps), t);
    QueueConserved(s, TheCondition, steps);
    InOrderSame(ListOf(Run(s, steps), TheCondition));
    var all := InOrder(ListOf(s, TheCondition)) + Pushes(s, TheCondition, steps);
    assert t in all;
  }

  // ---------------------------------------------------------------------
  // Release
  // ---------------------------------------------------------------------

  /** While a release has the list locked nobody else changes the list. */
  lemma {:induction false} LockedListStays(s: State, t: Tid, steps: seq<(Tid, Choice)>)
    requires Inv(s) && t in s.pc && LocksMutexList(s.pc[t])
    requires forall k :: 0 <= k < |steps| ==> steps[k].0 != t
    ensures var z := Run(s, steps);
            t in z.pc && z.pc[t] == s.pc[t] && ListOf(z, TheMutex) == ListOf(s, TheMutex) && z.m.lock == Some(t)
    decreases |steps|
  {
    hide Sleepers, Queues, NoLostWakeup, EmptyPops;
    if steps != [] {
      var u, c := steps[0].0, steps[0].1;
      InvKept(s, u, c);
      if Awake(s, u) {
        OnlyUnderTheLock(s, s.pc[u], u, c);
        assert !LocksMutexList(s.pc[u]);
      }
      hide Next, Locks;
      LockedListStays(Next(s, u, c), t, steps[1..]);
    }
  }

  /** A release pops the oldest of the list it has locked, and goes on to wake it; nobody if the list
      is empty. */
  lemma ReleasePopsOldest(s0: State, before: seq<(Tid, Choice)>, t: Tid, c: Choice, steps: seq<(Tid, Choice)>, c': Choice)
    requires Init(s0)
    requires var s := Run(s0, before); t in s.pc && s.pc[t].Releasing? && s.pc[t].rel == RelLockList && s.m.lock == None
    requires forall k :: 0 <= k < |steps| ==> steps[k].0 != t
    ensures var s := Run(s0, before);
            var y := Run(Next(s, t, c), steps);
            var list := ListOf(s, TheMutex);
            && PoppedBy(y, TheMutex, t) == Last(list)
            && t in Next(y, t, c').pc && Next(y, t, c').pc[t] == Releasing(s.pc[t].inWait, RelUnlock(Oldest(list)))
  {
    InitInv(s0);
    RunInv(s0, before);
    hide Init, Run;
    var s := Run(s0, before);
    InvKept(s, t, c);
    LockTaken(s, t, c);
    RunInv(Next(s, t, c), steps);
    LockedListStays(Next(s, t, c), t, steps);
    PopStep(Run(Next(s, t, c), steps), t, c');
  }

  lemma LockTaken(s: State, t: Tid, c: Choice)
    requires Inv(s) && t in s.pc && s.pc[t].Releasing? && s.pc[t].rel == RelLockList && s.m.lock == None
    ensures var z := Next(s, t, c);
            t in z.pc && z.pc[t] == Releasing(s.pc[t].inWait, RelPop) && ListOf(z, TheMutex) == ListOf(s, TheMutex)
  {
    hide Locks, Queues, NoLostWakeup, EmptyPops;
    assert t !in s.sleeping;
  }

  lemma PopStep(s: State, t: Tid, c: Choice)
    requires Inv(s) && t in s.pc && s.pc[t].Releasing? && s.pc[t].rel == RelPop
    ensures PoppedBy(s, TheMutex, t) == Last(ListOf(s, TheMutex))
    ensures var z := Next(s, t, c);
            t in z.pc && z.pc[t] == Releasing(s.pc[t].inWait, RelUnlock(Oldest(ListOf(s, TheMutex))))
  {
    hide Locks, Queues, NoLostWakeup, EmptyPops;
    assert t !in s.sleeping;
  }
}
