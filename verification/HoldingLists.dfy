/** Any number of mutexes, each with its condition, and the list of locks every thread holds.

    A thread is inside one operation at a time, so a step of the whole system is a step of one lock
    by a thread that is outside all the others. */
module HoldingLists {
  import opened Basics
  import opened Holders
  import opened LockProtocol

  type LockId = nat

  datatype System = System(
    locks: map<LockId, State>,
    holding: map<Tid, seq<LockId>>)  // holding_lock_list_ of each thread, newest first

  /** Outside the methods of a lock. */
  predicate AtRest(s: State, t: Tid) {
    t in s.pc && (s.pc[t] == Idle || s.pc[t] == Critical)
  }

  ghost predicate MayStep(y: System, t: Tid, l: LockId) {
    && t in y.holding && l in y.locks && t in y.locks[l].pc
    && forall k :: k in y.locks && k != l ==> AtRest(y.locks[k], t)
  }

  /** pushFrontToCurrentThreadHoldingList goes with setting held_by_, the removal with clearing it. */
  function Held(list: seq<LockId>, l: LockId, pc: Pc): seq<LockId> {
    if pc == Acquiring(AcqHeld) then [l] + list
    else if pc.Releasing? && pc.rel == RelClear then Without(list, l)
    else list
  }

  function StepSystem(y: System, t: Tid, l: LockId, c: Choice): System
    requires t in y.holding && l in y.locks && t in y.locks[l].pc
  {
    var s := y.locks[l];
    if !Awake(s, t) then y
    else System(y.locks[l := Next(s, t, c)], y.holding[t := Held(y.holding[t], l, s.pc[t])])
  }

  ghost predicate Start(y: System) {
    && (forall l :: l in y.locks ==> Init(y.locks[l]) && y.locks[l].pc.Keys == y.holding.Keys)
    && forall t :: t in y.holding ==> y.holding[t] == []
  }

  /** A run takes any step that is possible. */
  ghost predicate Reaches(y: System, steps: seq<(Tid, LockId, Choice)>, z: System)
    decreases |steps|
  {
    if steps == [] then y == z
    else
      var (t, l, c) := steps[0];
      MayStep(y, t, l) && Reaches(StepSystem(y, t, l, c), steps[1..], z)
  }

  /** The list of thread t holds, once each, exactly the locks it has in hand. */
  ghost predicate Exact(y: System, t: Tid)
    requires t in y.holding
  {
    && Distinct(y.holding[t])
    && forall l :: l in y.holding[t] <==> l in y.locks && t in y.locks[l].pc && InHand(y.locks[l].pc[t])
  }

  ghost predicate Sound(y: System) {
    forall l :: l in y.locks ==> Inv(y.locks[l]) && y.locks[l].pc.Keys == y.holding.Keys
  }

  ghost predicate SystemInv(y: System) {
    Sound(y) && forall t :: t in y.holding ==> Exact(y, t)
  }

  /** A thread takes a lock in hand where it sets held_by_, and gives it up where it clears it. */
  lemma HandChanges(s: State, pc: Pc, c: Choice)
    ensures InHand(NextPc(s, pc, c)) <==> pc == Acquiring(AcqHeld) || (InHand(pc) && !(pc.Releasing? && pc.rel == RelClear))
  {
  }

  lemma HeldIs(list: seq<LockId>, l: LockId, pc: Pc)
    requires Distinct(list) && (l in list <==> InHand(pc))
    ensures Distinct(Held(list, l, pc))
    ensures forall k :: k != l ==> (k in Held(list, l, pc) <==> k in list)
    ensures l in Held(list, l, pc) <==> pc == Acquiring(AcqHeld) || (InHand(pc) && !(pc.Releasing? && pc.rel == RelClear))
  {
    WithoutIs(list, l);
  }

  lemma OwnListExact(y: System, t: Tid, l: LockId, c: Choice)
    requires MayStep(y, t, l) && Awake(y.locks[l], t) && Exact(y, t)
    ensures Exact(StepSystem(y, t, l, c), t)
  {
    hide NextPc, Effect, Held, InHand, Distinct;
    var s := y.locks[l];
    HandChanges(s, s.pc[t], c);
    HeldIs(y.holding[t], l, s.pc[t]);
  }

  lemma OtherListExact(y: System, t: Tid, l: LockId, c: Choice, u: Tid)
    requires MayStep(y, t, l) && u in y.holding && Exact(y, u) && u != t
    ensures Exact(StepSystem(y, t, l, c), u)
  {
    hide NextPc, Effect, Held, InHand, Distinct;
  }

  lemma SoundKept(y: System, t: Tid, l: LockId, c: Choice)
    requires Sound(y) && MayStep(y, t, l)
    ensures Sound(StepSystem(y, t, l, c))
  {
    hide Inv, NextPc, Effect, Held;
    if Awake(y.locks[l], t) {
      InvKept(y.locks[l], t, c);
      assert Next(y.locks[l], t, c).pc.Keys == y.locks[l].pc.Keys;
    }
  }

  lemma SystemInvKept(y: System, t: Tid, l: LockId, c: Choice)
    requires SystemInv(y) && MayStep(y, t, l)
    ensures SystemInv(StepSystem(y, t, l, c))
  {
    hide Sound, Exact, Next, Held;
    SoundKept(y, t, l, c);
    if Awake(y.locks[l], t) {
      OwnListExact(y, t, l, c);
      forall u | u in y.holding && u != t ensures Exact(StepSystem(y, t, l, c), u) {
        OtherListExact(y, t, l, c, u);
      }
    }
  }

  lemma {:induction false} ReachesInv(y: System, steps: seq<(Tid, LockId, Choice)>, z: System)
    requires SystemInv(y) && Reaches(y, steps, z)
    ensures SystemInv(z)
    decreases |steps|
  {
    hide SystemInv;
    if steps != [] {
      var (t, l, c) := steps[0];
      SystemInvKept(y, t, l, c);
      ReachesInv(StepSystem(y, t, l, c), steps[1..], z);
    }
  }

  lemma StartInv(y: System)
    requires Start(y)
    ensures SystemInv(y)
  {
    hide Inv;
    forall l | l in y.locks ensures Inv(y.locks[l]) {
      InitInv(y.locks[l]);
    }
  }

  /** In every reachable state of any number of mutexes, the holding list of a thread has no
      duplicates and names exactly the locks whose held_by_ is that thread, so no lock is on two
      lists. */
  lemma HoldingListsExact(y: System, steps: seq<(Tid, LockId, Choice)>, z: System, t: Tid, l: LockId)
    requires Start(y) && Reaches(y, steps, z) && t in z.holding && l in z.locks
    ensures Distinct(z.holding[t])
    ensures l in z.holding[t] <==> z.locks[l].heldBy == Some(t)
    ensures l in z.holding[t] ==> z.locks[l].mutex == Some(t) && forall u :: u in z.holding && u != t ==> l !in z.holding[u]
  {
    hide Start, Reaches, SystemInv;
    StartInv(y);
    ReachesInv(y, steps, z);
    HandIsHeldBy(z, t, l);
    forall u | u in z.holding && u != t && l in z.holding[t] ensures l !in z.holding[u] {
      HandIsHeldBy(z, u, l);
    }
  }

  lemma HandIsHeldBy(z: System, t: Tid, l: LockId)
    requires SystemInv(z) && t in z.holding && l in z.locks
    ensures Distinct(z.holding[t]) && (l in z.holding[t] <==> z.locks[l].heldBy == Some(t))
    ensures l in z.holding[t] ==> z.locks[l].mutex == Some(t)
  {
    hide Locks, Sleepers, Queues, NoLostWakeup, EmptyPops, Distinct, InHand, Owns, LocksMutexList, LocksCondList, WaitingOn;
    OwnFacts(z.locks[l], t);
  }

  /** The assert on holding_lock_list_ in Condition::wait passes: a thread at the beginning of a wait,
      as at any point where it has a lock in hand, has that lock on its list. */
  lemma WaitingThreadHoldsALock(y: System, steps: seq<(Tid, LockId, Choice)>, z: System, t: Tid, l: LockId)
    requires Start(y) && Reaches(y, steps, z) && t in z.holding && l in z.locks
    requires t in z.locks[l].pc && InHand(z.locks[l].pc[t])
    ensures l in z.holding[t] && z.holding[t] != []
  {
    hide Start, Reaches, Sound;
    StartInv(y);
    ReachesInv(y, steps, z);
  }
}
