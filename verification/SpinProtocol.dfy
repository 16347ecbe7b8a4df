/** A spin lock for any number of threads and any interleaving, one access to shared memory a step.

    The stores to lock_waiting_on_ go with the step beside them: it is the thread's own. */
module SpinProtocol {
  import opened Basics
  import opened Holders

  datatype Pc =
    | Idle                                  // outside, without the lock
    | Holding                               // outside, with it
    | Trying                                // acquireNonBlocking: testSetLock
    | First                                 // acquire: the first testSetLock
    | Listing(list: ListStep)               // set lock_waiting_on_, push onto the list
    | Spinning                              // the testSetLock of the loop
    | Unlisting(list: ListStep)             // got it: off the list
    | Taking                                // set held_by_
    | Clearing                              // release: held_by_ = 0
    | Freeing                               // lock_ = 0

  datatype ListStep = LockList | EditList | UnlockList

  datatype State = State(
    lock: Option<Tid>,                      // lock_
    heldBy: Option<Tid>,                    // held_by_
    listLock: Option<Tid>,                  // waiters_list_lock_
    list: seq<Tid>,                         // waiters_list_, newest first
    pc: map<Tid, Pc>,
    waiting: set<Tid>)                      // threads whose lock_waiting_on_ is this lock

  datatype Choice = Acquire | TryAcquire | Release

  function NextList(s: State, l: ListStep): ListStep {
    match l
    case LockList => if s.listLock.Some? then LockList else EditList
    case EditList => UnlockList
    case UnlockList => UnlockList
  }

  function NextPc(s: State, pc: Pc, c: Choice): Pc {
    match pc
    case Idle => if c.Acquire? then First else if c.TryAcquire? then Trying else Idle
    case Holding => if c.Release? then Clearing else Holding
    case Trying => if s.lock.Some? then Idle else Taking
    case First => if s.lock.Some? then Listing(LockList) else Taking
    case Listing(l) => if l.UnlockList? then Spinning else Listing(NextList(s, l))
    case Spinning => if s.lock.Some? then Spinning else Unlisting(LockList)
    case Unlisting(l) => if l.UnlockList? then Taking else Unlisting(NextList(s, l))
    case Taking => Holding
    case Clearing => Freeing
    case Freeing => Idle
  }

  function Effect(s: State, pc: Pc, t: Tid): State {
    match pc
    case Trying | First | Spinning => s.(lock := TestSet(s.lock, t))
    case Listing(l) =>
      (match l
       case LockList => s.(listLock := TestSet(s.listLock, t), waiting := s.waiting + {t})
       case EditList => s.(list := [t] + s.list)
       case UnlockList => s.(listLock := None))
    case Unlisting(l) =>
      (match l
       case LockList => s.(listLock := TestSet(s.listLock, t))
       case EditList => s.(list := Without(s.list, t))
       case UnlockList => s.(listLock := None, waiting := s.waiting - {t}))
    case Taking => s.(heldBy := Some(t))
    case Clearing => s.(heldBy := None)
    case Freeing => s.(lock := None)
    case _ => s
  }

  function Next(s: State, t: Tid, c: Choice): State {
    if t !in s.pc then s else Effect(s, s.pc[t], t).(pc := s.pc[t := NextPc(s, s.pc[t], c)])
  }

  ghost predicate Init(s: State) {
    s == State(None, None, None, [], s.pc, {}) && forall t :: t in s.pc ==> s.pc[t] == Idle
  }

  function Run(s: State, steps: seq<(Tid, Choice)>): State
    decreases |steps|
  {
    if steps == [] then s else Run(Next(s, steps[0].0, steps[0].1), steps[1..])
  }

  // ---------------------------------------------------------------------
  // The invariant
  // ---------------------------------------------------------------------

  predicate Owns(pc: Pc) {
    pc.Unlisting? || pc.Taking? || pc.Freeing? || InHand(pc)
  }

  predicate InHand(pc: Pc) {
    pc.Holding? || pc.Clearing?
  }

  predicate LocksList(pc: Pc) {
    (pc.Listing? || pc.Unlisting?) && !pc.list.LockList?
  }

  /** Between its push and its removal. */
  predicate Listed(pc: Pc) {
    pc == Listing(UnlockList) || pc.Spinning? || pc == Unlisting(LockList) || pc == Unlisting(EditList)
  }

  /** Between the stores to lock_waiting_on_; the first of them goes with the spinning for the list. */
  predicate MayWait(pc: Pc) {
    pc.Listing? || pc.Spinning? || pc.Unlisting?
  }

  ghost predicate Locks(s: State) {
    && HolderIs(s.pc, s.lock, Owns)
    && HolderIs(s.pc, s.heldBy, InHand)
    && HolderIs(s.pc, s.listLock, LocksList)
  }

  /** The list holds exactly the threads between push and removal, once each. */
  ghost predicate ListExact(s: State) {
    && Distinct(s.list)
    && (forall t :: t in s.list <==> t in s.pc && Listed(s.pc[t]))
  }

  /** lock_waiting_on_ is set only on the way through the list, and all the way from its first step on. */
  ghost predicate WaitingExact(s: State) {
    && (forall t :: t in s.waiting ==> t in s.pc && MayWait(s.pc[t]))
    && (forall t :: t in s.pc && MayWait(s.pc[t]) && s.pc[t] != Listing(LockList) ==> t in s.waiting)
  }

  ghost predicate Inv(s: State) {
    Locks(s) && ListExact(s) && WaitingExact(s)
  }

  lemma LockHandover(s: State, pc: Pc, t: Tid, c: Choice)
    requires Owns(pc) <==> s.lock == Some(t)
    ensures Handover(s.lock, t, Owns(pc), Effect(s, pc, t).lock, Owns(NextPc(s, pc, c)))
  {
  }

  lemma HeldByHandover(s: State, pc: Pc, t: Tid, c: Choice)
    requires (InHand(pc) <==> s.heldBy == Some(t)) && (Owns(pc) <==> s.lock == Some(t))
    requires s.heldBy.Some? ==> s.heldBy == s.lock
    ensures Handover(s.heldBy, t, InHand(pc), Effect(s, pc, t).heldBy, InHand(NextPc(s, pc, c)))
  {
  }

  lemma ListHandover(s: State, pc: Pc, t: Tid, c: Choice)
    requires LocksList(pc) <==> s.listLock == Some(t)
    ensures Handover(s.listLock, t, LocksList(pc), Effect(s, pc, t).listLock, LocksList(NextPc(s, pc, c)))
  {
  }

  lemma LocksKept(s: State, t: Tid, c: Choice)
    requires Locks(s)
    ensures Locks(Next(s, t, c))
  {
    if t in s.pc {
      hide NextPc, Effect, LocksList, Handover;
      var pc, next, z := s.pc[t], NextPc(s, s.pc[t], c), Effect(s, s.pc[t], t);
      LockHandover(s, pc, t, c);
      HolderMoves(s.pc, s.lock, Owns, t, next, z.lock);
      HeldByHandover(s, pc, t, c);
      HolderMoves(s.pc, s.heldBy, InHand, t, next, z.heldBy);
      ListHandover(s, pc, t, c);
      HolderMoves(s.pc, s.listLock, LocksList, t, next, z.listLock);
    }
  }

  /** What a step does to the list: its own thread enters or leaves, or nothing changes. */
  lemma ListStepIs(s: State, pc: Pc, t: Tid, c: Choice)
    ensures var list, next := Effect(s, pc, t).list, NextPc(s, pc, c);
            if pc == Listing(EditList) then list == [t] + s.list && Listed(next) && !Listed(pc)
            else if pc == Unlisting(EditList) then list == Without(s.list, t) && !Listed(next)
            else list == s.list && (Listed(next) <==> Listed(pc))
  {
  }

  lemma ListKept(s: State, t: Tid, c: Choice)
    requires ListExact(s)
    ensures ListExact(Next(s, t, c))
  {
    if t in s.pc {
      ListStepIs(s, s.pc[t], t, c);
      WithoutIs(s.list, t);
      hide NextPc, Effect, Without, Listed;
    }
  }

  lemma WaitingStepIs(s: State, pc: Pc, t: Tid, c: Choice)
    ensures var z, next := Effect(s, pc, t), NextPc(s, pc, c);
            && (forall u :: u != t ==> (u in z.waiting <==> u in s.waiting))
            && (t in z.waiting ==> MayWait(next) || (t in s.waiting && !MayWait(pc)))
            && (MayWait(next) && next != Listing(LockList) ==> t in z.waiting || (MayWait(pc) && pc != Listing(LockList) && t !in s.waiting))
  {
  }

  lemma WaitingKept(s: State, t: Tid, c: Choice)
    requires WaitingExact(s)
    ensures WaitingExact(Next(s, t, c))
  {
    if t in s.pc {
      WaitingStepIs(s, s.pc[t], t, c);
      hide NextPc, Effect, MayWait;
    }
  }

  lemma {:induction false} RunInv(s: State, steps: seq<(Tid, Choice)>)
    requires Inv(s)
    ensures Inv(Run(s, steps))
    decreases |steps|
  {
    if steps != [] {
      hide Locks, ListExact, WaitingExact, Next;
      LocksKept(s, steps[0].0, steps[0].1);
      ListKept(s, steps[0].0, steps[0].1);
      WaitingKept(s, steps[0].0, steps[0].1);
      RunInv(Next(s, steps[0].0, steps[0].1), steps[1..]);
    }
  }

  // ---------------------------------------------------------------------
  // Every reachable state
  // ---------------------------------------------------------------------

  /** At most one thread owns the spin lock. */
  lemma MutualExclusion(s: State, steps: seq<(Tid, Choice)>, t: Tid, u: Tid)
    requires Init(s)
    requires var r := Run(s, steps); t in r.pc && u in r.pc && Owns(r.pc[t]) && Owns(r.pc[u])
    ensures t == u
  {
    RunInv(s, steps);
  }

  /** The asserts pass: nothing is waited for where a wait begins, the list lock is held where the
      list is edited, the thread that is removed from the list is on it, held_by_ is 0 where the lock
      is taken and the thread where it is released. */
  lemma NoAssertFails(s: State, steps: seq<(Tid, Choice)>, t: Tid)
    requires Init(s) && t in Run(s, steps).pc
    ensures var r := Run(s, steps);
            var pc := r.pc[t];
            && (pc == Trying || pc == First ==> t !in r.waiting && r.heldBy != Some(t))
            && (pc == Listing(EditList) ==> r.listLock == Some(t) && t !in r.list)
            && (pc == Unlisting(EditList) ==> r.listLock == Some(t) && t in r.list)
            && (pc == Taking ==> r.heldBy == None && r.lock == Some(t))
            && (pc == Clearing ==> r.heldBy == Some(t))
  {
    RunInv(s, steps);
  }

  /** Inside acquire, past its first asserts. */
  predicate InAcquire(pc: Pc) {
    pc == First || pc.Listing? || pc.Spinning? || pc.Unlisting? || pc.Taking?
  }

  /** An acquire is left with the lock in hand only. */
  lemma AcquireEnds(s: State, steps: seq<(Tid, Choice)>, t: Tid, u: Tid, c: Choice)
    requires Init(s) && t in Run(s, steps).pc && InAcquire(Run(s, steps).pc[t])
    ensures var z := Next(Run(s, steps), u, c);
            t in z.pc && (!InAcquire(z.pc[t]) ==> u == t && z.pc[t] == Holding && z.lock == Some(t) && z.heldBy == Some(t))
  {
    RunInv(s, steps);
    hide Init, Run, ListExact, WaitingExact, LocksList;
    AcquireStep(Run(s, steps), t, u, c);
  }

  lemma AcquireStep(s: State, t: Tid, u: Tid, c: Choice)
    requires Locks(s) && t in s.pc && InAcquire(s.pc[t])
    ensures var z := Next(s, u, c);
            t in z.pc && (!InAcquire(z.pc[t]) ==> u == t && z.pc[t] == Holding && z.lock == Some(t) && z.heldBy == Some(t))
  {
    hide LocksList;
  }

  /** One that does not block takes the lock if it is free, and else goes without it at once; a release
      is left without it. */
  lemma OtherCallsEnd(s: State, steps: seq<(Tid, Choice)>, t: Tid, c: Choice)
    requires Init(s) && t in Run(s, steps).pc
    ensures var r := Run(s, steps);
            var z := Next(r, t, c);
            && t in z.pc
            && (r.pc[t] == Trying ==> if r.lock == None then z.lock == Some(t) && z.pc[t] == Taking else z.lock == r.lock && z.pc[t] == Idle)
            && (r.pc[t] == Clearing ==> z.pc[t] == Freeing && z.heldBy == None)
            && (r.pc[t] == Freeing ==> z.pc[t] == Idle && z.lock == None && z.heldBy == None)
  {
    hide Init, Run, ListExact, WaitingExact, Locks, HolderIs;
    InitInv(s);
    RunInv(s, steps);
    NotHeldWhenFreed(Run(s, steps), t);
  }

  lemma InitInv(s: State)
    requires Init(s)
    ensures Inv(s)
  {
  }

  lemma NotHeldWhenFreed(s: State, t: Tid)
    requires Locks(s) && t in s.pc
    ensures s.pc[t] == Freeing ==> s.heldBy == None
  {
  }

  /** A thread that spins has lock_waiting_on_ set, for the deadlock check of others. */
  lemma SpinnersWait(s: State, steps: seq<(Tid, Choice)>, t: Tid)
    requires Init(s)
    requires t in Run(s, steps).pc && Run(s, steps).pc[t] == Spinning
    ensures t in Run(s, steps).waiting
  {
    RunInv(s, steps);
  }

  /** The waiters list is exactly the threads that spin, or are about to or done with it. */
  lemma WaitersAreTheSpinners(s: State, steps: seq<(Tid, Choice)>, t: Tid)
    requires Init(s)
    ensures var r := Run(s, steps); Distinct(r.list) && (t in r.list <==> t in r.pc && Listed(r.pc[t]))
  {
    RunInv(s, steps);
  }

  /** Nobody spins forever on a free lock with nobody moving: while a thread is not outside without
      the lock, some thread's next step takes it somewhere else. */
  lemma NeverStuck(s: State, steps: seq<(Tid, Choice)>, t: Tid) returns (u: Tid)
    requires Init(s)
    requires var r := Run(s, steps); t in r.pc && r.pc[t] != Idle
    ensures var r := Run(s, steps); u in r.pc && r.pc[u] != Idle && NextPc(r, r.pc[u], Release) != r.pc[u]
  {
    RunInv(s, steps);
    var r := Run(s, steps);
    u := t;
    if NextPc(r, r.pc[t], Release) == r.pc[t] {
      if r.pc[t] == Spinning {
        u := r.lock.value;
        if r.pc[u] == Unlisting(LockList) && r.listLock.Some? {
          u := r.listLock.value;
        }
      } else {
        u := r.listLock.value;
      }
    }
  }
}
