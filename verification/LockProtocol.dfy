/** A mutex and a condition on it, for any number of threads and any interleaving.

    One step is one access to shared memory: a `testSetLock`, a store to `mutex_` or `held_by_`,
    a push or pop of a waiters list, or a change of a thread's state.  The three lock words are
    0 or 1 in the source; here a set word also remembers which thread set it, which no step reads
    except to see whether the word is set. */
module LockProtocol {
  import opened Basics
  import opened Holders

  datatype LockName = TheMutex | TheCondition

  /** Where a thread is: outside, without or with the mutex, or at a step of one of the methods.
      `inWait` tells a release inside `Condition::wait` from one of its own. */
  datatype Pc =
    | Idle
    | Critical
    | Trying                                       // Mutex::acquireNonBlocking: testSetLock
    | Acquiring(acq: AcqStep)
    | Releasing(inWait: bool, rel: RelStep)
    | Waiting(wait: WaitStep)
    | Signalling(all: bool, sig: SigStep)

  /** Mutex::acquire and Lock::sleepAndRelease. */
  datatype AcqStep =
    | AcqTest                                      // first testSetLock of the loop
    | AcqLockList                                  // spin for the list lock
    | AcqRetest                                    // second testSetLock, under the list lock
    | AcqUnlockWin                                 // got it after all: unlock the list
    | AcqPush                                      // set lock_waiting_on_, push onto the list
    | AcqUnlock                                    // unlock the list
    | AcqSleep                                     // set the state to Sleeping
    | AcqAsleep                                    // once running again: clear lock_waiting_on_
    | AcqHeld                                      // got it: set held_by_

  /** Mutex::release and Scheduler::wake. */
  datatype RelStep =
    | RelClear                                     // held_by_ = 0
    | RelFree                                      // mutex_ = 0
    | RelLockList
    | RelPop
    | RelUnlock(popped: Option<Tid>)
    | RelWake(target: Tid)                         // spin until it sleeps, then set Running

  /** Condition::wait: the list lock, then a release, then these. */
  datatype WaitStep = WaitLock | WaitPush | WaitUnlock | WaitSleep | WaitAsleep

  /** Condition::signal and broadcast. */
  datatype SigStep = SigLock | SigPop | SigUnlock(popped: Option<Tid>) | SigWake(target: Tid)

  /** waiters_list_ (newest first) and waiters_list_lock_ of a lock. */
  datatype Waiters = Waiters(lock: Option<Tid>, list: seq<Tid>)

  datatype State = State(
    mutex: Option<Tid>,             // mutex_
    heldBy: Option<Tid>,            // held_by_ of the mutex
    m: Waiters,                     // of the mutex
    c: Waiters,                     // of the condition
    pc: map<Tid, Pc>,
    sleeping: set<Tid>,             // threads whose state_ is Sleeping
    waitingOn: map<Tid, LockName>)  // lock_waiting_on_, absent for 0

  /** What a thread outside decides to do next, and whether a wait takes the mutex again. */
  datatype Choice = Acquire | TryAcquire | Release | Wait | Signal(all: bool) | Leave

  /** The last of a waiters list, the longest waiting thread. */
  function Oldest(list: seq<Tid>): Option<Tid> {
    if list == [] then None else Some(list[|list| - 1])
  }

  function DropOldest(list: seq<Tid>): seq<Tid> {
    if list == [] then [] else list[..|list| - 1]
  }

  /** Where the next step takes a thread: to the same place while it spins. */
  function NextPc(s: State, pc: Pc, c: Choice): Pc {
    match pc
    case Idle => if c.Acquire? then Acquiring(AcqTest) else if c.TryAcquire? then Trying else Idle
    case Critical =>
      if c.Release? then Releasing(false, RelClear)
      else if c.Wait? then Waiting(WaitLock)
      else if c.Signal? then Signalling(c.all, SigLock)
      else Critical
    case Trying => if s.mutex.Some? then Idle else Acquiring(AcqHeld)
    case Acquiring(a) => NextAcquiring(s, a)
    case Releasing(w, r) => NextReleasing(s, w, r)
    case Waiting(w) => NextWaiting(s, w, c)
    case Signalling(all, g) => NextSignalling(s, all, g)
  }

  function NextAcquiring(s: State, a: AcqStep): Pc {
    match a
    case AcqTest => Acquiring(if s.mutex.Some? then AcqLockList else AcqHeld)
    case AcqLockList => Acquiring(if s.m.lock.Some? then AcqLockList else AcqRetest)
    case AcqRetest => Acquiring(if s.mutex.Some? then AcqPush else AcqUnlockWin)
    case AcqUnlockWin => Acquiring(AcqHeld)
    case AcqPush => Acquiring(AcqUnlock)
    case AcqUnlock => Acquiring(AcqSleep)
    case AcqSleep => Acquiring(AcqAsleep)
    case AcqAsleep => Acquiring(AcqTest)
    case AcqHeld => Critical
  }

  function NextReleasing(s: State, w: bool, r: RelStep): Pc {
    match r
    case RelClear => Releasing(w, RelFree)
    case RelFree => Releasing(w, RelLockList)
    case RelLockList => Releasing(w, if s.m.lock.Some? then RelLockList else RelPop)
    case RelPop => Releasing(w, RelUnlock(Oldest(s.m.list)))
    case RelUnlock(u) => if u.Some? then Releasing(w, RelWake(u.value)) else AfterRelease(w)
    case RelWake(u) => if u in s.sleeping then AfterRelease(w) else Releasing(w, r)
  }

  function AfterRelease(inWait: bool): Pc {
    if inWait then Waiting(WaitPush) else Idle
  }

  function NextWaiting(s: State, w: WaitStep, c: Choice): Pc {
    match w
    case WaitLock => if s.c.lock.Some? then Waiting(WaitLock) else Releasing(true, RelClear)
    case WaitPush => Waiting(WaitUnlock)
    case WaitUnlock => Waiting(WaitSleep)
    case WaitSleep => Waiting(WaitAsleep)
    case WaitAsleep => if c.Leave? then Idle else Acquiring(AcqTest)
  }

  function NextSignalling(s: State, all: bool, g: SigStep): Pc {
    match g
    case SigLock => Signalling(all, if s.c.lock.Some? then SigLock else SigPop)
    case SigPop => Signalling(all, SigUnlock(Oldest(s.c.list)))
    case SigUnlock(u) => if u.Some? then Signalling(all, SigWake(u.value)) else Critical
    case SigWake(u) => if u !in s.sleeping then Signalling(all, g) else if all then Signalling(all, SigLock) else Critical
  }

  /** What that step of thread t stores. */
  function Effect(s: State, pc: Pc, t: Tid): State {
    match pc
    case Trying => s.(mutex := TestSet(s.mutex, t))
    case Acquiring(a) => AcquiringEffect(s, a, t)
    case Releasing(_, r) => ReleasingEffect(s, r, t)
    case Waiting(w) => WaitingEffect(s, w, t)
    case Signalling(_, g) => SignallingEffect(s, g, t)
    case _ => s
  }

  function AcquiringEffect(s: State, a: AcqStep, t: Tid): State {
    match a
    case AcqTest => s.(mutex := TestSet(s.mutex, t))
    case AcqLockList => s.(m := s.m.(lock := TestSet(s.m.lock, t)))
    case AcqRetest => s.(mutex := TestSet(s.mutex, t))
    case AcqUnlockWin => s.(m := s.m.(lock := None))
    case AcqPush => s.(waitingOn := s.waitingOn[t := TheMutex], m := s.m.(list := [t] + s.m.list))
    case AcqUnlock => s.(m := s.m.(lock := None))
    case AcqSleep => s.(sleeping := s.sleeping + {t})
    case AcqAsleep => s.(waitingOn := s.waitingOn - {t})
    case AcqHeld => s.(heldBy := Some(t))
  }

  function ReleasingEffect(s: State, r: RelStep, t: Tid): State {
    match r
    case RelClear => s.(heldBy := None)
    case RelFree => s.(mutex := None)
    case RelLockList => s.(m := s.m.(lock := TestSet(s.m.lock, t)))
    case RelPop => s.(m := s.m.(list := DropOldest(s.m.list)))
    case RelUnlock(_) => s.(m := s.m.(lock := None))
    case RelWake(u) => s.(sleeping := s.sleeping - {u})
  }

  function WaitingEffect(s: State, w: WaitStep, t: Tid): State {
    match w
    case WaitLock => s.(c := s.c.(lock := TestSet(s.c.lock, t)))
    case WaitPush => s.(waitingOn := s.waitingOn[t := TheCondition], c := s.c.(list := [t] + s.c.list))
    case WaitUnlock => s.(c := s.c.(lock := None))
    case WaitSleep => s.(sleeping := s.sleeping + {t})
    case WaitAsleep => s.(waitingOn := s.waitingOn - {t})
  }

  function SignallingEffect(s: State, g: SigStep, t: Tid): State {
    match g
    case SigLock => s.(c := s.c.(lock := TestSet(s.c.lock, t)))
    case SigPop => s.(c := s.c.(list := DropOldest(s.c.list)))
    case SigUnlock(_) => s.(c := s.c.(lock := None))
    case SigWake(u) => s.(sleeping := s.sleeping - {u})
  }

  predicate Awake(s: State, t: Tid) {
    t in s.pc && t !in s.sleeping
  }

  /** One step of thread t, which does nothing while it sleeps. */
  function Next(s: State, t: Tid, c: Choice): State {
    if Awake(s, t) then Effect(s, s.pc[t], t).(pc := s.pc[t := NextPc(s, s.pc[t], c)]) else s
  }

  /** All threads outside, nothing locked. */
  ghost predicate Init(s: State) {
    && s.mutex == None && s.heldBy == None && s.m == Waiters(None, []) && s.c == Waiters(None, [])
    && s.sleeping == {} && s.waitingOn == map[]
    && forall t :: t in s.pc ==> s.pc[t] == Idle
  }

  function Run(s: State, steps: seq<(Tid, Choice)>): State
    decreases |steps|
  {
    if steps == [] then s else Run(Next(s, steps[0].0, steps[0].1), steps[1..])
  }

  // ---------------------------------------------------------------------
  // Reading a program counter
  // ---------------------------------------------------------------------

  /** Between a successful testSetLock on the mutex and mutex_ = 0. */
  predicate Owns(pc: Pc) {
    InHand(pc) || pc == Acquiring(AcqHeld) || pc == Acquiring(AcqUnlockWin) || (pc.Releasing? && pc.rel.RelFree?)
  }

  /** Between held_by_ = currentThread and held_by_ = 0. */
  predicate InHand(pc: Pc) {
    pc.Critical? || pc == Waiting(WaitLock) || pc.Signalling? || (pc.Releasing? && pc.rel.RelClear?)
  }

  predicate LocksMutexList(pc: Pc) {
    || (pc.Acquiring? && (pc.acq.AcqRetest? || pc.acq.AcqUnlockWin? || pc.acq.AcqPush? || pc.acq.AcqUnlock?))
    || (pc.Releasing? && (pc.rel.RelPop? || pc.rel.RelUnlock?))
  }

  predicate LocksCondList(pc: Pc) {
    || (pc.Releasing? && pc.inWait)
    || (pc.Waiting? && (pc.wait.WaitPush? || pc.wait.WaitUnlock?))
    || (pc.Signalling? && (pc.sig.SigPop? || pc.sig.SigUnlock?))
  }

  /** From the push onto the list of lock l to being woken. */
  predicate Waits(l: LockName, pc: Pc, asleep: bool) {
    match l
    case TheMutex => pc.Acquiring? && (pc.acq.AcqUnlock? || pc.acq.AcqSleep? || (pc.acq.AcqAsleep? && asleep))
    case TheCondition => pc.Waiting? && (pc.wait.WaitUnlock? || pc.wait.WaitSleep? || (pc.wait.WaitAsleep? && asleep))
  }

  /** The thread this one popped from the list of lock l and has yet to wake. */
  function Popped(l: LockName, pc: Pc): Option<Tid> {
    match l
    case TheMutex =>
      if !pc.Releasing? then None
      else if pc.rel.RelUnlock? then pc.rel.popped else if pc.rel.RelWake? then Some(pc.rel.target) else None
    case TheCondition =>
      if !pc.Signalling? then None
      else if pc.sig.SigUnlock? then pc.sig.popped else if pc.sig.SigWake? then Some(pc.sig.target) else None
  }

  /** lock_waiting_on_ is set from the push until the thread runs again. */
  function WaitingOn(pc: Pc): Option<LockName> {
    if Waits(TheMutex, pc, true) then Some(TheMutex)
    else if Waits(TheCondition, pc, true) then Some(TheCondition)
    else None
  }

  function ListOf(s: State, l: LockName): seq<Tid> {
    match l
    case TheMutex => s.m.list
    case TheCondition => s.c.list
  }

  // ---------------------------------------------------------------------
  // Lock words
  // ---------------------------------------------------------------------

  lemma MutexHandover(s: State, pc: Pc, t: Tid, c: Choice)
    requires Owns(pc) <==> s.mutex == Some(t)
    ensures Handover(s.mutex, t, Owns(pc), Effect(s, pc, t).mutex, Owns(NextPc(s, pc, c)))
  {
  }

  lemma HeldByHandover(s: State, pc: Pc, t: Tid, c: Choice)
    requires InHand(pc) <==> s.heldBy == Some(t)
    requires s.heldBy.Some? ==> s.heldBy == s.mutex
    requires Owns(pc) <==> s.mutex == Some(t)
    ensures Handover(s.heldBy, t, InHand(pc), Effect(s, pc, t).heldBy, InHand(NextPc(s, pc, c)))
  {
  }

  lemma MutexListHandover(s: State, pc: Pc, t: Tid, c: Choice)
    requires LocksMutexList(pc) <==> s.m.lock == Some(t)
    ensures Handover(s.m.lock, t, LocksMutexList(pc), Effect(s, pc, t).m.lock, LocksMutexList(NextPc(s, pc, c)))
  {
  }

  lemma CondListHandover(s: State, pc: Pc, t: Tid, c: Choice)
    requires LocksCondList(pc) <==> s.c.lock == Some(t)
    ensures Handover(s.c.lock, t, LocksCondList(pc), Effect(s, pc, t).c.lock, LocksCondList(NextPc(s, pc, c)))
  {
  }

  ghost predicate Locks(s: State) {
    && HolderIs(s.pc, s.mutex, Owns)
    && HolderIs(s.pc, s.heldBy, InHand)
    && HolderIs(s.pc, s.m.lock, LocksMutexList)
    && HolderIs(s.pc, s.c.lock, LocksCondList)
  }

  /** held_by_ set implies mutex_ set, by the same thread. */
  lemma HeldImpliesOwned(s: State)
    requires Locks(s)
    ensures s.heldBy.Some? ==> s.heldBy == s.mutex
  {
  }

  lemma LocksKept(s: State, t: Tid, c: Choice)
    requires Locks(s)
    ensures Locks(Next(s, t, c))
  {
    if Awake(s, t) {
      hide NextPc, Effect, Owns, InHand, LocksMutexList, LocksCondList, Handover;
      var pc, next, s' := s.pc[t], NextPc(s, s.pc[t], c), Effect(s, s.pc[t], t);
      HeldImpliesOwned(s);
      MutexHandover(s, pc, t, c);
      HolderMoves(s.pc, s.mutex, Owns, t, next, s'.mutex);
      HeldByHandover(s, pc, t, c);
      HolderMoves(s.pc, s.heldBy, InHand, t, next, s'.heldBy);
      MutexListHandover(s, pc, t, c);
      HolderMoves(s.pc, s.m.lock, LocksMutexList, t, next, s'.m.lock);
      CondListHandover(s, pc, t, c);
      HolderMoves(s.pc, s.c.lock, LocksCondList, t, next, s'.c.lock);
    }
  }

  // ---------------------------------------------------------------------
  // Waiters lists
  // ---------------------------------------------------------------------

  /** A waiters list with what is going on around it: `members` are the threads between their push
      and their waking, `popped` maps a thread to the one it has popped and has yet to wake. */
  datatype Queue = Queue(list: seq<Tid>, members: set<Tid>, popped: map<Tid, Tid>)

  datatype QueueOp = Nothing | Enter | Pop | WakeUp

  /** What a step of thread t does to a waiters list: first in, first out. */
  function Apply(q: Queue, op: QueueOp, t: Tid): Queue {
    match op
    case Nothing => q
    case Enter => Queue([t] + q.list, q.members + {t}, q.popped)
    case Pop => if q.list == [] then q else Queue(DropOldest(q.list), q.members, q.popped[t := q.list[|q.list| - 1]])
    case WakeUp => if t in q.popped then Queue(q.list, q.members - {q.popped[t]}, q.popped - {t}) else q
  }

  /** Every member is either listed, once, or popped by exactly one thread; nobody else is. */
  ghost predicate Fair(q: Queue) {
    && Distinct(q.list)
    && (forall u :: u in q.list ==> u in q.members)
    && (forall t :: t in q.popped ==> q.popped[t] in q.members && q.popped[t] !in q.list)
    && (forall t, t' :: t in q.popped && t' in q.popped && q.popped[t] == q.popped[t'] ==> t == t')
    && (forall u :: u in q.members && u !in q.list ==> u in q.popped.Values)
  }

  lemma EnterFair(q: Queue, t: Tid)
    requires Fair(q) && t !in q.members
    ensures Fair(Apply(q, Enter, t))
  {
  }

  lemma PopFair(q: Queue, t: Tid)
    requires Fair(q) && t !in q.popped
    ensures Fair(Apply(q, Pop, t))
  {
    if q.list != [] {
      var q' := Apply(q, Pop, t);
      assert q'.popped[t] == q.list[|q.list| - 1];
      forall u | u in q'.members && u !in q'.list ensures u in q'.popped.Values {
        if u !in q.list {
          var v :| v in q.popped && q.popped[v] == u;
          assert q'.popped[v] == u;
        }
      }
    }
  }

  lemma WakeUpFair(q: Queue, t: Tid)
    requires Fair(q)
    ensures Fair(Apply(q, WakeUp, t))
  {
    var q' := Apply(q, WakeUp, t);
    forall u | u in q'.members && u !in q'.list ensures u in q'.popped.Values {
      var v :| v in q.popped && q.popped[v] == u;
      assert v in q'.popped;
    }
  }

  function QueueOf(s: State, l: LockName): Queue {
    Queue(ListOf(s, l),
          set u | u in s.pc && Waits(l, s.pc[u], u in s.sleeping),
          map t | t in s.pc && Popped(l, s.pc[t]).Some? :: Popped(l, s.pc[t]).value)
  }

  /** What a step from pc does to the waiters list of lock l. */
  function OpOn(s: State, l: LockName, pc: Pc): QueueOp {
    match l
    case TheMutex =>
      if pc == Acquiring(AcqPush) then Enter
      else if pc.Releasing? && pc.rel.RelPop? then Pop
      else if pc.Releasing? && pc.rel.RelWake? && pc.rel.target in s.sleeping then WakeUp
      else Nothing
    case TheCondition =>
      if pc == Waiting(WaitPush) then Enter
      else if pc.Signalling? && pc.sig.SigPop? then Pop
      else if pc.Signalling? && pc.sig.SigWake? && pc.sig.target in s.sleeping then WakeUp
      else Nothing
  }

  ghost predicate Queues(s: State) {
    Fair(QueueOf(s, TheMutex)) && Fair(QueueOf(s, TheCondition))
  }

  /** Where a sleeping thread is. */
  function Asleep(l: LockName): Pc {
    match l
    case TheMutex => Acquiring(AcqAsleep)
    case TheCondition => Waiting(WaitAsleep)
  }

  /** Only a thread in the sleep section sleeps, and lock_waiting_on_ says on what. */
  ghost predicate Sleepers(s: State) {
    && s.waitingOn.Keys <= s.pc.Keys && s.sleeping <= s.pc.Keys
    && (forall t :: t in s.sleeping ==> s.pc[t] == Asleep(TheMutex) || s.pc[t] == Asleep(TheCondition))
    && (forall t :: t in s.pc ==> WaitingOn(s.pc[t]) == if t in s.waitingOn then Some(s.waitingOn[t]) else None)
  }

  /** The thread whose state this step sets to Running. */
  function Woken(pc: Pc): set<Tid> {
    if pc.Releasing? && pc.rel.RelWake? then {pc.rel.target}
    else if pc.Signalling? && pc.sig.SigWake? then {pc.sig.target}
    else {}
  }

  /** What a step does to the states of threads: fall asleep, wake another, or nothing. */
  lemma SleepEffect(s: State, pc: Pc, t: Tid)
    ensures var s' := Effect(s, pc, t);
            && (pc == Acquiring(AcqSleep) || pc == Waiting(WaitSleep) ==> s'.sleeping == s.sleeping + {t})
            && (pc != Acquiring(AcqSleep) && pc != Waiting(WaitSleep) ==> s'.sleeping == s.sleeping - Woken(pc))
            && (forall u :: u != t ==> (u in s'.waitingOn <==> u in s.waitingOn))
            && (forall u :: u != t && u in s.waitingOn ==> s'.waitingOn[u] == s.waitingOn[u])
  {
  }

  lemma OwnSleep(s: State, pc: Pc, t: Tid, c: Choice)
    requires WaitingOn(pc) == if t in s.waitingOn then Some(s.waitingOn[t]) else None
    requires t !in s.sleeping
    ensures var s' := Effect(s, pc, t);
            var next := NextPc(s, pc, c);
            && WaitingOn(next) == (if t in s'.waitingOn then Some(s'.waitingOn[t]) else None)
            && (t in s'.sleeping ==> next == Asleep(TheMutex) || next == Asleep(TheCondition))
  {
  }

  lemma SleepersKept(s: State, t: Tid, c: Choice)
    requires Sleepers(s)
    ensures Sleepers(Next(s, t, c))
  {
    if Awake(s, t) {
      SleepEffect(s, s.pc[t], t);
      OwnSleep(s, s.pc[t], t, c);
      hide NextPc, Effect, WaitingOn;
    }
  }

  /** The step's own thread joins a queue at its push and never leaves it by itself. */
  lemma OwnMembership(s: State, l: LockName, pc: Pc, t: Tid, c: Choice)
    requires t !in s.sleeping
    ensures var in_ := Waits(l, NextPc(s, pc, c), t in Effect(s, pc, t).sleeping);
            if OpOn(s, l, pc) == Enter then in_ else in_ == Waits(l, pc, false)
  {
  }

  lemma OwnPopped(s: State, l: LockName, pc: Pc, c: Choice)
    ensures Popped(l, NextPc(s, pc, c)) ==
            match OpOn(s, l, pc)
            case Pop => Oldest(ListOf(s, l))
            case WakeUp => None
            case _ => Popped(l, pc)
    ensures OpOn(s, l, pc) == Pop ==> Popped(l, pc) == None
  {
  }

  lemma OwnList(s: State, l: LockName, pc: Pc, t: Tid)
    ensures ListOf(Effect(s, pc, t), l) ==
            match OpOn(s, l, pc)
            case Enter => [t] + ListOf(s, l)
            case Pop => DropOldest(ListOf(s, l))
            case _ => ListOf(s, l)
  {
  }

  /** A step that wakes somebody wakes the one its thread has popped, from the list it popped it. */
  lemma Wakes(s: State, l: LockName, t: Tid)
    requires Sleepers(s) && Queues(s) && Awake(s, t)
    ensures OpOn(s, l, s.pc[t]) == WakeUp ==>
              && t in QueueOf(s, l).popped && Woken(s.pc[t]) == {QueueOf(s, l).popped[t]}
              && QueueOf(s, l).popped[t] in s.sleeping && s.pc[QueueOf(s, l).popped[t]] == Asleep(l)
    ensures OpOn(s, l, s.pc[t]) != WakeUp ==>
              forall u :: u in Woken(s.pc[t]) && u in s.sleeping ==> s.pc[u] != Asleep(l)
  {
    forall u | u in Woken(s.pc[t]) && u in s.sleeping
      ensures if OpOn(s, l, s.pc[t]) == WakeUp then t in QueueOf(s, l).popped && u == QueueOf(s, l).popped[t] && s.pc[u] == Asleep(l)
              else s.pc[u] != Asleep(l)
    {
      var from := if s.pc[t].Releasing? then TheMutex else TheCondition;
      assert QueueOf(s, from).popped[t] == u;
    }
  }

  lemma MembersStep(s: State, l: LockName, t: Tid, c: Choice)
    requires Sleepers(s) && Queues(s) && Awake(s, t)
    ensures QueueOf(Next(s, t, c), l).members == Apply(QueueOf(s, l), OpOn(s, l, s.pc[t]), t).members
  {
    hide Fair, NextPc, Effect, OpOn, Woken;
    OwnMembership(s, l, s.pc[t], t, c);
    SleepEffect(s, s.pc[t], t);
    Wakes(s, l, t);
  }

  lemma PoppedStep(s: State, l: LockName, t: Tid, c: Choice)
    requires Sleepers(s) && Queues(s) && Awake(s, t)
    ensures QueueOf(Next(s, t, c), l).popped == Apply(QueueOf(s, l), OpOn(s, l, s.pc[t]), t).popped
  {
    hide Fair, NextPc, Effect, OpOn, Woken, Sleepers, Popped, Waits;
    Wakes(s, l, t);
    OwnPopped(s, l, s.pc[t], c);
  }

  /** Every step does one of four things to each waiters list. */
  lemma QueueStep(s: State, l: LockName, t: Tid, c: Choice)
    requires Sleepers(s) && Queues(s) && Awake(s, t)
    ensures QueueOf(Next(s, t, c), l) == Apply(QueueOf(s, l), OpOn(s, l, s.pc[t]), t)
  {
    MembersStep(s, l, t, c);
    PoppedStep(s, l, t, c);
    OwnList(s, l, s.pc[t], t);
    hide Fair, NextPc, Effect, OpOn, Sleepers, Popped, Waits;
  }

  lemma FairKept(s: State, l: LockName, t: Tid, c: Choice)
    requires Sleepers(s) && Queues(s) && Awake(s, t)
    ensures Fair(QueueOf(Next(s, t, c), l))
  {
    var q, op := QueueOf(s, l), OpOn(s, l, s.pc[t]);
    assert op == Enter ==> t !in q.members;
    assert op == Pop ==> t !in q.popped;
    QueueStep(s, l, t, c);
    hide *;
    match op
    case Nothing =>
    case Enter => EnterFair(q, t);
    case Pop => PopFair(q, t);
    case WakeUp => WakeUpFair(q, t);
  }

  // ---------------------------------------------------------------------
  // No lost wakeup
  // ---------------------------------------------------------------------

  /** The thread will test the mutex again, or has yet to pop the list of the mutex, or has popped
      a thread it has yet to wake. */
  predicate Vigilant(pc: Pc, asleep: bool) {
    || (pc.Releasing? && (pc.rel.RelLockList? || pc.rel.RelPop? || Popped(TheMutex, pc).Some?))
    || (pc.Acquiring? && (pc.acq.AcqTest? || pc.acq.AcqLockList? || pc.acq.AcqRetest? || (pc.acq.AcqAsleep? && !asleep)))
  }

  /** Somebody sleeps on the mutex, or is certain to. */
  ghost predicate Wanted(s: State) {
    s.m.list != [] || exists t :: t in s.pc && s.pc[t] == Acquiring(AcqPush)
  }

  ghost predicate Attended(s: State) {
    exists t :: t in s.pc && Vigilant(s.pc[t], t in s.sleeping)
  }

  ghost predicate NoLostWakeup(s: State) {
    s.mutex == None && Wanted(s) ==> Attended(s)
  }

  lemma OwnVigilance(s: State, pc: Pc, t: Tid, c: Choice)
    requires t !in s.sleeping
    ensures var s', next := Effect(s, pc, t), NextPc(s, pc, c);
            && (s.mutex.Some? ==> s'.mutex.Some? || Vigilant(next, t in s'.sleeping))
            && (Vigilant(pc, false) ==>
                  || s'.mutex.Some? || Vigilant(next, t in s'.sleeping)
                  || OpOn(s, TheMutex, pc) == WakeUp
                  || (LocksMutexList(pc) && s'.m.list == [] && next != Acquiring(AcqPush)))
  {
  }

  lemma OwnWant(s: State, pc: Pc, t: Tid, c: Choice)
    requires s.mutex == None
    ensures NextPc(s, pc, c) != Acquiring(AcqPush)
    ensures s.m.list == [] && Effect(s, pc, t).m.list != [] ==> pc == Acquiring(AcqPush)
  {
  }

  lemma WantedBefore(s: State, t: Tid, c: Choice)
    requires s.mutex == None && Awake(s, t) && Wanted(Next(s, t, c))
    ensures Wanted(s)
  {
    OwnWant(s, s.pc[t], t, c);
    hide NextPc, Effect;
  }

  lemma NotWantedAfterEmptyPop(s: State, t: Tid, c: Choice)
    requires Locks(s) && Awake(s, t) && LocksMutexList(s.pc[t])
    requires Effect(s, s.pc[t], t).m.list == [] && NextPc(s, s.pc[t], c) != Acquiring(AcqPush)
    ensures !Wanted(Next(s, t, c))
  {
    hide NextPc, Effect;
  }

  lemma NoLostWakeupKept(s: State, t: Tid, c: Choice)
    requires Locks(s) && Sleepers(s) && Queues(s) && NoLostWakeup(s)
    ensures NoLostWakeup(Next(s, t, c))
  {
    var s' := Next(s, t, c);
    if Awake(s, t) && s'.mutex == None && Wanted(s') {
      var next := NextPc(s, s.pc[t], c);
      hide NextPc, Effect, LocksMutexList, Locks, Fair, Wanted, Vigilant;
      OwnVigilance(s, s.pc[t], t, c);
      assert s'.pc[t] == next;
      if s.mutex.Some? {
        assert Vigilant(s'.pc[t], t in s'.sleeping);
      } else {
        WantedBefore(s, t, c);
        var w :| w in s.pc && Vigilant(s.pc[w], w in s.sleeping);
        StaysVigilant(s, t, c, w);
      }
    }
  }

  lemma StaysVigilant(s: State, t: Tid, c: Choice, w: Tid)
    requires Locks(s) && Sleepers(s) && Queues(s) && Awake(s, t)
    requires w in s.pc && Vigilant(s.pc[w], w in s.sleeping)
    requires var s' := Next(s, t, c); s'.mutex == None && Wanted(s')
    ensures Attended(Next(s, t, c))
  {
    var s' := Next(s, t, c);
    OwnVigilance(s, s.pc[t], t, c);
    SleepEffect(s, s.pc[t], t);
    Wakes(s, TheMutex, t);
    hide NextPc, Effect, LocksMutexList, Locks, Fair, Wanted, Sleepers;
    if w != t {
      assert Vigilant(s'.pc[w], w in s'.sleeping);
    } else if OpOn(s, TheMutex, s.pc[t]) == WakeUp {
      var u := QueueOf(s, TheMutex).popped[t];
      assert s'.pc[u] == s.pc[u] && u !in s'.sleeping;
      assert Vigilant(s'.pc[u], false);
    } else if Vigilant(s'.pc[t], t in s'.sleeping) {
    } else {
      NotWantedAfterEmptyPop(s, t, c);
    }
  }

  // ---------------------------------------------------------------------
  // Every reachable state
  // ---------------------------------------------------------------------

  /** After an empty pop the list of the condition stays empty until its lock is given back. */
  ghost predicate EmptyPops(s: State) {
    forall t :: t in s.pc && s.pc[t].Signalling? && s.pc[t].sig == SigUnlock(None) ==> s.c.list == []
  }

  lemma OwnEmptyPop(s: State, pc: Pc, t: Tid, c: Choice)
    ensures var s', next := Effect(s, pc, t), NextPc(s, pc, c);
            && (next.Signalling? && next.sig == SigUnlock(None) ==> s'.c.list == [])
            && (s.c.list == [] && s'.c.list != [] ==> LocksCondList(pc))
            && (s.c.list == [] && LocksCondList(pc) && s'.c.list != [] ==> pc == Waiting(WaitPush))
  {
  }

  lemma EmptyPopsKept(s: State, t: Tid, c: Choice)
    requires Locks(s) && EmptyPops(s)
    ensures EmptyPops(Next(s, t, c))
  {
    if Awake(s, t) {
      OwnEmptyPop(s, s.pc[t], t, c);
      hide NextPc, Effect;
    }
  }

  ghost predicate Inv(s: State) {
    Locks(s) && Sleepers(s) && Queues(s) && NoLostWakeup(s) && EmptyPops(s)
  }

  lemma InitInv(s: State)
    requires Init(s)
    ensures Inv(s)
  {
  }

  lemma InvKept(s: State, t: Tid, c: Choice)
    requires Inv(s)
    ensures Inv(Next(s, t, c))
  {
    hide Locks, Sleepers, Fair, NoLostWakeup, EmptyPops, NextPc, Effect;
    if Awake(s, t) {
      LocksKept(s, t, c);
      SleepersKept(s, t, c);
      FairKept(s, TheMutex, t, c);
      FairKept(s, TheCondition, t, c);
      NoLostWakeupKept(s, t, c);
      EmptyPopsKept(s, t, c);
    }
  }

  lemma {:induction false} RunInv(s: State, steps: seq<(Tid, Choice)>)
    requires Inv(s)
    ensures Inv(Run(s, steps))
    decreases |steps|
  {
    hide Inv, Next;
    if steps != [] {
      InvKept(s, steps[0].0, steps[0].1);
      RunInv(Next(s, steps[0].0, steps[0].1), steps[1..]);
    }
  }

  /** In every interleaving, at most one thread is between taking and freeing the mutex. */
  lemma MutualExclusion(s: State, steps: seq<(Tid, Choice)>, t: Tid, u: Tid)
    requires Init(s)
    requires var r := Run(s, steps); t in r.pc && u in r.pc && Owns(r.pc[t]) && Owns(r.pc[u])
    ensures t == u
  {
    InitInv(s);
    RunInv(s, steps);
  }

  /** checkCurrentThreadStillWaitingOnAnotherLock, and the first assert of checkForDeadLock. */
  predicate MayStartToWait(s: State, t: Tid, pc: Pc) {
    pc == Trying || (pc.Acquiring? && (pc.acq.AcqTest? || pc.acq.AcqLockList? || pc.acq.AcqPush?)) ==>
      t !in s.waitingOn && s.heldBy != Some(t)
  }

  /** assert(held_by_ == 0), with mutex_ set. */
  predicate NobodyElseHolds(s: State, pc: Pc) {
    pc == Acquiring(AcqHeld) ==> s.heldBy == None && s.mutex.Some?
  }

  /** checkInvalidRelease, isHeldBy, and no other lock waited for. */
  predicate HoldsItself(s: State, t: Tid, pc: Pc) {
    (pc.Releasing? && pc.rel.RelClear?) || pc == Waiting(WaitLock) || pc.Signalling? ==>
      s.heldBy == Some(t) && t !in s.waitingOn
  }

  /** waitersListIsLocked. */
  predicate ListIsLocked(s: State, t: Tid, pc: Pc) {
    && (OpOn(s, TheMutex, pc) == Enter || OpOn(s, TheMutex, pc) == Pop ==> s.m.lock == Some(t))
    && (OpOn(s, TheCondition, pc) == Enter || OpOn(s, TheCondition, pc) == Pop ==> s.c.lock == Some(t))
  }

  /** What the asserts read on the way past pc. */
  predicate AssertsPass(s: State, t: Tid)
    requires t in s.pc
  {
    var pc := s.pc[t];
    MayStartToWait(s, t, pc) && NobodyElseHolds(s, pc) && HoldsItself(s, t, pc) && ListIsLocked(s, t, pc)
  }

  /** What the invariant says about one thread. */
  lemma OwnFacts(s: State, t: Tid)
    requires Locks(s) && Sleepers(s) && t in s.pc
    ensures (Owns(s.pc[t]) <==> s.mutex == Some(t)) && (InHand(s.pc[t]) <==> s.heldBy == Some(t))
    ensures (LocksMutexList(s.pc[t]) <==> s.m.lock == Some(t)) && (LocksCondList(s.pc[t]) <==> s.c.lock == Some(t))
    ensures s.heldBy.Some? ==> s.heldBy == s.mutex
    ensures t in s.waitingOn ==> WaitingOn(s.pc[t]).Some?
  {
    HeldImpliesOwned(s);
    hide Owns, InHand, LocksMutexList, LocksCondList, WaitingOn;
  }

  lemma AssertsFollow(s: State, t: Tid)
    requires t in s.pc
    requires (Owns(s.pc[t]) <==> s.mutex == Some(t)) && (InHand(s.pc[t]) <==> s.heldBy == Some(t))
    requires (LocksMutexList(s.pc[t]) <==> s.m.lock == Some(t)) && (LocksCondList(s.pc[t]) <==> s.c.lock == Some(t))
    requires s.heldBy.Some? ==> s.heldBy == s.mutex
    requires t in s.waitingOn ==> WaitingOn(s.pc[t]).Some?
    ensures AssertsPass(s, t)
  {
  }

  lemma NoAssertFails(s: State, steps: seq<(Tid, Choice)>, t: Tid)
    requires Init(s) && t in Run(s, steps).pc
    ensures AssertsPass(Run(s, steps), t)
  {
    hide Init, Run, Locks, Sleepers, Queues, NoLostWakeup, EmptyPops, AssertsPass;
    InitInv(s);
    RunInv(s, steps);
    OwnFacts(Run(s, steps), t);
    AssertsFollow(Run(s, steps), t);
  }

  /** A free mutex with a thread on its list, or about to push itself, has a thread that will
      notice. */
  lemma WakeupsAreNotLost(s: State, steps: seq<(Tid, Choice)>)
    requires Init(s)
    requires var r := Run(s, steps); r.mutex == None && Wanted(r)
    ensures exists t :: t in Run(s, steps).pc && Vigilant(Run(s, steps).pc[t], t in Run(s, steps).sleeping)
  {
    InitInv(s);
    RunInv(s, steps);
  }

  ghost predicate HasPopped(s: State, l: LockName, t: Tid, u: Tid) {
    t in s.pc && Popped(l, s.pc[t]) == Some(u)
  }

  /** A sleeper is listed, or else exactly one thread has popped it and has yet to wake it. */
  lemma SleeperFate(s: State, steps: seq<(Tid, Choice)>, l: LockName, u: Tid)
    requires Init(s)
    requires var r := Run(s, steps); u in r.sleeping && u in r.pc && r.pc[u] == Asleep(l)
    ensures u in ListOf(Run(s, steps), l) <==> !exists t :: HasPopped(Run(s, steps), l, t, u)
    ensures forall t, t' :: HasPopped(Run(s, steps), l, t, u) && HasPopped(Run(s, steps), l, t', u) ==> t == t'
    ensures forall i, j :: 0 <= i < j < |ListOf(Run(s, steps), l)| ==> ListOf(Run(s, steps), l)[i] != ListOf(Run(s, steps), l)[j]
  {
    InitInv(s);
    RunInv(s, steps);
    var r := Run(s, steps);
    var q := QueueOf(r, l);
    assert u in q.members;
    assert forall t :: HasPopped(r, l, t, u) ==> t in q.popped && q.popped[t] == u;
    if u !in q.list {
      var t :| t in q.popped && q.popped[t] == u;
      assert HasPopped(r, l, t, u);
    }
  }

  /** Inside Condition::wait, past freeing the mutex. */
  predicate GaveUpMutex(pc: Pc) {
    (pc.Releasing? && pc.inWait && !pc.rel.RelClear? && !pc.rel.RelFree?) || (pc.Waiting? && !pc.wait.WaitLock?)
  }

  /** A signal cannot miss a waiter: a thread that has given up the mutex inside wait holds the list
      lock of the condition, is listed, has been popped, or is awake again. */
  lemma WaiterIsSeen(s: State, steps: seq<(Tid, Choice)>, u: Tid)
    requires Init(s)
    requires var r := Run(s, steps); u in r.pc && GaveUpMutex(r.pc[u])
    ensures var r := Run(s, steps);
            || r.c.lock == Some(u)
            || u in r.c.list
            || (exists t :: HasPopped(r, TheCondition, t, u))
            || (r.pc[u] == Asleep(TheCondition) && u !in r.sleeping)
  {
    hide Init, Run, NoLostWakeup, EmptyPops, InHand, Owns, LocksMutexList;
    InitInv(s);
    RunInv(s, steps);
    var r := Run(s, steps);
    var q := QueueOf(r, TheCondition);
    if r.c.lock != Some(u) && u !in r.c.list && u in q.members {
      var t :| t in q.popped && q.popped[t] == u;
      assert HasPopped(r, TheCondition, t, u);
    }
  }

  /** So a signal or broadcast that finds the list empty has no waiter left: everybody who gave up
      the mutex inside wait has been popped. */
  lemma EmptyListMeansNoWaiter(s: State, steps: seq<(Tid, Choice)>, t: Tid, u: Tid)
    requires Init(s)
    requires var r := Run(s, steps);
             && t in r.pc && r.pc[t].Signalling? && r.pc[t].sig == SigUnlock(None)
             && u in r.pc && GaveUpMutex(r.pc[u])
    ensures var r := Run(s, steps);
            r.pc[u] == Waiting(WaitSleep) || r.pc[u] == Asleep(TheCondition)
    ensures var r := Run(s, steps);
            (exists w :: HasPopped(r, TheCondition, w, u)) || (r.pc[u] == Asleep(TheCondition) && u !in r.sleeping)
  {
    hide Init, Run, NoLostWakeup, Queues, Sleepers;
    WaiterIsSeen(s, steps, u);
    InitInv(s);
    RunInv(s, steps);
  }

  /** A waiters list in the order of its pushes. */
  function InOrder(list: seq<Tid>): seq<Tid> {
    if list == [] then [] else InOrder(list[1..]) + [list[0]]
  }

  lemma {:induction false} InOrderDropsFirst(list: seq<Tid>)
    requires list != []
    ensures InOrder(list) == [list[|list| - 1]] + InOrder(DropOldest(list))
  {
    if |list| > 1 {
      InOrderDropsFirst(list[1..]);
      assert DropOldest(list)[1..] == DropOldest(list[1..]);
    }
  }

  function PushedBy(s: State, l: LockName, t: Tid): seq<Tid> {
    if Awake(s, t) && OpOn(s, l, s.pc[t]) == Enter then [t] else []
  }

  function PoppedBy(s: State, l: LockName, t: Tid): seq<Tid> {
    var list := ListOf(s, l);
    if Awake(s, t) && OpOn(s, l, s.pc[t]) == Pop && list != [] then [list[|list| - 1]] else []
  }

  /** Who pushed itself onto the list of l during a run, in order. */
  function Pushes(s: State, l: LockName, steps: seq<(Tid, Choice)>): seq<Tid>
    decreases |steps|
  {
    if steps == [] then [] else PushedBy(s, l, steps[0].0) + Pushes(Next(s, steps[0].0, steps[0].1), l, steps[1..])
  }

  /** Who was popped off the list of l during a run, in order. */
  function Pops(s: State, l: LockName, steps: seq<(Tid, Choice)>): seq<Tid>
    decreases |steps|
  {
    if steps == [] then [] else PoppedBy(s, l, steps[0].0) + Pops(Next(s, steps[0].0, steps[0].1), l, steps[1..])
  }

  lemma ApplyConserves(q: Queue, op: QueueOp, t: Tid)
    ensures InOrder(q.list) + (if op == Enter then [t] else []) ==
            (if op == Pop && q.list != [] then [q.list[|q.list| - 1]] else []) + InOrder(Apply(q, op, t).list)
  {
    if q.list != [] {
      InOrderDropsFirst(q.list);
    }
    assert ([t] + q.list)[1..] == q.list;
  }

  lemma StepConserves(s: State, l: LockName, t: Tid, c: Choice)
    requires Inv(s)
    ensures InOrder(ListOf(s, l)) + PushedBy(s, l, t) == PoppedBy(s, l, t) + InOrder(ListOf(Next(s, t, c), l))
  {
    if Awake(s, t) {
      QueueStep(s, l, t, c);
      hide Inv, Next, Fair, Popped, Waits, OpOn, Apply, InOrder, ListOf;
      ApplyConserves(QueueOf(s, l), OpOn(s, l, s.pc[t]), t);
    }
  }

  lemma {:induction false} QueueConserved(s: State, l: LockName, steps: seq<(Tid, Choice)>)
    requires Inv(s)
    ensures InOrder(ListOf(s, l)) + Pushes(s, l, steps) == Pops(s, l, steps) + InOrder(ListOf(Run(s, steps), l))
    decreases |steps|
  {
    hide Inv, Next, PushedBy, PoppedBy, InOrder, ListOf;
    if steps != [] {
      var t, c := steps[0].0, steps[0].1;
      InvKept(s, t, c);
      StepConserves(s, l, t, c);
      QueueConserved(Next(s, t, c), l, steps[1..]);
      Chain(InOrder(ListOf(s, l)), PushedBy(s, l, t), PoppedBy(s, l, t), InOrder(ListOf(Next(s, t, c), l)),
            Pushes(Next(s, t, c), l, steps[1..]), Pops(Next(s, t, c), l, steps[1..]), InOrder(ListOf(Run(s, steps), l)));
    }
  }

  /** First come, first served: over any run from the start, the threads popped off a waiters list
      are those pushed onto it, in that order, up to the ones still listed. */
  lemma FirstComeFirstServed(s: State, l: LockName, steps: seq<(Tid, Choice)>)
    requires Init(s)
    ensures Pushes(s, l, steps) == Pops(s, l, steps) + InOrder(ListOf(Run(s, steps), l))
  {
    InitInv(s);
    QueueConserved(s, l, steps);
    assert InOrder(ListOf(s, l)) == [];
  }

  // ---------------------------------------------------------------------
  // Somebody can always move
  // ---------------------------------------------------------------------

  /** Thread t is not outside without the mutex, and its next step takes it somewhere else. */
  predicate CanMove(s: State, t: Tid) {
    Awake(s, t) && s.pc[t] != Idle && NextPc(s, s.pc[t], Release) != s.pc[t]
  }

  ghost predicate SomebodyMoves(s: State) {
    exists t :: CanMove(s, t)
  }

  /** The only reasons not to move: spinning for a list lock, or for a target to fall asleep. */
  lemma WhySpin(s: State, t: Tid)
    requires Inv(s) && Awake(s, t) && s.pc[t] != Idle && !CanMove(s, t)
    ensures var pc := s.pc[t];
            || ((pc == Acquiring(AcqLockList) || (pc.Releasing? && pc.rel == RelLockList)) && s.m.lock.Some?)
            || ((pc == Waiting(WaitLock) || (pc.Signalling? && pc.sig == SigLock)) && s.c.lock.Some?)
            || (pc.Releasing? && pc.rel.RelWake? && pc.rel.target !in s.sleeping)
            || (pc.Signalling? && pc.sig.SigWake? && pc.sig.target !in s.sleeping)
  {
    hide Inv;
  }

  lemma MutexListHolderMoves(s: State)
    requires Inv(s) && s.m.lock.Some?
    ensures CanMove(s, s.m.lock.value)
  {
    var t := s.m.lock.value;
    assert t in s.pc && LocksMutexList(s.pc[t]);
    assert t !in s.sleeping;
    hide Inv;
  }

  /** A popped thread that does not sleep yet is on its way. */
  lemma TargetMoves(s: State, l: LockName, t: Tid, u: Tid)
    requires Inv(s) && HasPopped(s, l, t, u) && u !in s.sleeping
    ensures CanMove(s, u)
  {
    hide Locks, Sleepers, Queues, NoLostWakeup, EmptyPops, Popped;
    PoppedIsMember(s, l, t, u);
  }

  lemma PoppedIsMember(s: State, l: LockName, t: Tid, u: Tid)
    requires Queues(s) && HasPopped(s, l, t, u)
    ensures u in s.pc && Waits(l, s.pc[u], u in s.sleeping)
  {
    hide Popped, Waits;
    assert QueueOf(s, l).popped[t] == u;
    assert u in QueueOf(s, l).members;
  }

  lemma CondListHolderMoves(s: State)
    requires Inv(s) && s.c.lock.Some?
    ensures SomebodyMoves(s)
  {
    var t := s.c.lock.value;
    assert t in s.pc && LocksCondList(s.pc[t]);
    assert t !in s.sleeping;
    if !CanMove(s, t) {
      WhySpin(s, t);
      if s.m.lock.Some? {
        MutexListHolderMoves(s);
      } else {
        TargetMoves(s, TheMutex, t, s.pc[t].rel.target);
      }
    }
  }

  lemma AwakeMeansMoving(s: State, t: Tid)
    requires Inv(s) && Awake(s, t) && s.pc[t] != Idle
    ensures SomebodyMoves(s)
  {
    hide Inv, NextPc;
    if !CanMove(s, t) {
      WhySpin(s, t);
      var pc := s.pc[t];
      if pc.Releasing? && pc.rel.RelWake? {
        TargetMoves(s, TheMutex, t, pc.rel.target);
      } else if pc.Signalling? && pc.sig.SigWake? {
        TargetMoves(s, TheCondition, t, pc.sig.target);
      } else if pc == Waiting(WaitLock) || pc.Signalling? {
        CondListHolderMoves(s);
      } else {
        MutexListHolderMoves(s);
      }
    }
  }

  /** No interleaving gets stuck: while some thread is inside an operation or holds the mutex, and is
      not just listed on the condition waiting for a signal, some thread can take a step. */
  lemma NeverStuck(s: State, steps: seq<(Tid, Choice)>, t: Tid)
    requires Init(s)
    requires var r := Run(s, steps); t in r.pc && r.pc[t] != Idle && !(t in r.sleeping && t in r.c.list)
    ensures SomebodyMoves(Run(s, steps))
  {
    hide Init, Inv, Run, SomebodyMoves;
    InitInv(s);
    RunInv(s, steps);
    var r := Run(s, steps);
    if t !in r.sleeping {
      AwakeMeansMoving(r, t);
    } else {
      SleeperWaits(r, t);
      if r.pc[t] == Asleep(TheCondition) {
        PopperMoves(r, TheCondition, t);
      } else if t !in r.m.list {
        PopperMoves(r, TheMutex, t);
      } else {
        ListedMeansMoving(r);
      }
    }
  }

  lemma SleeperWaits(s: State, t: Tid)
    requires Inv(s) && t in s.sleeping
    ensures t in s.pc && (s.pc[t] == Asleep(TheMutex) || s.pc[t] == Asleep(TheCondition))
  {
    hide Locks, Queues, NoLostWakeup, EmptyPops;
  }

  /** While a thread is listed on the mutex, its owner or a vigilant thread moves. */
  lemma ListedMeansMoving(s: State)
    requires Inv(s) && s.m.list != []
    ensures SomebodyMoves(s)
  {
    hide Queues, EmptyPops, SomebodyMoves;
    if s.mutex.Some? {
      assert s.mutex.value in s.pc && Owns(s.pc[s.mutex.value]);
      AwakeMeansMoving(s, s.mutex.value);
    } else {
      var w :| w in s.pc && Vigilant(s.pc[w], w in s.sleeping);
      AwakeMeansMoving(s, w);
    }
  }

  lemma PopperMoves(s: State, l: LockName, u: Tid)
    requires Inv(s) && u in s.sleeping && u in s.pc && s.pc[u] == Asleep(l) && u !in ListOf(s, l)
    ensures SomebodyMoves(s)
  {
    hide Locks, NoLostWakeup, EmptyPops, SomebodyMoves;
    var q := QueueOf(s, l);
    assert u in q.members;
    var t :| t in q.popped && q.popped[t] == u;
    AwakeMeansMoving(s, t);
  }
}
