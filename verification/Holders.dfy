/** Lock words: set by testSetLock, cleared by a store, and held by one thread in between. */
module Holders {
  import opened Basics

  type Tid = nat

  /** testSetLock: sets the word, which changes nothing when it is already set.  The word also
      remembers which thread set it. */
  function TestSet(lock: Option<Tid>, t: Tid): Option<Tid> {
    if lock.Some? then lock else Some(t)
  }

  /** The lock word is set exactly while some thread is inside, and then by that thread. */
  ghost predicate HolderIs<P>(pc: map<Tid, P>, lock: Option<Tid>, inside: P -> bool) {
    && (lock.Some? ==> lock.value in pc)
    && forall t :: t in pc ==> (inside(pc[t]) <==> lock == Some(t))
  }

  /** A step takes the lock where it enters its section and gives it back where it leaves. */
  predicate Handover(lock: Option<Tid>, t: Tid, before: bool, lock': Option<Tid>, after: bool) {
    && (after ==> lock == None || lock == Some(t))
    && lock' == if after then Some(t) else if before then None else lock
  }

  lemma HolderMoves<P>(pc: map<Tid, P>, lock: Option<Tid>, inside: P -> bool, t: Tid, next: P, lock': Option<Tid>)
    requires HolderIs(pc, lock, inside) && t in pc
    requires Handover(lock, t, inside(pc[t]), lock', inside(next))
    ensures HolderIs(pc[t := next], lock', inside)
  {
  }
}
