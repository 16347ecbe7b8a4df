/** pthread_exit and pthread_join in a process, one critical section of waiters_lock_ at a time. */
module ThreadJoin {
  import opened WaitGraph

  type Tid = nat
  type Value = int

  /** `exits` holds the really exited threads with the value they exited with, `ready` the waiters
      that have been signalled. */
  datatype State = State(
    threads: set<Tid>,             // thread_list_ and threads gone from it
    retValues: map<Tid, Value>,    // ret_values_
    waitingList: map<Tid, Tid>,    // waiting_list_: target to waiter
    exits: map<Tid, Value>,
    delivered: set<Tid>)           // whose value a join has taken

  datatype Op =
    | Spawn(tid: Tid)
    | Exit(tid: Tid, value: Value)
    | Join(caller: Tid, tid: Tid)
    | Resume(tid: Tid)             // the waiter for tid goes on behind cond->wait()

  datatype Outcome = Nothing | Refused | Blocked | Got(value: Value) | AssertFails

  /** The thread waits in a join. */
  predicate Waits(s: State, t: Tid) {
    t in s.waitingList.Values
  }

  /** A running thread: it has not exited and does not wait. */
  predicate Runs(s: State, t: Tid) {
    t in s.threads && t !in s.exits && !Waits(s, t)
  }

  /** joinDeadlock by its meaning: the target waits, directly or not, for the caller. */
  ghost predicate WouldDeadlock(s: State, caller: Tid, target: Tid) {
    Reaches(s.waitingList, caller, target)
  }

  /** A fresh thread id, a running thread, or a waiter whose target has signalled it. */
  predicate Possible(s: State, op: Op) {
    match op
    case Spawn(t) => t !in s.threads
    case Exit(t, _) => Runs(s, t)
    case Join(c, _) => Runs(s, c)
    case Resume(t) => t in s.waitingList && t in s.exits
  }

  function Take(s: State, t: Tid): State {
    s.(retValues := s.retValues - {t}, delivered := s.delivered + {t})
  }

  ghost function Step(s: State, op: Op): (State, Outcome) {
    match op
    case Spawn(t) => (s.(threads := s.threads + {t}), Nothing)
    case Exit(t, v) =>
      if t in s.retValues || t in s.exits then (s, Nothing)
      else (s.(retValues := s.retValues[t := v], exits := s.exits[t := v]), Nothing)
    case Join(c, t) =>
      if c == t then (s, Refused)
      else if t in s.retValues then (Take(s, t), Got(s.retValues[t]))
      else if t !in s.threads || t in s.exits then (s, Refused)
      else if t in s.waitingList then (s, Refused)
      else if WouldDeadlock(s, c, t) then (s, Refused)
      else (s.(waitingList := s.waitingList[t := c]), Blocked)
    case Resume(t) =>
      if t !in s.retValues then (s, AssertFails)
      else (Take(s, t).(waitingList := s.waitingList - {t}), Got(s.retValues[t]))
  }

  // ---------------------------------------------------------------------
  // What every run keeps
  // ---------------------------------------------------------------------

  ghost predicate Injective(m: map<Tid, Tid>) {
    forall t, u :: t in m && u in m && m[t] == m[u] ==> t == u
  }

  /** The join table is injective and acyclic; waiters have not exited; a value is waiting to be
      taken exactly if its thread has exited and nobody has taken it. */
  ghost predicate Inv(s: State) {
    && Injective(s.waitingList) && Acyclic(s.waitingList)
    && (forall t :: t in s.waitingList ==> t in s.threads && s.waitingList[t] in s.threads && s.waitingList[t] !in s.exits)
    && s.exits.Keys <= s.threads
    && s.delivered <= s.exits.Keys
    && s.retValues == map t | t in s.exits && t !in s.delivered :: s.exits[t]
  }

  /** Every waiter whose target has exited will find the value. */
  ghost predicate Served(s: State) {
    forall t :: t in s.waitingList && t in s.exits ==> t in s.retValues
  }

  ghost predicate Start(s: State) {
    s == State(s.threads, map[], map[], map[], {})
  }

  /** A second join on an exited target whose first joiner has yet to go on. */
  predicate Steals(s: State, op: Op) {
    op.Join? && op.caller != op.tid && op.tid in s.retValues && op.tid in s.waitingList
  }

  lemma StartInv(s: State)
    requires Start(s)
    ensures Inv(s) && Served(s)
  {
  }

  lemma StepInv(s: State, op: Op)
    requires Inv(s) && Possible(s, op)
    ensures Inv(Step(s, op).0)
  {
    match op
    case Spawn(_) =>
    case Exit(t, v) => ExitInv(s, t, v);
    case Join(c, t) => JoinInv(s, c, t);
    case Resume(t) => ResumeInv(s, t);
  }

  lemma ExitInv(s: State, t: Tid, v: Value)
    requires Inv(s) && Runs(s, t)
    ensures Inv(Step(s, Exit(t, v)).0)
  {
  }

  lemma JoinInv(s: State, c: Tid, t: Tid)
    requires Inv(s) && Runs(s, c)
    ensures Inv(Step(s, Join(c, t)).0)
  {
    if t in s.retValues || t !in s.threads || t in s.exits || t in s.waitingList || c == t {
    } else {
      NewEdgeClosesCycle(s.waitingList, t, c);
    }
  }

  lemma ResumeInv(s: State, t: Tid)
    requires Inv(s) && t in s.waitingList
    ensures Inv(Step(s, Resume(t)).0)
  {
    FewerEdgesAcyclic(s.waitingList - {t}, s.waitingList);
  }

  /** A join is refused for deadlock exactly when waiting would close a cycle. */
  lemma RefusedIffCycle(s: State, c: Tid, t: Tid)
    requires Inv(s) && Runs(s, c) && t !in s.waitingList
    ensures WouldDeadlock(s, c, t) <==> !Acyclic(s.waitingList[t := c])
  {
    NewEdgeClosesCycle(s.waitingList, t, c);
  }

  /** What a join comes to: a value exactly for an exited target whose value nobody has taken, a wait
      exactly for a running target that nobody waits for and where no cycle comes about, and else a
      refusal. */
  lemma JoinOutcome(s: State, c: Tid, t: Tid)
    requires Inv(s) && Possible(s, Join(c, t))
    ensures var o := Step(s, Join(c, t)).1;
            var taken := t != c && t in s.exits && t !in s.delivered;
            var waits := t != c && t in s.threads && t !in s.exits && t !in s.waitingList && Acyclic(s.waitingList[t := c]);
            && (o.Got? <==> taken) && (taken ==> o.value == s.exits[t])
            && (o == Blocked <==> waits)
            && (o == Refused <==> !taken && !waits)
  {
    if t !in s.waitingList {
      RefusedIffCycle(s, c, t);
    }
  }

  /** The waiters stay served by every step, except exactly by a second joiner's that takes the value
      from under the first. */
  lemma ServedUnlessStolen(s: State, op: Op)
    requires Inv(s) && Served(s) && Possible(s, op)
    ensures Served(Step(s, op).0) <==> !Steals(s, op)
    ensures Step(s, op).1 != AssertFails
  {
    if Steals(s, op) {
      assert op.tid in Step(s, op).0.waitingList;
    }
  }

  /** A step delivers a value at most once per target, and the one the target exited with. */
  lemma Delivery(s: State, op: Op)
    requires Inv(s) && Possible(s, op) && Step(s, op).1.Got?
    ensures op.Join? || op.Resume?
    ensures var t := op.tid;
            && t in s.exits && t !in s.delivered
            && Step(s, op).1.value == s.exits[t]
            && Step(s, op).0.delivered == s.delivered + {t}
  {
  }

  ghost predicate Run(s: State, ops: seq<Op>, z: State)
    decreases |ops|
  {
    if ops == [] then s == z else Possible(s, ops[0]) && Run(Step(s, ops[0]).0, ops[1..], z)
  }

  ghost predicate SingleJoiners(s: State, ops: seq<Op>)
    decreases |ops|
  {
    ops != [] ==> !Steals(s, ops[0]) && SingleJoiners(Step(s, ops[0]).0, ops[1..])
  }

  lemma {:induction false} RunInv(s: State, ops: seq<Op>, z: State)
    requires Inv(s) && Run(s, ops, z)
    ensures Inv(z)
    ensures s.delivered <= z.delivered && forall t :: t in s.exits ==> t in z.exits && z.exits[t] == s.exits[t]
    decreases |ops|
  {
    if ops != [] {
      StepInv(s, ops[0]);
      RunInv(Step(s, ops[0]).0, ops[1..], z);
    }
  }

  /** A waiter whose value was taken is never served again. */
  lemma TakenForGood(s: State, op: Op)
    requires Inv(s) && !Served(s) && Possible(s, op)
    ensures !Served(Step(s, op).0)
  {
    var t :| t in s.waitingList && t in s.exits && t !in s.retValues;
    var z := Step(s, op).0;
    assert t in z.waitingList && t in z.exits && t !in z.retValues;
  }

  lemma {:induction false} NeverServedAgain(s: State, ops: seq<Op>, z: State)
    requires Inv(s) && !Served(s) && Run(s, ops, z)
    ensures !Served(z)
    decreases |ops|
  {
    hide Inv, Served;
    if ops != [] {
      StepInv(s, ops[0]);
      TakenForGood(s, ops[0]);
      NeverServedAgain(Step(s, ops[0]).0, ops[1..], z);
    }
  }

  lemma {:induction false} RunServed(s: State, ops: seq<Op>, z: State)
    requires Inv(s) && Served(s) && Run(s, ops, z)
    ensures Served(z) <==> SingleJoiners(s, ops)
    decreases |ops|
  {
    hide Inv, Served, Steals;
    if ops != [] {
      StepInv(s, ops[0]);
      ServedUnlessStolen(s, ops[0]);
      if Steals(s, ops[0]) {
        NeverServedAgain(Step(s, ops[0]).0, ops[1..], z);
      } else {
        RunServed(Step(s, ops[0]).0, ops[1..], z);
      }
    }
  }

  /** From the start, after any run: every signalled waiter will find its value exactly if no second
      joiner has taken one from under a first. */
  lemma ServedIffSingleJoiners(s: State, ops: seq<Op>, z: State)
    requires Start(s) && Run(s, ops, z)
    ensures (forall t :: Possible(z, Resume(t)) ==> Step(z, Resume(t)).1 != AssertFails) <==> SingleJoiners(s, ops)
  {
    StartInv(s);
    RunServed(s, ops, z);
    ServedMeans(z);
  }

  lemma ServedMeans(z: State)
    ensures Served(z) <==> forall t :: Possible(z, Resume(t)) ==> Step(z, Resume(t)).1 != AssertFails
  {
    if forall t :: Possible(z, Resume(t)) ==> Step(z, Resume(t)).1 != AssertFails {
      forall t | t in z.waitingList && t in z.exits ensures t in z.retValues {
        assert Possible(z, Resume(t));
      }
    }
  }

  /** The values that joins take during a run, with the target of each. */
  ghost function Deliveries(s: State, ops: seq<Op>): seq<(Tid, Value)>
    decreases |ops|
  {
    if ops == [] then []
    else
      var (s', o) := Step(s, ops[0]);
      (if o.Got? then [(ops[0].tid, o.value)] else []) + Deliveries(s', ops[1..])
  }

  /** Each target is delivered once, none of those delivered before, with the value it exits with. */
  ghost predicate DeliveredOnce(s: State, d: seq<(Tid, Value)>, z: State) {
    && (forall i :: 0 <= i < |d| ==> d[i].0 !in s.delivered && d[i].0 in z.exits && d[i].1 == z.exits[d[i].0])
    && (forall i, j :: 0 <= i < j < |d| ==> d[i].0 != d[j].0)
  }

  lemma {:induction false} DeliveriesOfRun(s: State, ops: seq<Op>, z: State)
    requires Inv(s) && Run(s, ops, z)
    ensures DeliveredOnce(s, Deliveries(s, ops), z)
    decreases |ops|
  {
    if ops != [] {
      var (s', o) := Step(s, ops[0]);
      StepInv(s, ops[0]);
      DeliveriesOfRun(s', ops[1..], z);
      RunInv(s', ops[1..], z);
      if o.Got? {
        Delivery(s, ops[0]);
      }
      assert s.delivered <= s'.delivered;
    }
  }

  /** Over any run from the start, with any number of joiners, each exit value is delivered at most
      once and unchanged. */
  lemma EachValueOnce(s: State, ops: seq<Op>, z: State)
    requires Start(s) && Run(s, ops, z)
    ensures var d := Deliveries(s, ops);
            && (forall i :: 0 <= i < |d| ==> d[i].0 in z.exits && d[i].1 == z.exits[d[i].0])
            && (forall i, j :: 0 <= i < j < |d| ==> d[i].0 != d[j].0)
  {
    StartInv(s);
    DeliveriesOfRun(s, ops, z);
  }

  /** A thread has exited with x exactly if it did so in the run, or before. */
  lemma {:induction false} ExitsOfRun(s: State, ops: seq<Op>, z: State, t: Tid, x: Value)
    requires Inv(s) && Run(s, ops, z)
    ensures t in z.exits && z.exits[t] == x <==> (t in s.exits && s.exits[t] == x) || Exit(t, x) in ops
    decreases |ops|
  {
    if ops != [] {
      hide Inv, Step, Possible;
      ExitStep(s, ops[0], t, x);
      StepInv(s, ops[0]);
      assert ops == [ops[0]] + ops[1..];
      ExitsOfRun(Step(s, ops[0]).0, ops[1..], z, t, x);
    }
  }

  lemma ExitStep(s: State, op: Op, t: Tid, x: Value)
    requires Inv(s) && Possible(s, op)
    ensures var z := Step(s, op).0; t in z.exits && z.exits[t] == x <==> (t in s.exits && s.exits[t] == x) || op == Exit(t, x)
  {
  }

  /** So what is delivered in a run from the start is the very value that the target passed to
      pthread_exit. */
  lemma DeliveredAsExited(s: State, ops: seq<Op>, z: State, t: Tid, x: Value)
    requires Start(s) && Run(s, ops, z)
    ensures t in z.exits && z.exits[t] == x <==> Exit(t, x) in ops
    ensures (t, x) in Deliveries(s, ops) ==> Exit(t, x) in ops
  {
    StartInv(s);
    DeliveriesOfRun(s, ops, z);
    ExitsOfRun(s, ops, z, t, x);
  }

  /** From the start, over any run with at most one joiner per target: the join table is injective
      and acyclic, and a waiter that is signalled gets the value its target exited with; nobody has
      got it before. */
  lemma JoinersAreServed(s: State, ops: seq<Op>, z: State, t: Tid)
    requires Start(s) && Run(s, ops, z) && SingleJoiners(s, ops)
    requires Possible(z, Resume(t))
    ensures Injective(z.waitingList) && Acyclic(z.waitingList)
    ensures Step(z, Resume(t)).1 == Got(z.exits[t]) && t !in z.delivered
  {
    StartInv(s);
    RunInv(s, ops, z);
    RunServed(s, ops, z);
  }

  /** With a second joiner in between, the first one's assert fails. */
  lemma SecondJoinerTakesTheValue()
    ensures var s := State({1, 2, 3}, map[], map[], map[], {});
            var s1 := Step(s, Join(1, 3)).0;
            var s2 := Step(s1, Exit(3, 7)).0;
            var s3 := Step(s2, Join(2, 3)).0;
            && Start(s)
            && Possible(s, Join(1, 3)) && Possible(s1, Exit(3, 7)) && Possible(s2, Join(2, 3)) && Possible(s3, Resume(3))
            && Step(s2, Join(2, 3)).1 == Got(7) && Step(s3, Resume(3)).1 == AssertFails
  {
    var s := State({1, 2, 3}, map[], map[], map[], {});
    if WouldDeadlock(s, 1, 3) {
      ReachesNothing(s.waitingList, 1, 3);
    }
    var s1 := Step(s, Join(1, 3)).0;
    assert s1 == s.(waitingList := map[3 := 1]);
    assert s1.waitingList.Values == {1} by {
      assert s1.waitingList[3] == 1;
    }
  }

  // ---------------------------------------------------------------------
  // The process
  // ---------------------------------------------------------------------

  class UserProcess {
    var threads: set<Tid>
    var retValues: map<Tid, Value>
    var waitingList: map<Tid, Tid>
    var exits: map<Tid, Value>
    ghost var delivered: set<Tid>

    ghost function Now(): State
      reads this
    {
      State(threads, retValues, waitingList, exits, delivered)
    }

    constructor (first: Tid)
      ensures Start(Now()) && threads == {first}
    {
      threads, retValues, waitingList, exits, delivered := {first}, map[], map[], map[], {};
    }

    /** From waiter to waiter, starting with whoever waits for the caller. */
    method JoinDeadlock(caller: Tid, target: Tid) returns (deadlock: bool)
      requires Acyclic(waitingList) && caller != target
      ensures deadlock <==> WouldDeadlock(Now(), caller, target)
    {
      var nextWaiter := caller;
      ghost var seen: set<Tid> := {};
      ReachesSelf(waitingList, caller);
      while true
        invariant Reaches(waitingList, caller, target) <==> Reaches(waitingList, nextWaiter, target)
        invariant nextWaiter != target && seen <= waitingList.Keys
        invariant forall t :: t in seen ==> t in waitingList && Reaches(waitingList, waitingList[t], nextWaiter)
        decreases waitingList.Keys - seen
      {
        if nextWaiter !in waitingList {
          if Reaches(waitingList, nextWaiter, target) {
            ReachesNothing(waitingList, nextWaiter, target);
          }
          return false;
        }
        ghost var was := nextWaiter;
        StepAlong(waitingList, seen, was, target);
        nextWaiter := waitingList[nextWaiter];
        if nextWaiter == target {
          ReachesSelf(waitingList, target);
          return true;
        }
        seen := seen + {was};
      }
    }

    method ExitThread(tid: Tid, value: Value)
      requires Inv(Now()) && Possible(Now(), Exit(tid, value))
      modifies this
      ensures Inv(Now()) && Now() == Step(old(Now()), Exit(tid, value)).0
    {
      StepInv(Now(), Exit(tid, value));
      if tid in retValues || tid in exits {
        return;
      }
      retValues := retValues[tid := value];
      exits := exits[tid := value];
    }

    /** joinThread up to its end or to cond->wait(). */
    method JoinThread(caller: Tid, tid: Tid) returns (r: Outcome)
      requires Inv(Now()) && Possible(Now(), Join(caller, tid))
      modifies this
      ensures Inv(Now()) && (Now(), r) == Step(old(Now()), Join(caller, tid))
    {
      StepInv(Now(), Join(caller, tid));
      if caller == tid {
        return Refused;
      }
      if tid in retValues {
        r := Got(retValues[tid]);
        retValues := retValues - {tid};
        delivered := delivered + {tid};
        return;
      }
      if tid !in threads || tid in exits {
        return Refused;
      }
      if tid in waitingList {
        return Refused;
      }
      var deadlock := JoinDeadlock(caller, tid);
      if deadlock {
        return Refused;
      }
      waitingList := waitingList[tid := caller];
      return Blocked;
    }

    /** joinThread behind cond->wait(); the assert on the return value fails for a waiter that is not
        served. */
    method ResumeJoin(tid: Tid) returns (r: Outcome)
      requires Inv(Now()) && Possible(Now(), Resume(tid))
      modifies this
      ensures Inv(Now()) && (Now(), r) == Step(old(Now()), Resume(tid))
      ensures r == if tid in old(retValues) then Got(old(exits)[tid]) else AssertFails
      ensures old(Served(Now())) ==> r.Got?
    {
      StepInv(Now(), Resume(tid));
      if tid !in retValues {
        return AssertFails;
      }
      r := Got(retValues[tid]);
      waitingList := waitingList - {tid};
      retValues := retValues - {tid};
      delivered := delivered + {tid};
    }
  }

  lemma StepAlong(next: map<Tid, Tid>, seen: set<Tid>, t: Tid, target: Tid)
    requires Acyclic(next) && t in next && t != target
    requires forall u :: u in seen ==> u in next && Reaches(next, next[u], t)
    ensures Reaches(next, t, target) <==> Reaches(next, next[t], target)
    ensures t !in seen
    ensures forall u :: u in seen + {t} ==> Reaches(next, next[u], next[t])
  {
    ReachesFromNext(next, t, target);
    NoWayBack(next, t);
    ReachesSelf(next, next[t]);
    forall u | u in seen ensures Reaches(next, next[u], next[t]) {
      ReachesNext(next, next[u], t);
    }
  }
}
