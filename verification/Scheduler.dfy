/** Round-robin scheduling over a list that is rotated behind the chosen thread. */
module Scheduler {
  import opened Basics

  type Tid = nat

  datatype ThreadState = Running | Sleeping | ToBeDestroyed

  /** What the scheduler looks at; wakeUp is 0 for kernel threads and threads without a wake-up time. */
  datatype Thread = Thread(state: ThreadState, wakeUp: nat)

  datatype State = State(
    list: seq<Tid>,                 // threads_
    info: map<Tid, Thread>,
    blocked: bool,                  // block_scheduling_
    current: Tid)                   // currentThread

  const MAX_DESTROYED := 1024

  /** A listed thread that a call to schedule at this time may choose. */
  predicate Eligible(s: State, t: Tid, now: nat) {
    t in s.info && s.info[t].wakeUp <= now && s.info[t].state == Running
  }

  /** The index of the first eligible thread, or the length of the list. */
  function First(s: State, now: nat, i: nat): (r: nat)
    requires i <= |s.list|
    ensures i <= r <= |s.list|
    ensures forall k :: i <= k < r ==> !Eligible(s, s.list[k], now)
    ensures r < |s.list| ==> Eligible(s, s.list[r], now)
    decreases |s.list| - i
  {
    if i == |s.list| || Eligible(s, s.list[i], now) then i else First(s, now, i + 1)
  }

  function Rotated(list: seq<Tid>, n: nat): seq<Tid>
    requires n <= |list|
  {
    list[n..] + list[..n]
  }

  /** The wake-up times that have passed are reset on the way to the chosen thread. */
  function Reset(s: State, now: nat, upTo: nat): map<Tid, Thread>
    requires upTo <= |s.list|
  {
    map t | t in s.info :: if t in s.list[..upTo] && s.info[t].wakeUp <= now then s.info[t].(wakeUp := 0) else s.info[t]
  }

  /** Without the dead threads, of which at most `limit` go. */
  function Cleaned(list: seq<Tid>, info: map<Tid, Thread>, limit: nat): seq<Tid> {
    if list == [] then []
    else if limit > 0 && list[0] in info && info[list[0]].state == ToBeDestroyed then Cleaned(list[1..], info, limit - 1)
    else [list[0]] + Cleaned(list[1..], info, limit)
  }

  function LimitFor(list: seq<Tid>): nat {
    if |list| > MAX_DESTROYED then MAX_DESTROYED else |list|
  }

  datatype Event =
    | Schedule(now: nat)
    | Add(tid: Tid, thread: Thread)
    | Change(tid: Tid, thread: Thread)   // sleep, wake, kill, set a wake-up time
    | Cleanup
    | Block(on: bool)

  /** A schedule needs somebody to choose; a new thread is new. */
  predicate Possible(s: State, e: Event) {
    match e
    case Schedule(now) => s.blocked || First(s, now, 0) < |s.list|
    case Add(t, _) => t !in s.info
    case Change(t, _) => t in s.info
    case Cleanup => true
    case Block(_) => true
  }

  function Step(s: State, e: Event): State
    requires Possible(s, e)
  {
    match e
    case Schedule(now) =>
      if s.blocked then s
      else
        var i := First(s, now, 0);
        State(Rotated(s.list, i + 1), Reset(s, now, i + 1), false, s.list[i])
    case Add(t, th) => s.(list := s.list + [t], info := s.info[t := th])
    case Change(t, th) => s.(info := s.info[t := th])
    case Cleanup => s.(list := Cleaned(s.list, s.info, LimitFor(s.list)))
    case Block(on) => s.(blocked := on)
  }

  // ---------------------------------------------------------------------
  // Bounded bypass
  // ---------------------------------------------------------------------

  /** Where a thread stands in the list. */
  ghost predicate At(list: seq<Tid>, t: Tid, p: nat) {
    p < |list| && list[p] == t && t !in list[..p]
  }

  lemma {:induction false} CleanupMovesForward(list: seq<Tid>, info: map<Tid, Thread>, limit: nat, t: Tid, p: nat) returns (q: nat)
    requires At(list, t, p) && t in info && info[t].state != ToBeDestroyed
    ensures q <= p && At(Cleaned(list, info, limit), t, q)
  {
    if p == 0 {
      q := 0;
    } else {
      var h := list[0];
      assert h == list[..p][0];
      assert list[1..][..p - 1] == list[..p][1..];
      if limit > 0 && h in info && info[h].state == ToBeDestroyed {
        q := CleanupMovesForward(list[1..], info, limit - 1, t, p - 1);
      } else {
        var r := CleanupMovesForward(list[1..], info, limit, t, p - 1);
        var rest := Cleaned(list[1..], info, limit);
        q := r + 1;
        assert ([h] + rest)[..q] == [h] + rest[..r];
      }
    }
  }

  lemma ScheduleMovesForward(s: State, now: nat, t: Tid, p: nat) returns (q: nat)
    requires !s.blocked && Possible(s, Schedule(now)) && At(s.list, t, p) && Eligible(s, t, now)
    requires Step(s, Schedule(now)).current != t
    ensures q < p && At(Step(s, Schedule(now)).list, t, q)
  {
    var i := First(s, now, 0);
    assert i <= p;
    q := p - (i + 1);
    var z := Rotated(s.list, i + 1);
    assert z[q] == s.list[p];
    assert forall k :: 0 <= k < q ==> z[k] == s.list[..p][k + i + 1];
  }

  ghost predicate Runs(s: State, events: seq<Event>, z: State)
    decreases |events|
  {
    if events == [] then s == z else Possible(s, events[0]) && Runs(Step(s, events[0]), events[1..], z)
  }

  /** Whenever schedule may choose, t is eligible; otherwise it stays a listed thread that is not dead. */
  ghost predicate StaysEligible(s: State, events: seq<Event>, t: Tid)
    decreases |events|
  {
    && t in s.info && s.info[t].state != ToBeDestroyed
    && (events != [] && Possible(s, events[0]) ==>
          && (events[0].Schedule? && !s.blocked ==> Eligible(s, t, events[0].now))
          && StaysEligible(Step(s, events[0]), events[1..], t))
  }

  /** How many of the calls to schedule chose a thread, and whether t was chosen. */
  function Choices(s: State, events: seq<Event>): nat
    decreases |events|
  {
    if events == [] || !Possible(s, events[0]) then 0
    else (if events[0].Schedule? && !s.blocked then 1 else 0) + Choices(Step(s, events[0]), events[1..])
  }

  ghost predicate Chosen(s: State, events: seq<Event>, t: Tid)
    decreases |events|
  {
    events != [] && Possible(s, events[0]) &&
    ((events[0].Schedule? && !s.blocked && Step(s, events[0]).current == t) || Chosen(Step(s, events[0]), events[1..], t))
  }

  /** Bounded bypass: a thread at index p that stays eligible is chosen within p + 1 choices, whatever
      is added, put to sleep, woken or cleaned up in between. */
  lemma {:induction false} BoundedBypass(s: State, events: seq<Event>, z: State, t: Tid, p: nat)
    requires Runs(s, events, z) && At(s.list, t, p) && StaysEligible(s, events, t)
    requires Choices(s, events) >= p + 1
    ensures Chosen(s, events, t)
    decreases |events|
  {
    if !Chosen(s, events, t) {
      var s' := Step(s, events[0]);
      var q := p;
      match events[0] {
        case Schedule(now) =>
          if !s.blocked {
            q := ScheduleMovesForward(s, now, t, p);
          }
        case Add(u, _) =>
          assert (s.list + [u])[..p] == s.list[..p];
        case Cleanup =>
          q := CleanupMovesForward(s.list, s.info, LimitFor(s.list), t, p);
        case Change(_, _) =>
        case Block(_) =>
      }
      BoundedBypass(s', events[1..], z, t, q);
    }
  }

  /** Without edits of the list, its cyclic order stays: it is always a rotation of what it was. */
  lemma {:induction false} CyclicOrder(s: State, events: seq<Event>, z: State) returns (n: nat)
    requires Runs(s, events, z) && forall e :: e in events ==> !e.Add? && !e.Cleanup?
    ensures n <= |s.list| && z.list == Rotated(s.list, n)
    decreases |events|
  {
    if events == [] {
      n := 0;
    } else {
      var s' := Step(s, events[0]);
      var m := CyclicOrder(s', events[1..], z);
      n := m;
      if events[0].Schedule? && !s.blocked {
        var i := First(s, events[0].now, 0) + 1;
        n := RotateTwice(s.list, i, m);
      }
    }
  }

  lemma RotateTwice(list: seq<Tid>, i: nat, m: nat) returns (n: nat)
    requires i <= |list| && m <= |list|
    ensures n <= |list| && Rotated(Rotated(list, i), m) == Rotated(list, n)
  {
    if i + m <= |list| {
      n := i + m;
    } else {
      n := i + m - |list|;
    }
  }

  // ---------------------------------------------------------------------
  // Round robin
  // ---------------------------------------------------------------------

  /** Every listed thread is known, and listed once. */
  ghost predicate Listed(s: State) {
    Distinct(s.list) && forall t :: t in s.list ==> t in s.info
  }

  /** The chosen thread is eligible and no thread before it is; it goes to the end of the list, and those
      behind it to the front. */
  lemma ChosenGoesLast(s: State, now: nat)
    requires !s.blocked && Possible(s, Schedule(now))
    ensures var z := Step(s, Schedule(now));
            && |z.list| == |s.list| > 0 && z.list[|z.list| - 1] == z.current && Eligible(s, z.current, now)
            && exists i :: 0 <= i < |s.list| && s.list[i] == z.current && z.list == s.list[i + 1..] + s.list[..i + 1]
                           && forall k :: 0 <= k < i ==> !Eligible(s, s.list[k], now)
  {
    var i := First(s, now, 0);
    assert s.list[..i + 1][i] == s.list[i];
  }

  /** Wake-up times are reset only where they have passed, so at no later time is anybody eligible or
      not because of that; the chosen thread has none afterwards. */
  lemma ResetsChangeNothing(s: State, now: nat, t: Tid, later: nat)
    requires !s.blocked && Possible(s, Schedule(now)) && t in s.info && now <= later
    ensures var z := Step(s, Schedule(now));
            && t in z.info && z.info[t].state == s.info[t].state && (Eligible(z, t, later) <==> Eligible(s, t, later))
            && (z.info[t].wakeUp != s.info[t].wakeUp ==> z.info[t].wakeUp == 0 && t in s.list)
            && z.current in z.info && z.info[z.current].wakeUp == 0
            && forall k :: 0 <= k <= First(s, now, 0) && s.list[k] in s.info && s.info[s.list[k]].wakeUp <= now ==>
                             z.info[s.list[k]].wakeUp == 0
  {
  }

  /** While scheduling is blocked, a call changes nothing. */
  lemma BlockedChangesNothing(s: State, now: nat)
    requires s.blocked
    ensures Possible(s, Schedule(now)) && Step(s, Schedule(now)) == s
  {
  }

  lemma StepListed(s: State, e: Event)
    requires Listed(s) && Possible(s, e)
    ensures Listed(Step(s, e))
  {
    if e.Cleanup? {
      CleanedDistinct(s.list, s.info, LimitFor(s.list));
    }
  }

  lemma {:induction false} RunListed(s: State, events: seq<Event>, z: State)
    requires Listed(s) && Runs(s, events, z)
    ensures Listed(z)
    decreases |events|
  {
    hide Listed, Step, Possible;
    if events != [] {
      StepListed(s, events[0]);
      RunListed(Step(s, events[0]), events[1..], z);
    }
  }

  lemma {:induction false} CleanedDistinct(list: seq<Tid>, info: map<Tid, Thread>, limit: nat)
    requires Distinct(list)
    ensures Distinct(Cleaned(list, info, limit)) && forall t :: t in Cleaned(list, info, limit) ==> t in list
  {
    if list != [] {
      assert list[0] !in list[1..];
      CleanedDistinct(list[1..], info, limit);
      if limit > 0 {
        CleanedDistinct(list[1..], info, limit - 1);
      }
    }
  }

  /** What a cleanup leaves before an element that stays was before it all along. */
  lemma {:induction false} CleanupKeepsBefore(list: seq<Tid>, info: map<Tid, Thread>, limit: nat, t: Tid, u: Tid, p: nat) returns (q: nat)
    requires At(list, u, p) && t !in list[..p] && u in info && info[u].state != ToBeDestroyed
    ensures At(Cleaned(list, info, limit), u, q) && t !in Cleaned(list, info, limit)[..q]
  {
    if p == 0 {
      q := 0;
    } else {
      var h := list[0];
      assert h == list[..p][0];
      assert list[1..][..p - 1] == list[..p][1..];
      if limit > 0 && h in info && info[h].state == ToBeDestroyed {
        q := CleanupKeepsBefore(list[1..], info, limit - 1, t, u, p - 1);
      } else {
        var r := CleanupKeepsBefore(list[1..], info, limit, t, u, p - 1);
        var rest := Cleaned(list[1..], info, limit);
        q := r + 1;
        assert ([h] + rest)[..q] == [h] + rest[..r];
      }
    }
  }

  lemma ScheduleKeepsBefore(s: State, now: nat, t: Tid, u: Tid, p: nat) returns (q: nat)
    requires !s.blocked && Possible(s, Schedule(now)) && At(s.list, u, p) && t !in s.list[..p] && Eligible(s, u, now) && t != u
    ensures var z := Step(s, Schedule(now));
            z.current == u || (z.current != t && At(z.list, u, q) && t !in z.list[..q])
  {
    var i := First(s, now, 0);
    assert i <= p;
    q := 0;
    if i < p {
      assert s.list[i] == s.list[..p][i];
      q := p - (i + 1);
      var z := Rotated(s.list, i + 1);
      assert z[q] == s.list[p];
      assert forall k :: 0 <= k < q ==> z[k] == s.list[..p][k + i + 1];
    }
  }

  /** A thread that stands before another, or where the other is not listed, is chosen before it. */
  lemma {:induction false} FirstInLine(s: State, events: seq<Event>, z: State, t: Tid, u: Tid, p: nat)
    requires Runs(s, events, z) && At(s.list, u, p) && t !in s.list[..p] && t != u && t in s.info
    requires StaysEligible(s, events, u) && Chosen(s, events, t)
    ensures Chosen(s, events, u)
    decreases |events|
  {
    var s' := Step(s, events[0]);
    var q := p;
    match events[0] {
      case Schedule(now) =>
        if !s.blocked {
          q := ScheduleKeepsBefore(s, now, t, u, p);
        }
      case Add(v, _) =>
        assert (s.list + [v])[..p] == s.list[..p];
      case Cleanup =>
        q := CleanupKeepsBefore(s.list, s.info, LimitFor(s.list), t, u, p);
      case Change(_, _) =>
      case Block(_) =>
    }
    if !Chosen(s, events, u) {
      FirstInLine(s', events[1..], z, t, u, q);
    }
  }

  /** Between two choices of one thread every other listed thread that stays eligible is chosen. */
  lemma EverybodyInBetween(s: State, now: nat, events: seq<Event>, z: State, t: Tid, u: Tid)
    requires Listed(s) && !s.blocked && Possible(s, Schedule(now)) && u in s.list && u != t
    requires var s' := Step(s, Schedule(now));
             s'.current == t && Runs(s', events, z) && StaysEligible(s', events, u) && Chosen(s', events, t)
    ensures Chosen(Step(s, Schedule(now)), events, u)
  {
    hide Step, Eligible, Possible, Runs, StaysEligible, Chosen;
    var s' := Step(s, Schedule(now));
    StepListed(s, Schedule(now));
    ChosenGoesLast(s, now);
    var i :| 0 <= i < |s.list| && s'.list == s.list[i + 1..] + s.list[..i + 1];
    assert u in s'.list;
    var p :| 0 <= p < |s'.list| && s'.list[p] == u;
    assert t !in s'.list[..|s'.list| - 1];
    FirstInLine(s', events, z, t, u, p);
  }

  // ---------------------------------------------------------------------
  // Cleanup
  // ---------------------------------------------------------------------

  /** The threads that are not dead, in their order. */
  function Alive(list: seq<Tid>, info: map<Tid, Thread>): seq<Tid> {
    if list == [] then []
    else (if Dead(list[0], info) then [] else [list[0]]) + Alive(list[1..], info)
  }

  /** A cleanup takes out the dead threads of a first part of the list, as many as the limit allows, and
      leaves everything else as it is. */
  lemma {:induction false} CleanedIs(list: seq<Tid>, info: map<Tid, Thread>, limit: nat) returns (k: nat)
    ensures k <= |list| && Cleaned(list, info, limit) == Alive(list[..k], info) + list[k..]
    ensures |list| - |Cleaned(list, info, limit)| <= limit
    ensures k < |list| ==> |list| - |Cleaned(list, info, limit)| == limit
  {
    hide Alive, Cleaned;
    if list == [] || limit == 0 {
      CleanedNone(list, info, limit);
      k := 0;
    } else {
      CleanedHead(list, info, limit);
      var j := CleanedIs(list[1..], info, if Dead(list[0], info) then limit - 1 else limit);
      k := j + 1;
      AliveHead(list, info, j);
    }
  }

  predicate Dead(t: Tid, info: map<Tid, Thread>) {
    t in info && info[t].state == ToBeDestroyed
  }

  lemma CleanedNone(list: seq<Tid>, info: map<Tid, Thread>, limit: nat)
    requires list == [] || limit == 0
    ensures Cleaned(list, info, limit) == list == Alive(list[..0], info) + list[0..]
  {
    NothingCleaned(list, info);
  }

  lemma CleanedHead(list: seq<Tid>, info: map<Tid, Thread>, limit: nat)
    requires list != [] && limit > 0
    ensures Cleaned(list, info, limit) ==
            if Dead(list[0], info) then Cleaned(list[1..], info, limit - 1) else [list[0]] + Cleaned(list[1..], info, limit)
  {
  }

  lemma AliveHead(list: seq<Tid>, info: map<Tid, Thread>, j: nat)
    requires j < |list|
    ensures Alive(list[..j + 1], info) ==
            (if Dead(list[0], info) then [] else [list[0]]) + Alive(list[1..][..j], info)
    ensures list[j + 1..] == list[1..][j..]
  {
    assert list[..j + 1][1..] == list[1..][..j];
  }

  lemma {:induction false} AliveIs(list: seq<Tid>, info: map<Tid, Thread>)
    ensures forall t :: t in Alive(list, info) <==> t in list && !Dead(t, info)
    ensures |Alive(list, info)| <= |list|
  {
    if list != [] {
      AliveIs(list[1..], info);
      assert list == [list[0]] + list[1..];
    }
  }

  /** With at most 1024 threads in the list, exactly the dead ones go; the others keep their order. */
  lemma CleanupTakesAllDead(s: State)
    requires |s.list| <= 1024
    ensures Step(s, Cleanup).list == Alive(s.list, s.info)
    ensures forall t :: t in Step(s, Cleanup).list <==> t in s.list && !Dead(t, s.info)
  {
    var k := CleanedIs(s.list, s.info, LimitFor(s.list));
    AliveIs(s.list, s.info);
    assert k == |s.list|;
    assert s.list[..|s.list|] == s.list;
  }

  // ---------------------------------------------------------------------
  // The scheduler
  // ---------------------------------------------------------------------

  class RoundRobin {
    var threads: seq<Tid>
    var info: map<Tid, Thread>
    var blockScheduling: bool
    var currentThread: Tid

    ghost function Now(): State
      reads this
    {
      State(threads, info, blockScheduling, currentThread)
    }

    constructor (cleanup: Tid, idle: Tid)
      requires cleanup != idle
      ensures Now() == State([cleanup, idle], map[cleanup := Thread(Running, 0), idle := Thread(Running, 0)], false, idle) && Valid()
    {
      threads, blockScheduling, currentThread := [cleanup, idle], false, idle;
      info := map[cleanup := Thread(Running, 0), idle := Thread(Running, 0)];
    }

    ghost predicate Valid()
      reads this
    {
      forall t :: t in threads ==> t in info
    }

    /** The loop of schedule: makes the first eligible thread the current one. */
    method ChooseThread(now: nat) returns (it: nat)
      requires Valid() && First(Now(), now, 0) < |threads|
      modifies `info, `currentThread
      ensures it == First(old(Now()), now, 0) && currentThread == threads[it]
      ensures info == Reset(old(Now()), now, it + 1)
    {
      ghost var s := Now();
      it := 0;
      StartReset(s, now);
      hide Reset, Eligible, First;
      assert info == Reset(s, now, it);
      while true
        invariant it < |threads| && First(s, now, it) == First(s, now, 0)
        invariant info == Reset(s, now, it)
        decreases |threads| - it
      {
        var t := threads[it];
        ResetStep(s, now, it);
        FirstStep(s, now, it);
        if info[t].wakeUp != 0 && info[t].wakeUp > now {
          it := it + 1;
          continue;
        }
        if info[t].wakeUp != 0 && info[t].wakeUp <= now {
          info := info[t := info[t].(wakeUp := 0)];
        }
        if info[t].state == Running {
          currentThread := t;
          return;
        }
        it := it + 1;
      }
    }

    /** Chooses the first eligible thread and rotates the list behind it. */
    method Schedule(now: nat)
      requires Valid() && Possible(Now(), Event.Schedule(now))
      modifies this
      ensures Valid() && Now() == Step(old(Now()), Event.Schedule(now))
    {
      if blockScheduling {
        return;
      }
      var it := ChooseThread(now);
      threads := threads[it + 1..] + threads[..it + 1];
    }

    method AddNewThread(t: Tid, thread: Thread)
      requires Valid() && Possible(Now(), Add(t, thread))
      modifies this
      ensures Valid() && Now() == Step(old(Now()), Add(t, thread))
    {
      threads := threads + [t];
      info := info[t := thread];
    }

    /** Erases dead threads in place, going on at the same index. */
    method CleanupDeadThreads()
      requires Valid()
      modifies this
      ensures Valid() && Now() == Step(old(Now()), Cleanup)
    {
      ghost var s := threads;
      var max := if |threads| > MAX_DESTROYED then MAX_DESTROYED else |threads|;
      var count, i := 0, 0;
      hide Cleaned, Reset, Eligible, First;
      assert threads[0..] == threads;
      while i < |threads| && count < max
        invariant i <= |threads| && count <= max && Valid()
        invariant threads[..i] + Cleaned(threads[i..], info, max - count) == Cleaned(s, info, max)
        invariant info == old(info) && blockScheduling == old(blockScheduling) && currentThread == old(currentThread)
        decreases |threads| - i
      {
        CleanedStep(threads, i, info, max - count);
        if info[threads[i]].state == ToBeDestroyed {
          count := count + 1;
          threads := threads[..i] + threads[i + 1..];
        } else {
          i := i + 1;
        }
      }
      CleanedDone(threads, i, info, max - count);
    }
  }

  lemma StartReset(s: State, now: nat)
    ensures Reset(s, now, 0) == s.info
  {
  }

  lemma FirstStep(s: State, now: nat, i: nat)
    requires i < |s.list|
    ensures First(s, now, i) == if Eligible(s, s.list[i], now) then i else First(s, now, i + 1)
  {
  }

  /** The next thread in the loop, with what has been reset before it. */
  lemma ResetStep(s: State, now: nat, i: nat)
    requires i < |s.list| && s.list[i] in s.info
    ensures Reset(s, now, i).Keys == s.info.Keys
    ensures var t := s.list[i];
            var r := Reset(s, now, i);
            && r[t].state == s.info[t].state
            && (Eligible(s, t, now) <==> r[t].wakeUp <= now && r[t].state == Running)
            && Reset(s, now, i + 1) == if r[t].wakeUp != 0 && r[t].wakeUp <= now then r[t := r[t].(wakeUp := 0)] else r
  {
    assert s.list[..i + 1] == s.list[..i] + [s.list[i]];
  }

  lemma CleanedStep(list: seq<Tid>, i: nat, info: map<Tid, Thread>, limit: nat)
    requires i < |list| && list[i] in info && limit > 0
    ensures var left := list[..i] + list[i + 1..];
            list[..i] + Cleaned(list[i..], info, limit) ==
            if info[list[i]].state == ToBeDestroyed then left[..i] + Cleaned(left[i..], info, limit - 1)
            else list[..i + 1] + Cleaned(list[i + 1..], info, limit)
  {
    assert list[i..][1..] == list[i + 1..];
    assert (list[..i] + list[i + 1..])[i..] == list[i + 1..];
  }

  lemma CleanedDone(list: seq<Tid>, i: nat, info: map<Tid, Thread>, limit: nat)
    requires i <= |list| && (i == |list| || limit == 0)
    ensures list[..i] + Cleaned(list[i..], info, limit) == list
  {
    NothingCleaned(list[i..], info);
    assert list[..i] + list[i..] == list;
  }

  lemma {:induction false} NothingCleaned(list: seq<Tid>, info: map<Tid, Thread>)
    ensures Cleaned(list, info, 0) == list
  {
    if list != [] {
      NothingCleaned(list[1..], info);
    }
  }
}
