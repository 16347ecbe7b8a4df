/** Copy on write: page tables, the frames they map, and the sets of processes that share a frame. */
module CopyOnWrite {

  type Pid = nat
  type Vpn = nat
  type Ppn = nat
  type Byte = bv8
  type Page = seq<Byte>

  const PAGE_SIZE: nat := 4096

  /** A virtual page of a process. */
  datatype Addr = Addr(pid: Pid, vpn: Vpn)

  datatype Pte = Pte(ppn: Ppn, writeable: bool)

  /** `cow` is cow_map_, `ptes` the present entries of all page tables, `mem` the frames in use. */
  datatype State = State(procs: set<Pid>, cow: map<Ppn, set<Pid>>, ptes: map<Addr, Pte>, mem: map<Ppn, Page>)

  /** The processes in the set of a frame; a frame without an entry has none. */
  function Sharers(s: State, n: Ppn): set<Pid> {
    if n in s.cow then s.cow[n] else {}
  }

  ghost predicate Maps(s: State, p: Pid, n: Ppn) {
    exists v :: Addr(p, v) in s.ptes && s.ptes[Addr(p, v)].ppn == n
  }

  // ---------------------------------------------------------------------
  // The invariant
  // ---------------------------------------------------------------------

  /** Every entry points to a frame in use. */
  ghost predicate NothingDangles(s: State) {
    && (forall a :: a in s.ptes ==> a.pid in s.procs && s.ptes[a].ppn in s.mem)
    && (forall n :: n in s.mem ==> |s.mem[n]| == PAGE_SIZE)
  }

  /** A frame appears at one virtual page only, and once if somebody may write to it. */
  ghost predicate OneOwner(s: State) {
    forall a, b :: a in s.ptes && b in s.ptes && s.ptes[a].ppn == s.ptes[b].ppn ==>
                     a.vpn == b.vpn && (s.ptes[a].writeable ==> a == b)
  }

  /** The set of a frame is exactly the processes that map it read-only. */
  ghost predicate SetsExact(s: State) {
    && (forall a :: a in s.ptes ==> (a.pid in Sharers(s, s.ptes[a].ppn) <==> !s.ptes[a].writeable))
    && (forall n, p :: p in Sharers(s, n) ==> Maps(s, p, n))
  }

  /** Every frame in use is mapped by somebody. */
  ghost predicate NothingLeaks(s: State) {
    forall n :: n in s.mem ==> exists p :: Maps(s, p, n)
  }

  ghost predicate Valid(s: State) {
    NothingDangles(s) && OneOwner(s) && SetsExact(s) && NothingLeaks(s)
  }

  // ---------------------------------------------------------------------
  // Operations
  // ---------------------------------------------------------------------

  /** The last process in the set of a frame becomes its owner. */
  function Claim(s: State, a: Addr): State
    requires a in s.ptes
  {
    var n := s.ptes[a].ppn;
    s.(ptes := s.ptes[a := Pte(n, true)], cow := s.cow[n := Sharers(s, n) - {a.pid}])
  }

  /** One of several gets a copy of its own, in `frame`, and leaves the set. */
  function Separate(s: State, a: Addr, frame: Ppn): State
    requires a in s.ptes && s.ptes[a].ppn in s.mem
  {
    var n := s.ptes[a].ppn;
    s.(ptes := s.ptes[a := Pte(frame, true)], mem := s.mem[frame := s.mem[n]], cow := s.cow[n := Sharers(s, n) - {a.pid}])
  }

  /** A process in the set of a frame maps it read-only where the others do. */
  lemma SharerMapsHere(s: State, a: Addr, other: Pid)
    requires Valid(s) && a in s.ptes && other in Sharers(s, s.ptes[a].ppn)
    ensures Addr(other, a.vpn) in s.ptes && s.ptes[Addr(other, a.vpn)] == Pte(s.ptes[a].ppn, false)
  {
    var v :| Addr(other, v) in s.ptes && s.ptes[Addr(other, v)].ppn == s.ptes[a].ppn;
  }

  /** So does a process whose entry for the page is not writeable. */
  lemma SharesItsFrame(s: State, a: Addr)
    requires Valid(s) && a in s.ptes && !s.ptes[a].writeable
    ensures s.ptes[a].ppn in s.cow && s.ptes[a].ppn in s.mem && a.pid in Sharers(s, s.ptes[a].ppn)
  {
  }

  // ---------------------------------------------------------------------
  // A page fault on a shared page
  // ---------------------------------------------------------------------

  lemma ClaimSets(s: State, a: Addr)
    requires OneOwner(s) && SetsExact(s) && a in s.ptes && Sharers(s, s.ptes[a].ppn) == {a.pid}
    ensures SetsExact(Claim(s, a))
  {
    var n, z := s.ptes[a].ppn, Claim(s, a);
    assert Sharers(z, n) == {};
    forall m, p | p in Sharers(z, m) ensures Maps(z, p, m) {
      assert p in Sharers(s, m);
      var v :| Addr(p, v) in s.ptes && s.ptes[Addr(p, v)].ppn == m;
      assert z.ptes[Addr(p, v)].ppn == m;
    }
    forall b | b in z.ptes ensures b.pid in Sharers(z, z.ptes[b].ppn) <==> !z.ptes[b].writeable {
    }
  }

  lemma ClaimOwner(s: State, a: Addr)
    requires OneOwner(s) && SetsExact(s) && a in s.ptes && Sharers(s, s.ptes[a].ppn) == {a.pid}
    ensures OneOwner(Claim(s, a))
  {
    var n, z := s.ptes[a].ppn, Claim(s, a);
    assert forall b :: b in s.ptes && s.ptes[b].ppn == n ==> b == a by {
      forall b | b in s.ptes && s.ptes[b].ppn == n ensures b == a {
        if s.ptes[b].writeable {
          assert b == a;
        } else {
          assert b.pid in Sharers(s, n);
        }
      }
    }
    hide Sharers, SetsExact;
  }

  lemma ClaimFrames(s: State, a: Addr)
    requires NothingDangles(s) && NothingLeaks(s) && a in s.ptes
    ensures NothingDangles(Claim(s, a)) && NothingLeaks(Claim(s, a))
  {
    var z := Claim(s, a);
    forall n | n in z.mem ensures exists p :: Maps(z, p, n) {
      var p, v :| Addr(p, v) in s.ptes && s.ptes[Addr(p, v)].ppn == n;
      assert z.ptes[Addr(p, v)].ppn == n;
      assert Maps(z, p, n);
    }
  }

  /** Several processes share the frame of a, and `frame` is free. */
  ghost predicate Separable(s: State, a: Addr, frame: Ppn) {
    Valid(s) && a in s.ptes && !s.ptes[a].writeable && frame !in s.mem && Sharers(s, s.ptes[a].ppn) != {a.pid}
  }

  lemma SeparateSets(s: State, a: Addr, frame: Ppn)
    requires Separable(s, a, frame)
    ensures SetsExact(Separate(s, a, frame))
  {
    var n, z := s.ptes[a].ppn, Separate(s, a, frame);
    NobodyMaps(s, frame);
    forall m, p | p in Sharers(z, m) ensures Maps(z, p, m) {
      assert p in Sharers(s, m);
      var v :| Addr(p, v) in s.ptes && s.ptes[Addr(p, v)].ppn == m;
      assert Addr(p, v) != a;
      assert z.ptes[Addr(p, v)].ppn == m;
    }
    forall b | b in z.ptes ensures b.pid in Sharers(z, z.ptes[b].ppn) <==> !z.ptes[b].writeable {
      if b != a {
        assert s.ptes[b].ppn == n && b.pid == a.pid ==> b.vpn == a.vpn;
      }
    }
  }

  lemma SeparateOwner(s: State, a: Addr, frame: Ppn)
    requires Separable(s, a, frame)
    ensures OneOwner(Separate(s, a, frame))
  {
    hide SetsExact, NothingLeaks, Sharers;
  }

  lemma SeparateMaps(s: State, a: Addr, frame: Ppn, p: Pid, v: Vpn)
    requires a in s.ptes && s.ptes[a].ppn in s.mem && Addr(p, v) in s.ptes && a != Addr(p, v)
    ensures Maps(Separate(s, a, frame), p, s.ptes[Addr(p, v)].ppn)
  {
    hide Sharers;
    assert Separate(s, a, frame).ptes[Addr(p, v)].ppn == s.ptes[Addr(p, v)].ppn;
  }

  /** Somebody other than a.pid still maps the frame, and a.pid maps the new one. */
  lemma SeparateLeaks(s: State, a: Addr, frame: Ppn)
    requires Separable(s, a, frame)
    ensures NothingLeaks(Separate(s, a, frame))
  {
    hide NothingDangles, OneOwner, SetsExact, Sharers;
    SharesItsFrame(s, a);
    var n, z := s.ptes[a].ppn, Separate(s, a, frame);
    assert z.ptes[Addr(a.pid, a.vpn)].ppn == frame && Maps(z, a.pid, frame);
    var other :| other in Sharers(s, n) && other != a.pid;
    SharerMapsHere(s, a, other);
    SeparateMaps(s, a, frame, other, a.vpn);
    forall m | m in z.mem && m != frame && m != n ensures exists p :: Maps(z, p, m) {
      var p, v :| Addr(p, v) in s.ptes && s.ptes[Addr(p, v)].ppn == m;
      SeparateMaps(s, a, frame, p, v);
    }
  }

  lemma SeparateDangles(s: State, a: Addr, frame: Ppn)
    requires Separable(s, a, frame)
    ensures NothingDangles(Separate(s, a, frame))
  {
    hide OneOwner, SetsExact, NothingLeaks, Sharers;
  }

  lemma NobodyMaps(s: State, frame: Ppn)
    requires Valid(s) && frame !in s.mem
    ensures Sharers(s, frame) == {}
  {
    assert forall p :: p in Sharers(s, frame) ==> Maps(s, p, frame);
  }

  lemma ClaimValid(s: State, a: Addr)
    requires Valid(s) && a in s.ptes && Sharers(s, s.ptes[a].ppn) == {a.pid}
    ensures Valid(Claim(s, a))
  {
    ClaimSets(s, a);
    ClaimOwner(s, a);
    ClaimFrames(s, a);
  }

  lemma SeparateValid(s: State, a: Addr, frame: Ppn)
    requires Separable(s, a, frame)
    ensures Valid(Separate(s, a, frame))
  {
    SeparateSets(s, a, frame);
    SeparateOwner(s, a, frame);
    SeparateDangles(s, a, frame);
    SeparateLeaks(s, a, frame);
  }

  /** handleCOWPageFault by the size of the set: 1, 2, or more.  `frame` is what allocPPN returns. */
  ghost function Fault(s: State, a: Addr, frame: Ppn): State
    requires Valid(s) && a in s.ptes && !s.ptes[a].writeable
  {
    var others := Sharers(s, s.ptes[a].ppn) - {a.pid};
    if others == {} then Claim(s, a)
    else if |others| == 1 then
      var other :| other in others;
      SharerMapsHere(s, a, other);
      Claim(Separate(s, a, frame), Addr(other, a.vpn))
    else Separate(s, a, frame)
  }

  // ---------------------------------------------------------------------
  // What the processes see
  // ---------------------------------------------------------------------

  /** Every process with memory of its own. */
  datatype Spaces = Spaces(procs: set<Pid>, pages: map<Addr, Page>)

  function View(s: State): Spaces
    requires NothingDangles(s)
  {
    Spaces(s.procs, map a | a in s.ptes :: s.mem[s.ptes[a].ppn])
  }

  lemma ClaimView(s: State, a: Addr)
    requires NothingDangles(s) && a in s.ptes
    ensures NothingDangles(Claim(s, a)) && View(Claim(s, a)) == View(s)
  {
  }

  lemma SeparateView(s: State, a: Addr, frame: Ppn)
    requires NothingDangles(s) && a in s.ptes && frame !in s.mem
    ensures NothingDangles(Separate(s, a, frame)) && View(Separate(s, a, frame)) == View(s)
  {
  }

  /** With two in the set, the one that stays is alone afterwards, and is made the owner. */
  lemma OtherStays(s: State, a: Addr, frame: Ppn, other: Pid)
    requires Separable(s, a, frame) && Sharers(s, s.ptes[a].ppn) - {a.pid} == {other}
    ensures var z, b := Separate(s, a, frame), Addr(other, a.vpn);
            b in z.ptes && b != a && Valid(Claim(z, b)) && View(Claim(z, b)) == View(s)
  {
    SharerMapsHere(s, a, other);
    var z, b := Separate(s, a, frame), Addr(other, a.vpn);
    assert Sharers(z, z.ptes[b].ppn) == {other};
    hide SetsExact, OneOwner, NothingLeaks, Sharers;
    SeparateValid(s, a, frame);
    SeparateView(s, a, frame);
    ClaimValid(z, b);
    ClaimView(z, b);
  }

  /** A fault changes nothing anybody sees, and leaves the page writeable. */
  lemma FaultIsInvisible(s: State, a: Addr, frame: Ppn)
    requires Valid(s) && a in s.ptes && !s.ptes[a].writeable && frame !in s.mem
    ensures var z := Fault(s, a, frame);
            Valid(z) && View(z) == View(s) && a in z.ptes && z.ptes[a].writeable
  {
    hide SetsExact, OneOwner, NothingLeaks, NothingDangles, Sharers, View;
    SharesItsFrame(s, a);
    var sharers := Sharers(s, s.ptes[a].ppn);
    var others := sharers - {a.pid};
    if others == {} {
      assert sharers == {a.pid};
      ClaimValid(s, a);
      ClaimView(s, a);
    } else if |others| == 1 {
      var other :| other in others;
      assert others == {other} by {
        assert |others - {other}| == 0;
      }
      OtherStays(s, a, frame, other);
    } else {
      SeparateValid(s, a, frame);
      SeparateView(s, a, frame);
    }
  }

  /** What a fault does to entries, sets and frames, by how many others share the frame.  Alone: the
      process owns the frame.  One other: it gets a copy, and the other one owns the frame.  More: it
      gets a copy, and the others go on sharing.  Nothing else changes. */
  lemma FaultTables(s: State, a: Addr, frame: Ppn)
    requires Valid(s) && a in s.ptes && !s.ptes[a].writeable && frame !in s.mem
    ensures var n := s.ptes[a].ppn;
            var others := Sharers(s, n) - {a.pid};
            var z := Fault(s, a, frame);
            && z.procs == s.procs && z.ptes.Keys == s.ptes.Keys
            && a in z.ptes && z.ptes[a] == Pte(if others == {} then n else frame, true)
            && Sharers(z, n) == (if |others| == 1 then {} else others)
            && (forall m :: m != n ==> Sharers(z, m) == Sharers(s, m))
            && (forall b :: b in s.ptes && b != a ==>
                  z.ptes[b] == if s.ptes[b].ppn == n && |others| == 1 then Pte(n, true) else s.ptes[b])
            && z.mem.Keys == (if others == {} then s.mem.Keys else s.mem.Keys + {frame})
  {
    hide Valid, Sharers, Claim, Separate, Fault;
    SharesItsFrame(s, a);
    var sharers := Sharers(s, s.ptes[a].ppn);
    var others := sharers - {a.pid};
    if others == {} {
      assert sharers == {a.pid};
      AloneTables(s, a, frame);
    } else if |others| == 1 {
      var other :| other in others;
      assert others == {other} by {
        assert |others - {other}| == 0;
      }
      PairTables(s, a, frame, other);
    } else {
      ManyTables(s, a, frame);
    }
  }

  lemma AloneTables(s: State, a: Addr, frame: Ppn)
    requires Valid(s) && a in s.ptes && !s.ptes[a].writeable && Sharers(s, s.ptes[a].ppn) - {a.pid} == {}
    ensures var n := s.ptes[a].ppn;
            var z := Fault(s, a, frame);
            && z.procs == s.procs && z.mem == s.mem && z.ptes == s.ptes[a := Pte(n, true)] && Sharers(z, n) == {}
            && forall m :: m != n ==> Sharers(z, m) == Sharers(s, m)
  {
    hide SetsExact, OneOwner, NothingLeaks;
  }

  lemma ManyTables(s: State, a: Addr, frame: Ppn)
    requires Valid(s) && a in s.ptes && !s.ptes[a].writeable && |Sharers(s, s.ptes[a].ppn) - {a.pid}| > 1
    ensures var n := s.ptes[a].ppn;
            var z := Fault(s, a, frame);
            && z.procs == s.procs && z.mem.Keys == s.mem.Keys + {frame} && z.ptes == s.ptes[a := Pte(frame, true)]
            && Sharers(z, n) == Sharers(s, n) - {a.pid}
            && forall m :: m != n ==> Sharers(z, m) == Sharers(s, m)
  {
    hide SetsExact, OneOwner, NothingLeaks;
  }

  lemma PairTables(s: State, a: Addr, frame: Ppn, other: Pid)
    requires Valid(s) && a in s.ptes && !s.ptes[a].writeable && frame !in s.mem
    requires Sharers(s, s.ptes[a].ppn) - {a.pid} == {other}
    ensures var n := s.ptes[a].ppn;
            var z := Fault(s, a, frame);
            && z.procs == s.procs && z.ptes.Keys == s.ptes.Keys && z.mem.Keys == s.mem.Keys + {frame}
            && z.ptes[a] == Pte(frame, true) && Sharers(z, n) == {}
            && (forall m :: m != n ==> Sharers(z, m) == Sharers(s, m))
            && (forall b :: b in s.ptes && b != a ==> z.ptes[b] == if s.ptes[b].ppn == n then Pte(n, true) else s.ptes[b])
  {
    hide Valid, Sharers, Claim, Separate, Fault;
    SharesItsFrame(s, a);
    TwoOf(Sharers(s, s.ptes[a].ppn), a.pid, other);
    SharersInCow(s, s.ptes[a].ppn);
    FaultOfTwo(s, a, frame, other);
    OnlySharers(s, a);
    SharerMapsHere(s, a, other);
    PairTablesOf(s, a, frame, other);
    forall b | b in s.ptes && b != a && s.ptes[b].ppn == s.ptes[a].ppn ensures b == Addr(other, a.vpn) {
      assert b.pid in Sharers(s, s.ptes[a].ppn);
    }
  }

  lemma SharersInCow(s: State, n: Ppn)
    requires n in s.cow
    ensures Sharers(s, n) == s.cow[n]
  {
  }

  lemma TwoOf<T>(all: set<T>, x: T, y: T)
    requires x in all && all - {x} == {y}
    ensures y != x && |all| == 2 && forall z :: z in all <==> z == x || z == y
  {
    assert y in all - {x};
    assert forall z :: z in all ==> z == x || z in all - {x};
    assert all == {x, y};
  }

  lemma PairTablesOf(s: State, a: Addr, frame: Ppn, other: Pid)
    requires a in s.ptes && s.ptes[a].ppn in s.mem && Sharers(s, s.ptes[a].ppn) - {a.pid} == {other} && other != a.pid
    requires Addr(other, a.vpn) in s.ptes && s.ptes[Addr(other, a.vpn)].ppn == s.ptes[a].ppn
    ensures var n, b := s.ptes[a].ppn, Addr(other, a.vpn);
            && b in Separate(s, a, frame).ptes
            && var z := Claim(Separate(s, a, frame), b);
               && z.procs == s.procs && z.ptes == s.ptes[a := Pte(frame, true)][b := Pte(n, true)]
               && z.mem.Keys == s.mem.Keys + {frame} && Sharers(z, n) == {}
               && forall m :: m != n ==> Sharers(z, m) == Sharers(s, m)
  {
  }

  /** Whoever has an entry for the frame is a sharer, at this page. */
  lemma OnlySharers(s: State, a: Addr)
    requires Valid(s) && a in s.ptes && !s.ptes[a].writeable
    ensures forall b :: b in s.ptes && s.ptes[b].ppn == s.ptes[a].ppn ==> b.vpn == a.vpn && b.pid in Sharers(s, s.ptes[a].ppn)
  {
    hide NothingLeaks, NothingDangles;
  }

  // ---------------------------------------------------------------------
  // Fork
  // ---------------------------------------------------------------------

  /** One page of the walk in copyPagesToNewArchMemCOW: both sides read-only, both in the set. */
  function ShareOne(s: State, a: Addr, child: Pid): State
    requires a in s.ptes
  {
    var n := s.ptes[a].ppn;
    s.(ptes := s.ptes[a := Pte(n, false)][Addr(child, a.vpn) := Pte(n, false)],
       cow := s.cow[n := Sharers(s, n) + {a.pid, child}])
  }

  ghost predicate Shareable(s: State, a: Addr, child: Pid) {
    a in s.ptes && child in s.procs && child != a.pid && Addr(child, a.vpn) !in s.ptes
  }

  lemma ShareOneSets(s: State, a: Addr, child: Pid)
    requires OneOwner(s) && SetsExact(s) && Shareable(s, a, child)
    ensures SetsExact(ShareOne(s, a, child))
  {
    var n, z := s.ptes[a].ppn, ShareOne(s, a, child);
    forall m, p | p in Sharers(z, m) ensures Maps(z, p, m) {
      if m == n && p in {a.pid, child} {
        assert z.ptes[Addr(p, a.vpn)].ppn == n;
      } else {
        assert p in Sharers(s, m);
        var v :| Addr(p, v) in s.ptes && s.ptes[Addr(p, v)].ppn == m;
        assert z.ptes[Addr(p, v)].ppn == m;
      }
    }
    forall b | b in z.ptes ensures b.pid in Sharers(z, z.ptes[b].ppn) <==> !z.ptes[b].writeable {
      if b != a && b != Addr(child, a.vpn) {
        assert s.ptes[b].ppn == n ==> b.vpn == a.vpn;
      }
    }
  }

  lemma ShareOneOwner(s: State, a: Addr, child: Pid)
    requires OneOwner(s) && Shareable(s, a, child)
    ensures OneOwner(ShareOne(s, a, child))
  {
    hide Sharers;
  }

  lemma ShareOneMaps(s: State, a: Addr, child: Pid, p: Pid, n: Ppn)
    requires Shareable(s, a, child) && Maps(s, p, n)
    ensures Maps(ShareOne(s, a, child), p, n)
  {
    hide Sharers;
    var v :| Addr(p, v) in s.ptes && s.ptes[Addr(p, v)].ppn == n;
    assert ShareOne(s, a, child).ptes[Addr(p, v)].ppn == n;
  }

  lemma ShareOneLeaks(s: State, a: Addr, child: Pid)
    requires NothingLeaks(s) && Shareable(s, a, child)
    ensures NothingLeaks(ShareOne(s, a, child))
  {
    hide Sharers, Maps;
    var z := ShareOne(s, a, child);
    forall n | n in z.mem ensures exists p :: Maps(z, p, n) {
      var p :| Maps(s, p, n);
      ShareOneMaps(s, a, child, p, n);
    }
  }

  lemma ShareOneDangles(s: State, a: Addr, child: Pid)
    requires NothingDangles(s) && Shareable(s, a, child)
    ensures NothingDangles(ShareOne(s, a, child))
  {
    hide Sharers;
  }

  function PagesOf(s: State, p: Pid): set<Vpn> {
    set a | a in s.ptes && a.pid == p :: a.vpn
  }

  ghost function FramesAt(s: State, p: Pid, vpns: set<Vpn>): set<Ppn>
    requires forall v :: v in vpns ==> Addr(p, v) in s.ptes
  {
    set v | v in vpns :: s.ptes[Addr(p, v)].ppn
  }

  /** The page tables when the walk has shared the pages `done` of the parent. */
  ghost function ForkedPtes(s: State, parent: Pid, child: Pid, done: set<Vpn>): map<Addr, Pte>
    requires forall v :: v in done ==> Addr(parent, v) in s.ptes
  {
    map a | a in s.ptes.Keys + (set v | v in done :: Addr(child, v)) ::
      if (a.pid == parent || a.pid == child) && a.vpn in done then Pte(s.ptes[Addr(parent, a.vpn)].ppn, false) else s.ptes[a]
  }

  ghost function ForkedCow(s: State, parent: Pid, child: Pid, frames: set<Ppn>): map<Ppn, set<Pid>> {
    map n | n in s.cow.Keys + frames :: if n in frames then Sharers(s, n) + {parent, child} else s.cow[n]
  }

  ghost function Forked(s: State, parent: Pid, child: Pid, done: set<Vpn>): State
    requires forall v :: v in done ==> Addr(parent, v) in s.ptes
  {
    State(s.procs + {child}, ForkedCow(s, parent, child, FramesAt(s, parent, done)), ForkedPtes(s, parent, child, done), s.mem)
  }

  ghost predicate MayFork(s: State, parent: Pid, child: Pid, done: set<Vpn>) {
    Valid(s) && parent in s.procs && child !in s.procs && forall v :: v in done ==> Addr(parent, v) in s.ptes
  }

  lemma ForkedPtesGrow(s: State, parent: Pid, child: Pid, done: set<Vpn>, v: Vpn)
    requires MayFork(s, parent, child, done) && Addr(parent, v) in s.ptes && v !in done
    ensures var e := Pte(s.ptes[Addr(parent, v)].ppn, false);
            ForkedPtes(s, parent, child, done + {v}) == ForkedPtes(s, parent, child, done)[Addr(parent, v) := e][Addr(child, v) := e]
  {
    hide SetsExact, OneOwner, NothingLeaks;
  }

  lemma ForkedCowGrows(s: State, parent: Pid, child: Pid, frames: set<Ppn>, n: Ppn)
    ensures var cow := ForkedCow(s, parent, child, frames);
            ForkedCow(s, parent, child, frames + {n}) ==
            cow[n := (if n in cow then cow[n] else {}) + {parent, child}]
  {
  }

  lemma FramesGrow(s: State, p: Pid, done: set<Vpn>, v: Vpn)
    requires (forall w :: w in done ==> Addr(p, w) in s.ptes) && Addr(p, v) in s.ptes
    ensures FramesAt(s, p, done + {v}) == FramesAt(s, p, done) + {s.ptes[Addr(p, v)].ppn}
  {
    var n := s.ptes[Addr(p, v)].ppn;
    assert v in done + {v} && s.ptes[Addr(p, v)].ppn == n;
  }

  lemma NotForkedYet(s: State, parent: Pid, child: Pid, done: set<Vpn>, v: Vpn)
    requires MayFork(s, parent, child, done) && Addr(parent, v) in s.ptes && v !in done
    ensures var ptes := ForkedPtes(s, parent, child, done);
            Addr(child, v) !in ptes && Addr(parent, v) in ptes && ptes[Addr(parent, v)] == s.ptes[Addr(parent, v)]
  {
    hide SetsExact, OneOwner, NothingLeaks;
  }

  lemma ForkedGrows(s: State, parent: Pid, child: Pid, done: set<Vpn>, v: Vpn)
    requires MayFork(s, parent, child, done) && Addr(parent, v) in s.ptes && v !in done
    ensures Shareable(Forked(s, parent, child, done), Addr(parent, v), child)
    ensures Forked(s, parent, child, done + {v}) == ShareOne(Forked(s, parent, child, done), Addr(parent, v), child)
  {
    hide ForkedPtes, ForkedCow, FramesAt, Valid;
    FramesGrow(s, parent, done, v);
    NotForkedYet(s, parent, child, done, v);
    ForkedPtesGrow(s, parent, child, done, v);
    ForkedCowGrows(s, parent, child, FramesAt(s, parent, done), s.ptes[Addr(parent, v)].ppn);
  }

  lemma ShareOneValid(s: State, a: Addr, child: Pid)
    requires Valid(s) && Shareable(s, a, child)
    ensures Valid(ShareOne(s, a, child))
  {
    ShareOneSets(s, a, child);
    ShareOneOwner(s, a, child);
    ShareOneDangles(s, a, child);
    ShareOneLeaks(s, a, child);
  }

  lemma {:induction false} ForkedValid(s: State, parent: Pid, child: Pid, done: set<Vpn>)
    requires MayFork(s, parent, child, done)
    ensures Valid(Forked(s, parent, child, done))
    decreases |done|
  {
    hide Valid, Forked;
    if done == {} {
      NothingForked(s, parent, child);
    } else {
      var v :| v in done;
      assert done == (done - {v}) + {v};
      ForkedValid(s, parent, child, done - {v});
      ForkedGrows(s, parent, child, done - {v}, v);
      ShareOneValid(Forked(s, parent, child, done - {v}), Addr(parent, v), child);
    }
  }

  /** The invariant is about tables and sets, not about contents. */
  ghost predicate SameTables(s: State, z: State) {
    && z.ptes == s.ptes && z.cow == s.cow && s.procs <= z.procs
    && z.mem.Keys == s.mem.Keys && forall n :: n in z.mem ==> |z.mem[n]| == PAGE_SIZE
  }

  lemma SameLeaks(s: State, z: State)
    requires NothingLeaks(s) && SameTables(s, z)
    ensures NothingLeaks(z)
  {
    assert forall n :: n in z.mem ==> n in s.mem;
    assert forall p, n :: Maps(z, p, n) <==> Maps(s, p, n);
    hide Maps, SameTables;
  }

  lemma SameSets(s: State, z: State)
    requires SetsExact(s) && SameTables(s, z)
    ensures SetsExact(z)
  {
    assert forall p, n :: Maps(z, p, n) <==> Maps(s, p, n);
    assert forall n :: Sharers(z, n) == Sharers(s, n);
    hide Maps, Sharers;
  }

  lemma SameDangles(s: State, z: State)
    requires NothingDangles(s) && OneOwner(s) && SameTables(s, z)
    ensures NothingDangles(z) && OneOwner(z)
  {
    assert forall n :: n in s.mem ==> n in z.mem;
  }

  lemma SameValid(s: State, z: State)
    requires Valid(s) && SameTables(s, z)
    ensures Valid(z)
  {
    hide NothingDangles, NothingLeaks, SetsExact, SameTables;
    SameDangles(s, z);
    SameLeaks(s, z);
    SameSets(s, z);
  }

  lemma NoneForked(s: State, parent: Pid, child: Pid)
    ensures ForkedCow(s, parent, child, FramesAt(s, parent, {})) == s.cow && ForkedPtes(s, parent, child, {}) == s.ptes
  {
    assert FramesAt(s, parent, {}) == {};
  }

  lemma NothingForked(s: State, parent: Pid, child: Pid)
    requires Valid(s)
    ensures Valid(Forked(s, parent, child, {}))
  {
    hide ForkedCow, ForkedPtes, FramesAt, SetsExact, OneOwner, NothingLeaks;
    NoneForked(s, parent, child);
    SameValid(s, Forked(s, parent, child, {}));
  }

  /** Fork shares every page of the parent. */
  ghost function Fork(s: State, parent: Pid, child: Pid): State {
    Forked(s, parent, child, PagesOf(s, parent))
  }

  /** What fork promises: the child starts with copies of all pages of the parent. */
  function EagerFork(e: Spaces, parent: Pid, child: Pid): Spaces {
    var copies := set a | a in e.pages && a.pid == parent :: Addr(child, a.vpn);
    Spaces(e.procs + {child},
           map a | a in e.pages.Keys + copies :: if a in copies then e.pages[Addr(parent, a.vpn)] else e.pages[a])
  }

  lemma PagesOfIs(s: State, p: Pid)
    ensures forall v :: v in PagesOf(s, p) <==> Addr(p, v) in s.ptes
  {
    forall v | Addr(p, v) in s.ptes ensures v in PagesOf(s, p) {
      var a := Addr(p, v);
      assert a in s.ptes && a.pid == p && a.vpn == v;
    }
  }

  /** The entries after a fork: those there were, and the pages of the parent under the child. */
  lemma ForkedEntry(s: State, parent: Pid, child: Pid, a: Addr)
    requires MayFork(s, parent, child, PagesOf(s, parent))
    ensures var f := ForkedPtes(s, parent, child, PagesOf(s, parent));
            && (a.pid == child ==> a !in s.ptes && (a in f <==> Addr(parent, a.vpn) in s.ptes))
            && (a.pid == child && a in f ==> f[a].ppn == s.ptes[Addr(parent, a.vpn)].ppn)
            && (a.pid != child ==> (a in f <==> a in s.ptes) && (a in f ==> f[a].ppn == s.ptes[a].ppn))
  {
    hide SetsExact, OneOwner, NothingLeaks, PagesOf;
    PagesOfIs(s, parent);
  }

  lemma ForkView(s: State, parent: Pid, child: Pid)
    requires MayFork(s, parent, child, PagesOf(s, parent)) && NothingDangles(Fork(s, parent, child))
    ensures View(Fork(s, parent, child)) == EagerFork(View(s), parent, child)
  {
    hide SetsExact, OneOwner, NothingLeaks, NothingDangles, ForkedCow, ForkedPtes, FramesAt, PagesOf;
    var y, e := View(Fork(s, parent, child)).pages, EagerFork(View(s), parent, child).pages;
    forall a ensures a in y <==> a in e
      ensures a in y && a in e ==> y[a] == e[a] {
      ForkedEntry(s, parent, child, a);
      assert a.pid == child ==> a == Addr(child, a.vpn);
    }
  }

  lemma ForkIsCopy(s: State, parent: Pid, child: Pid)
    requires Valid(s) && parent in s.procs && child !in s.procs
    ensures Valid(Fork(s, parent, child))
    ensures View(Fork(s, parent, child)) == EagerFork(View(s), parent, child)
  {
    ForkedValid(s, parent, child, PagesOf(s, parent));
    ForkView(s, parent, child);
  }

  /** Fork copies no frame: parent and child map the same ones, read-only, and both are in their sets. */
  lemma ForkShares(s: State, parent: Pid, child: Pid, v: Vpn)
    requires Valid(s) && parent in s.procs && child !in s.procs
    ensures var z := Fork(s, parent, child);
            && z.mem == s.mem && z.procs == s.procs + {child}
            && (Addr(child, v) in z.ptes <==> Addr(parent, v) in s.ptes)
            && (Addr(parent, v) in s.ptes ==>
                  var e := Pte(s.ptes[Addr(parent, v)].ppn, false);
                  && Addr(parent, v) in z.ptes && z.ptes[Addr(parent, v)] == e && z.ptes[Addr(child, v)] == e
                  && Sharers(z, e.ppn) == Sharers(s, e.ppn) + {parent, child})
  {
    hide SetsExact, OneOwner, NothingLeaks, PagesOf, ForkedCow;
    PagesOfIs(s, parent);
    var frames := FramesAt(s, parent, PagesOf(s, parent));
    if Addr(parent, v) in s.ptes {
      assert v in PagesOf(s, parent);
      ForkedSharers(s, parent, child, frames, s.ptes[Addr(parent, v)].ppn);
    }
  }

  lemma ForkedSharers(s: State, parent: Pid, child: Pid, frames: set<Ppn>, n: Ppn)
    requires n in frames
    ensures n in ForkedCow(s, parent, child, frames) && ForkedCow(s, parent, child, frames)[n] == Sharers(s, n) + {parent, child}
  {
  }

  // ---------------------------------------------------------------------
  // Exit
  // ---------------------------------------------------------------------

  /** The sets without a process, as eraseProcessFromCOWMap leaves them. */
  function Erased(cow: map<Ppn, set<Pid>>, p: Pid): map<Ppn, set<Pid>> {
    map n | n in cow :: cow[n] - {p}
  }

  /** freePPN frees the frame of a page of process p unless its set is not empty. */
  predicate Freed(s: State, p: Pid, n: Ppn) {
    n in FramesOf(s, p) && Sharers(s, n) - {p} == {}
  }

  function FramesOf(s: State, p: Pid): set<Ppn> {
    set a | a in s.ptes && a.pid == p :: s.ptes[a].ppn
  }

  /** The destructor of a process: out of all sets, then every page unmapped and its frame freed. */
  function Exit(s: State, p: Pid): State {
    State(s.procs - {p}, Erased(s.cow, p), map a | a in s.ptes && a.pid != p :: s.ptes[a],
          map n | n in s.mem && !Freed(s, p, n) :: s.mem[n])
  }

  function EagerExit(e: Spaces, p: Pid): Spaces {
    Spaces(e.procs - {p}, map a | a in e.pages && a.pid != p :: e.pages[a])
  }

  lemma ExitSets(s: State, p: Pid)
    requires OneOwner(s) && SetsExact(s)
    ensures SetsExact(Exit(s, p)) && OneOwner(Exit(s, p))
  {
    var z := Exit(s, p);
    assert forall n :: Sharers(z, n) == Sharers(s, n) - {p};
    forall n, q | q in Sharers(z, n) ensures Maps(z, q, n) {
      assert q in Sharers(s, n);
      var v :| Addr(q, v) in s.ptes && s.ptes[Addr(q, v)].ppn == n;
      assert z.ptes[Addr(q, v)].ppn == n;
    }
  }

  lemma ExitDangles(s: State, p: Pid)
    requires NothingDangles(s) && OneOwner(s) && SetsExact(s)
    ensures NothingDangles(Exit(s, p))
  {
    var z := Exit(s, p);
    forall a | a in z.ptes ensures z.ptes[a].ppn in z.mem {
      if s.ptes[a].ppn in FramesOf(s, p) {
        assert a.pid in Sharers(s, s.ptes[a].ppn) - {p};
      }
    }
  }

  lemma ExitLeaks(s: State, p: Pid)
    requires Valid(s)
    ensures NothingLeaks(Exit(s, p))
  {
    var z := Exit(s, p);
    forall n | n in z.mem ensures exists q :: Maps(z, q, n) {
      var q :| Maps(s, q, n);
      if q == p {
        q := OtherSharer(s, p, n);
      }
      hide Valid, Freed;
      var v :| Addr(q, v) in s.ptes && s.ptes[Addr(q, v)].ppn == n;
      assert z.ptes[Addr(q, v)].ppn == n;
      assert Maps(z, q, n);
    }
  }

  /** A frame that process p maps and that is not freed has somebody else in its set. */
  lemma OtherSharer(s: State, p: Pid, n: Ppn) returns (q: Pid)
    requires SetsExact(s) && Maps(s, p, n) && !Freed(s, p, n)
    ensures q != p && Maps(s, q, n)
  {
    var v :| Addr(p, v) in s.ptes && s.ptes[Addr(p, v)].ppn == n;
    assert n in FramesOf(s, p) by {
      assert s.ptes[Addr(p, v)].ppn == n;
    }
    q :| q in Sharers(s, n) - {p};
  }

  lemma ExitView(s: State, p: Pid)
    requires NothingDangles(s) && NothingDangles(Exit(s, p))
    ensures View(Exit(s, p)) == EagerExit(View(s), p)
  {
    hide Freed;
  }

  lemma ExitIsRemoval(s: State, p: Pid)
    requires Valid(s)
    ensures Valid(Exit(s, p)) && View(Exit(s, p)) == EagerExit(View(s), p)
  {
    hide SetsExact, OneOwner, NothingLeaks, NothingDangles;
    ExitSets(s, p);
    ExitDangles(s, p);
    ExitLeaks(s, p);
    ExitView(s, p);
    hide View, EagerExit, Exit;
  }

  // ---------------------------------------------------------------------
  // New pages and writes
  // ---------------------------------------------------------------------

  /** A page that was not mapped gets a frame of its own, as loadPage and stack growth do. */
  function MapNew(s: State, a: Addr, content: Page, frame: Ppn): State {
    s.(ptes := s.ptes[a := Pte(frame, true)], mem := s.mem[frame := content])
  }

  lemma MapNewMaps(s: State, a: Addr, content: Page, frame: Ppn)
    requires a !in s.ptes
    ensures var z := MapNew(s, a, content, frame);
            && (forall p, n :: Maps(s, p, n) ==> Maps(z, p, n)) && Maps(z, a.pid, frame)
            && (forall n :: Sharers(z, n) == Sharers(s, n))
  {
    var z := MapNew(s, a, content, frame);
    forall p, n | Maps(s, p, n) ensures Maps(z, p, n) {
      var v :| Addr(p, v) in s.ptes && s.ptes[Addr(p, v)].ppn == n;
      assert z.ptes[Addr(p, v)].ppn == n;
    }
    assert z.ptes[Addr(a.pid, a.vpn)].ppn == frame;
  }

  lemma MapNewSets(s: State, a: Addr, content: Page, frame: Ppn)
    requires Valid(s) && a !in s.ptes && frame !in s.mem
    ensures SetsExact(MapNew(s, a, content, frame))
  {
    NobodyMaps(s, frame);
    MapNewMaps(s, a, content, frame);
    hide Maps, Sharers, OneOwner, NothingLeaks;
  }

  lemma MapNewLeaks(s: State, a: Addr, content: Page, frame: Ppn)
    requires NothingLeaks(s) && a !in s.ptes
    ensures NothingLeaks(MapNew(s, a, content, frame))
  {
    MapNewMaps(s, a, content, frame);
    hide Maps, Sharers;
  }

  lemma MapNewOwner(s: State, a: Addr, content: Page, frame: Ppn)
    requires NothingDangles(s) && OneOwner(s) && a !in s.ptes && frame !in s.mem
    ensures OneOwner(MapNew(s, a, content, frame))
  {
  }

  lemma MapNewDangles(s: State, a: Addr, content: Page, frame: Ppn)
    requires NothingDangles(s) && a.pid in s.procs && |content| == PAGE_SIZE
    ensures NothingDangles(MapNew(s, a, content, frame))
  {
  }

  lemma MapNewValid(s: State, a: Addr, content: Page, frame: Ppn)
    requires Valid(s) && a.pid in s.procs && a !in s.ptes && frame !in s.mem && |content| == PAGE_SIZE
    ensures Valid(MapNew(s, a, content, frame))
  {
    hide SetsExact, NothingLeaks, NothingDangles, OneOwner, MapNew;
    MapNewDangles(s, a, content, frame);
    MapNewOwner(s, a, content, frame);
    MapNewSets(s, a, content, frame);
    MapNewLeaks(s, a, content, frame);
  }

  lemma MapNewView(s: State, a: Addr, content: Page, frame: Ppn)
    requires NothingDangles(s) && NothingDangles(MapNew(s, a, content, frame)) && a !in s.ptes && frame !in s.mem
    ensures View(MapNew(s, a, content, frame)) == View(s).(pages := View(s).pages[a := content])
  {
  }

  /** The store itself, to a page that is writeable. */
  function Store(s: State, a: Addr, offset: nat, b: Byte): State
    requires a in s.ptes && s.ptes[a].ppn in s.mem && offset < |s.mem[s.ptes[a].ppn]|
  {
    var n := s.ptes[a].ppn;
    s.(mem := s.mem[n := s.mem[n][offset := b]])
  }

  lemma StoreView(s: State, a: Addr, offset: nat, b: Byte)
    requires NothingDangles(s) && OneOwner(s) && a in s.ptes && s.ptes[a].writeable && offset < PAGE_SIZE
    ensures View(Store(s, a, offset, b)) == View(s).(pages := View(s).pages[a := View(s).pages[a][offset := b]])
  {
    assert forall c :: c in s.ptes && c != a ==> s.ptes[c].ppn != s.ptes[a].ppn;
    hide OneOwner;
  }

  lemma StoreIsOwn(s: State, a: Addr, offset: nat, b: Byte)
    requires Valid(s) && a in s.ptes && s.ptes[a].writeable && offset < PAGE_SIZE
    ensures s.ptes[a].ppn in s.mem && |s.mem[s.ptes[a].ppn]| == PAGE_SIZE
    ensures Valid(Store(s, a, offset, b))
    ensures a in View(s).pages && |View(s).pages[a]| == PAGE_SIZE
    ensures View(Store(s, a, offset, b)) == View(s).(pages := View(s).pages[a := View(s).pages[a][offset := b]])
  {
    hide SetsExact, NothingLeaks, OneOwner;
    SameValid(s, Store(s, a, offset, b));
    StoreView(s, a, offset, b);
    hide View;
  }

  // ---------------------------------------------------------------------
  // Runs
  // ---------------------------------------------------------------------

  /** What processes and the kernel do; `frame` is the one allocPPN returns if it is called. */
  datatype Op =
    | DoFork(parent: Pid, child: Pid)
    | DoWrite(addr: Addr, offset: nat, value: Byte, frame: Ppn)
    | DoMap(addr: Addr, content: Page, frame: Ppn)
    | DoExit(pid: Pid)

  /** A new process id, a mapped or unmapped page as the operation wants, and a free frame. */
  predicate Possible(s: State, op: Op) {
    match op
    case DoFork(p, q) => p in s.procs && q !in s.procs
    case DoWrite(a, o, _, frame) => a in s.ptes && o < PAGE_SIZE && frame !in s.mem
    case DoMap(a, content, frame) => a.pid in s.procs && a !in s.ptes && frame !in s.mem && |content| == PAGE_SIZE
    case DoExit(p) => p in s.procs
  }

  ghost function Step(s: State, op: Op): State
    requires Valid(s) && Possible(s, op)
  {
    match op
    case DoFork(p, q) => Fork(s, p, q)
    case DoWrite(a, o, b, frame) =>
      if s.ptes[a].writeable then Store(s, a, o, b)
      else
        FaultIsInvisible(s, a, frame);
        Store(Fault(s, a, frame), a, o, b)
    case DoMap(a, content, frame) => MapNew(s, a, content, frame)
    case DoExit(p) => Exit(s, p)
  }

  /** The same with memory that is copied at fork and never shared. */
  function EagerStep(e: Spaces, op: Op): Spaces {
    match op
    case DoFork(p, q) => EagerFork(e, p, q)
    case DoWrite(a, o, b, _) =>
      if a in e.pages && o < |e.pages[a]| then e.(pages := e.pages[a := e.pages[a][o := b]]) else e
    case DoMap(a, content, _) => e.(pages := e.pages[a := content])
    case DoExit(p) => EagerExit(e, p)
  }

  lemma StepRefines(s: State, op: Op)
    requires Valid(s) && Possible(s, op)
    ensures Valid(Step(s, op)) && View(Step(s, op)) == EagerStep(View(s), op)
  {
    hide Fork, Exit, SetsExact, OneOwner, NothingLeaks, Fault, EagerFork, EagerExit;
    match op
    case DoFork(p, q) => ForkIsCopy(s, p, q);
    case DoWrite(a, o, b, frame) =>
      if s.ptes[a].writeable {
        StoreIsOwn(s, a, o, b);
      } else {
        FaultIsInvisible(s, a, frame);
        StoreIsOwn(Fault(s, a, frame), a, o, b);
      }
    case DoMap(a, content, frame) =>
      MapNewValid(s, a, content, frame);
      MapNewView(s, a, content, frame);
    case DoExit(p) => ExitIsRemoval(s, p);
  }

  ghost predicate Runs(s: State, ops: seq<Op>, z: State)
    requires Valid(s)
    decreases |ops|
  {
    if ops == [] then s == z
    else Possible(s, ops[0]) && (StepRefines(s, ops[0]); Runs(Step(s, ops[0]), ops[1..], z))
  }

  function EagerRun(e: Spaces, ops: seq<Op>): Spaces
    decreases |ops|
  {
    if ops == [] then e else EagerRun(EagerStep(e, ops[0]), ops[1..])
  }

  /** Over every run of forks, faults, writes, new pages and exits, each process has the memory it
      would have if fork copied every page; frames in use stay exactly the mapped ones. */
  lemma {:induction false} CopyOnWriteRefinesEagerCopy(s: State, ops: seq<Op>, z: State)
    requires Valid(s) && Runs(s, ops, z)
    ensures Valid(z) && View(z) == EagerRun(View(s), ops)
    decreases |ops|
  {
    hide Valid, Step, View, EagerStep;
    if ops != [] {
      StepRefines(s, ops[0]);
      CopyOnWriteRefinesEagerCopy(Step(s, ops[0]), ops[1..], z);
    }
  }

  // ---------------------------------------------------------------------
  // The manager, step by step
  // ---------------------------------------------------------------------

  class COWManager {
    var procs: set<Pid>
    var cow: map<Ppn, set<Pid>>     // cow_map_
    var ptes: map<Addr, Pte>
    var mem: map<Ppn, Page>

    function Now(): State
      reads this
    {
      State(procs, cow, ptes, mem)
    }

    constructor (first: Pid)
      ensures Now() == State({first}, map[], map[], map[]) && Valid(Now())
    {
      procs, cow, ptes, mem := {first}, map[], map[], map[];
    }

    method AddToCOWMap(n: Ppn, pid1: Pid, pid2: Pid)
      modifies `cow
      ensures cow == old(cow)[n := Sharers(old(Now()), n) + {pid1, pid2}]
    {
      if n !in cow {
        cow := cow[n := {}];
      }
      cow := cow[n := cow[n] + {pid1}];
      cow := cow[n := cow[n] + {pid2}];
      assert cow[n] == Sharers(old(Now()), n) + {pid1, pid2};
    }

    method PpnShared(n: Ppn) returns (shared: bool)
      ensures shared <==> Sharers(Now(), n) != {}
    {
      if n !in cow {
        return false;
      }
      if cow[n] == {} {
        return false;
      }
      return true;
    }

    method EraseProcessFromCOWMap(p: Pid)
      modifies `cow
      ensures cow == Erased(old(cow), p)
    {
      var todo := cow.Keys;
      while todo != {}
        invariant todo <= cow.Keys == old(cow).Keys
        invariant forall n :: n in cow ==> cow[n] == if n in todo then old(cow)[n] else old(cow)[n] - {p}
        decreases |todo|
      {
        var n :| n in todo;
        if p in cow[n] {
          cow := cow[n := cow[n] - {p}];
        }
        todo := todo - {n};
      }
    }

    /** The lowest frame not in use. */
    method AllocPPN() returns (n: Ppn)
      ensures n !in mem
    {
      n := 0;
      ghost var left := mem.Keys;
      while n in mem
        invariant forall k :: k in mem && n <= k ==> k in left
        decreases |left|
      {
        left := left - {n};
        n := n + 1;
      }
    }

    method FreePPN(n: Ppn)
      requires n in mem
      modifies `mem
      ensures mem == if Sharers(Now(), n) != {} then old(mem) else old(mem) - {n}
    {
      var shared := PpnShared(n);
      if shared {
        return;
      }
      mem := mem - {n};
    }

    /** Sets the writeable bit and erases the process from the set: case 1, and the process that
        keeps the page in case 2. */
    method KeepPage(a: Addr)
      requires a in ptes && ptes[a].ppn in cow
      modifies `cow, `ptes
      ensures Now() == Claim(old(Now()), a)
    {
      var n := ptes[a].ppn;
      ptes := ptes[a := Pte(n, true)];
      cow := cow[n := cow[n] - {a.pid}];
    }

    /** Maps a copy in a new frame and erases the process from the set: cases 2 and 3. */
    method CopyPage(a: Addr, frame: Ppn)
      requires a in ptes && ptes[a].ppn in cow && ptes[a].ppn in mem
      modifies `cow, `ptes, `mem
      ensures Now() == Separate(old(Now()), a, frame)
    {
      var n := ptes[a].ppn;
      ptes := ptes[a := Pte(frame, true)];
      mem := mem[frame := mem[n]];
      cow := cow[n := cow[n] - {a.pid}];
    }

    /** The page fault on a shared page: afterwards the page is writeable, and no process sees any
        difference. */
    method HandleCOWPageFault(a: Addr) returns (frame: Ppn)
      requires Valid(Now()) && a in ptes && !ptes[a].writeable
      modifies `cow, `ptes, `mem
      ensures Valid(Now()) && View(Now()) == old(View(Now()))
      ensures a in ptes && ptes[a].writeable
      ensures frame !in old(mem) && Now() == Fault(old(Now()), a, frame)
    {
      hide NothingDangles, SetsExact, OneOwner, NothingLeaks, Fault, View, Claim;
      frame := AllocPPN();
      ghost var s := Now();
      FaultIsInvisible(s, a, frame);
      FaultBySize(s, a, frame);
      var n := ptes[a].ppn;
      var size := |cow[n]|;
      if size == 1 {
        KeepPage(a);
      } else {
        CopyPage(a, frame);
        if size == 2 {
          assert |s.cow[n] - {a.pid}| == 1;
          var other :| other in cow[n];
          FaultOfTwo(s, a, frame, other);
          KeepPage(Addr(other, a.vpn));
        }
      }
    }

    method SharePage(a: Addr, child: Pid)
      requires a in ptes
      modifies `cow, `ptes
      ensures Now() == ShareOne(old(Now()), a, child)
    {
      ghost var s := Now();
      var n := ptes[a].ppn;
      ptes := ptes[Addr(child, a.vpn) := Pte(n, false)];
      ptes := ptes[a := Pte(n, false)];
      AddToCOWMap(n, a.pid, child);
    }

    /** The walk of copyPagesToNewArchMemCOW over all pages of the parent. */
    method CopyPagesCOW(parent: Pid, child: Pid)
      requires Valid(Now()) && parent in procs && child !in procs
      modifies this
      ensures Valid(Now()) && View(Now()) == EagerFork(old(View(Now())), parent, child)
      ensures Now() == Fork(old(Now()), parent, child)
    {
      ghost var s := Now();
      ForkIsCopy(s, parent, child);
      WalkStarts(s, parent, child);
      hide Valid, View, EagerFork, PagesOf, Walked, ShareOne, Fork;
      var todo := PagesOf(Now(), parent);
      procs := procs + {child};
      while todo != {}
        invariant todo <= PagesOf(s, parent)
        invariant Now() == Walked(s, parent, child, todo)
        decreases todo
      {
        var v :| v in todo;
        StepInWalk(s, parent, child, todo, v);
        SharePage(Addr(parent, v), child);
        todo := todo - {v};
      }
    }

    method UnmapPage(a: Addr)
      requires a in ptes && ptes[a].ppn in mem
      modifies `ptes, `mem
      ensures Now() == Unmapped(old(Now()), a)
    {
      var n := ptes[a].ppn;
      ptes := ptes - {a};
      FreePPN(n);
    }

    /** The end of a process: out of all sets, then every page unmapped and its frame freed unless
        another process shares it. */
    method ExitProcess(p: Pid)
      requires Valid(Now()) && p in procs
      modifies this
      ensures Valid(Now()) && View(Now()) == EagerExit(old(View(Now())), p)
      ensures Now() == Exit(old(Now()), p)
    {
      ghost var s := Now();
      ExitIsRemoval(s, p);
      ExitStarts(s, p);
      hide Valid, View, EagerExit, PagesOf, Exiting, Exit, Erased, Sharers, Unmapped;
      var todo := PagesOf(Now(), p);
      EraseProcessFromCOWMap(p);
      procs := procs - {p};
      while todo != {}
        invariant todo <= PagesOf(s, p)
        invariant Now() == Exiting(s, p, todo)
        decreases todo
      {
        var v :| v in todo;
        StepInExit(s, p, todo, v);
        UnmapPage(Addr(p, v));
        todo := todo - {v};
      }
    }

    /** A store by process a.pid: it goes to the page, after a page fault if the page is shared. */
    method Write(a: Addr, offset: nat, value: Byte)
      requires Valid(Now()) && a in ptes && offset < PAGE_SIZE
      modifies this
      ensures Valid(Now())
      ensures var old_ := old(View(Now()));
              View(Now()) == old_.(pages := old_.pages[a := old_.pages[a][offset := value]])
    {
      hide View, Fault, NothingDangles, SetsExact, OneOwner, NothingLeaks;
      if !ptes[a].writeable {
        var frame := HandleCOWPageFault(a);
      }
      StoreIsOwn(Now(), a, offset, value);
      var n := ptes[a].ppn;
      mem := mem[n := mem[n][offset := value]];
    }
  }

  /** The state with process p out of all sets and its pages `todo` still mapped. */
  ghost function Exiting(s: State, p: Pid, todo: set<Vpn>): State {
    State(s.procs - {p}, Erased(s.cow, p),
          map a | a in s.ptes && (a.pid == p ==> a.vpn in todo) :: s.ptes[a],
          map n | n in s.mem && Kept(s, p, todo, n) :: s.mem[n])
  }

  ghost predicate FreedAt(s: State, p: Pid, n: Ppn, v: Vpn) {
    Addr(p, v) in s.ptes && s.ptes[Addr(p, v)].ppn == n && Sharers(s, n) - {p} == {}
  }

  lemma ExitStarts(s: State, p: Pid)
    ensures Exiting(s, p, PagesOf(s, p)) == State(s.procs - {p}, Erased(s.cow, p), s.ptes, s.mem)
    ensures Exiting(s, p, {}) == Exit(s, p)
  {
    assert forall v :: v in PagesOf(s, p) <==> Addr(p, v) in s.ptes;
    assert forall n :: Freed(s, p, n) <==> exists v :: FreedAt(s, p, n, v) by {
      forall n ensures Freed(s, p, n) <==> exists v :: FreedAt(s, p, n, v) {
        if Freed(s, p, n) {
          var a :| a in s.ptes && a.pid == p && s.ptes[a].ppn == n;
          assert FreedAt(s, p, n, a.vpn);
        }
      }
    }
    hide Erased, FreedAt, Freed;
  }

  /** One page of the walk in the destructor of an address space. */
  function Unmapped(s: State, a: Addr): State
    requires a in s.ptes
  {
    var n := s.ptes[a].ppn;
    s.(ptes := s.ptes - {a}, mem := if Sharers(s, n) != {} then s.mem else s.mem - {n})
  }

  /** The frames left when the pages `todo` are still mapped. */
  ghost predicate Kept(s: State, p: Pid, todo: set<Vpn>, n: Ppn) {
    n in s.mem && !exists v :: FreedAt(s, p, n, v) && v !in todo
  }

  lemma KeptStep(s: State, p: Pid, todo: set<Vpn>, v: Vpn, n: Ppn)
    requires OneOwner(s) && v in todo && Addr(p, v) in s.ptes
    ensures Kept(s, p, todo - {v}, n) <==> Kept(s, p, todo, n) && !FreedAt(s, p, n, v)
  {
    if FreedAt(s, p, n, v) {
      assert v !in todo - {v};
    }
    hide FreedAt;
    if w :| FreedAt(s, p, n, w) && w !in todo - {v} && w != v {
      assert w !in todo;
    }
    if w :| FreedAt(s, p, n, w) && w !in todo {
      assert w !in todo - {v};
    }
  }

  /** The frame of the page is still there, and the walk frees it exactly if its set is empty. */
  lemma FreedInStep(s: State, p: Pid, todo: set<Vpn>, v: Vpn)
    requires Valid(s) && v in todo && Addr(p, v) in s.ptes
    ensures var n := s.ptes[Addr(p, v)].ppn;
            && Kept(s, p, todo, n)
            && forall m :: Kept(s, p, todo - {v}, m) <==> Kept(s, p, todo, m) && !(m == n && Sharers(s, n) - {p} == {})
  {
    var n := s.ptes[Addr(p, v)].ppn;
    forall w | FreedAt(s, p, n, w) ensures w in todo {
      assert w == v;
    }
    forall m ensures Kept(s, p, todo - {v}, m) <==> Kept(s, p, todo, m) && !(m == n && Sharers(s, n) - {p} == {}) {
      KeptStep(s, p, todo, v, m);
    }
  }

  lemma SharersExiting(s: State, p: Pid, todo: set<Vpn>, n: Ppn)
    ensures Sharers(Exiting(s, p, todo), n) == Sharers(s, n) - {p}
  {
  }

  lemma StepInExit(s: State, p: Pid, todo: set<Vpn>, v: Vpn)
    requires Valid(s) && todo <= PagesOf(s, p) && v in todo
    ensures Addr(p, v) in Exiting(s, p, todo).ptes && Exiting(s, p, todo).ptes[Addr(p, v)].ppn in Exiting(s, p, todo).mem
    ensures Exiting(s, p, todo - {v}) == Unmapped(Exiting(s, p, todo), Addr(p, v))
  {
    hide Kept, Sharers, Valid, Erased;
    assert v in PagesOf(s, p);
    hide PagesOf;
    SharersExiting(s, p, todo, s.ptes[Addr(p, v)].ppn);
    FreedInStep(s, p, todo, v);
  }

  /** The state with the pages `todo` of the parent still to share. */
  ghost function Walked(s: State, parent: Pid, child: Pid, todo: set<Vpn>): State {
    Forked(s, parent, child, PagesOf(s, parent) - todo)
  }

  lemma WalkStarts(s: State, parent: Pid, child: Pid)
    ensures Walked(s, parent, child, PagesOf(s, parent)) == s.(procs := s.procs + {child})
    ensures Walked(s, parent, child, {}) == Fork(s, parent, child)
  {
    assert PagesOf(s, parent) - PagesOf(s, parent) == {};
    assert PagesOf(s, parent) - {} == PagesOf(s, parent);
    NoneForked(s, parent, child);
  }

  lemma StepInWalk(s: State, parent: Pid, child: Pid, todo: set<Vpn>, v: Vpn)
    requires Valid(s) && parent in s.procs && child !in s.procs && todo <= PagesOf(s, parent) && v in todo
    ensures Addr(parent, v) in Walked(s, parent, child, todo).ptes
    ensures Walked(s, parent, child, todo - {v}) == ShareOne(Walked(s, parent, child, todo), Addr(parent, v), child)
  {
    var done := PagesOf(s, parent) - todo;
    assert PagesOf(s, parent) - (todo - {v}) == done + {v};
    ForkedGrows(s, parent, child, done, v);
    hide Forked, ShareOne;
  }

  /** The cases of a fault by the size of the set. */
  lemma FaultBySize(s: State, a: Addr, frame: Ppn)
    requires Valid(s) && a in s.ptes && !s.ptes[a].writeable
    ensures s.ptes[a].ppn in s.cow && s.ptes[a].ppn in s.mem && a.pid in s.cow[s.ptes[a].ppn]
    ensures |s.cow[s.ptes[a].ppn]| == 1 ==> Fault(s, a, frame) == Claim(s, a)
    ensures |s.cow[s.ptes[a].ppn]| > 2 ==> Fault(s, a, frame) == Separate(s, a, frame)
  {
    assert a.pid in Sharers(s, s.ptes[a].ppn);
    assert |Sharers(s, s.ptes[a].ppn) - {a.pid}| == |Sharers(s, s.ptes[a].ppn)| - 1;
    hide Claim, Separate, SetsExact, OneOwner, NothingLeaks;
  }

  lemma FaultOfTwo(s: State, a: Addr, frame: Ppn, other: Pid)
    requires Valid(s) && a in s.ptes && !s.ptes[a].writeable && frame !in s.mem
    requires s.ptes[a].ppn in s.cow && |s.cow[s.ptes[a].ppn]| == 2 && other in s.cow[s.ptes[a].ppn] - {a.pid}
    ensures Addr(other, a.vpn) in Separate(s, a, frame).ptes
    ensures Separate(s, a, frame).ptes[Addr(other, a.vpn)].ppn == s.ptes[a].ppn
    ensures Fault(s, a, frame) == Claim(Separate(s, a, frame), Addr(other, a.vpn))
  {
    var sharers := Sharers(s, s.ptes[a].ppn);
    assert a.pid in sharers;
    assert |sharers - {a.pid}| == 1;
    SharerMapsHere(s, a, other);
    assert sharers - {a.pid} == {other} by {
      assert |sharers - {a.pid} - {other}| == 0;
    }
    hide Claim, SetsExact, OneOwner, NothingLeaks;
  }
}
