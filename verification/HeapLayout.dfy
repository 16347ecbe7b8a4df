/** The kernel heap seen as a sequence of segments laid out one after the other.

    This module says what each heap operation does to that sequence and proves
    what callers rely on.  `KernelHeap` proves that the pointer code working on
    the raw memory words does exactly this.

    Sizes and addresses are counted in 64-bit words.  A `MallocSegment` header
    is seven words (56 bytes) on x86-64; all that is proved holds for any header with room
    for its fields.  Every payload is a whole number of words. */
module HeapLayout {

  /** Enough words for the fields of a header. */
  type HeaderSize = h: nat | 7 <= h witness 7

  /** The words of a header.  Nothing below depends on how many there are beyond the fields. */
  const HEADER: HeaderSize

  /** One segment: its header fields that matter and the words of its payload. */
  datatype Segment = Segment(addr: nat, size: nat, used: bool, freedAt: nat, data: seq<int>)

  function Payload(s: Segment): nat {
    s.addr + HEADER
  }

  function End(s: Segment): nat {
    s.addr + HEADER + s.size
  }

  function Zeros(n: nat): (z: seq<int>)
    ensures |z| == n && forall k :: 0 <= k < n ==> z[k] == 0
  {
    seq(n, _ => 0)
  }

  ghost predicate AllZero(d: seq<int>) {
    forall k :: 0 <= k < |d| ==> d[k] == 0
  }

  /** The segments exactly partition [base, brk), and the last one is not empty. */
  ghost predicate WellFormed(segs: seq<Segment>, base: nat, brk: nat) {
    && |segs| > 0
    && segs[0].addr == base
    && End(segs[|segs| - 1]) == brk
    && segs[|segs| - 1].size > 0
    && (forall i :: 0 <= i < |segs| ==> |segs[i].data| == segs[i].size)
    && (forall i, j :: 0 <= i && j == i + 1 && j < |segs| ==> End(segs[i]) == segs[j].addr)
  }

  /** Segments never overlap: each ends before every later one starts. */
  lemma {:induction false} Ordered(segs: seq<Segment>, base: nat, brk: nat, i: nat, j: nat)
    requires WellFormed(segs, base, brk)
    requires i < j < |segs|
    ensures End(segs[i]) <= segs[j].addr
    decreases j - i
  {
    if i + 1 < j {
      Ordered(segs, base, brk, i + 1, j);
    }
  }

  lemma Inside(segs: seq<Segment>, base: nat, brk: nat)
    requires WellFormed(segs, base, brk)
    ensures forall i, j :: 0 <= i < j < |segs| ==> End(segs[i]) <= segs[j].addr
    ensures forall i :: 0 <= i < |segs| ==> base <= segs[i].addr && End(segs[i]) <= brk
  {
    forall i, j | 0 <= i < j < |segs|
      ensures End(segs[i]) <= segs[j].addr
    {
      Ordered(segs, base, brk, i, j);
    }
  }

  /** Replacing the run segs[i..i+cnt] by `mid`. */
  function Splice(segs: seq<Segment>, i: nat, cnt: nat, mid: seq<Segment>): seq<Segment>
    requires i + cnt <= |segs|
  {
    segs[..i] + mid + segs[i + cnt..]
  }

  /** `mid` covers exactly the words of segs[i..i+cnt]. */
  ghost predicate Covers(segs: seq<Segment>, i: nat, cnt: nat, mid: seq<Segment>) {
    && cnt > 0 && i + cnt <= |segs| && |mid| > 0
    && mid[0].addr == segs[i].addr
    && End(mid[|mid| - 1]) == End(segs[i + cnt - 1])
    && (forall k :: 0 <= k < |mid| ==> |mid[k].data| == mid[k].size)
    && (forall k, l :: 0 <= k && l == k + 1 && l < |mid| ==> End(mid[k]) == mid[l].addr)
    && (i + cnt == |segs| ==> mid[|mid| - 1].size > 0)
  }

  lemma SpliceWellFormed(segs: seq<Segment>, base: nat, brk: nat, i: nat, cnt: nat, mid: seq<Segment>)
    requires WellFormed(segs, base, brk)
    requires Covers(segs, i, cnt, mid)
    ensures WellFormed(Splice(segs, i, cnt, mid), base, brk)
  {
    var r := Splice(segs, i, cnt, mid);
    forall k, l | 0 <= k && l == k + 1 && l < |r|
      ensures End(r[k]) == r[l].addr
    {
      if l == i {
        assert r[k] == segs[k] && segs[i].addr == mid[0].addr;
      } else if l == i + |mid| {
        assert r[k] == mid[|mid| - 1] && r[l] == segs[i + cnt];
      } else if l > i + |mid| {
        assert r[k] == segs[k - |mid| + cnt] && r[l] == segs[l - |mid| + cnt];
      }
    }
  }

  // ---------------------------------------------------------------------
  // The operations
  // ---------------------------------------------------------------------

  predicate Fits(s: Segment, n: nat) {
    !s.used && s.size >= n
  }

  /** First-fit search; |segs| when nothing fits. */
  function FirstFit(segs: seq<Segment>, n: nat): (k: nat)
    ensures k <= |segs|
    ensures k < |segs| ==> Fits(segs[k], n)
    ensures forall j :: 0 <= j < k ==> !Fits(segs[j], n)
  {
    if segs == [] || Fits(segs[0], n) then 0 else 1 + FirstFit(segs[1..], n)
  }

  function MarkAt(segs: seq<Segment>, i: nat, used: bool): seq<Segment>
    requires i < |segs|
  {
    Splice(segs, i, 1, [segs[i].(used := used)])
  }

  function HeadPart(s: Segment, n: nat): Segment
    requires n + HEADER <= s.size == |s.data|
  {
    Segment(s.addr, n, s.used, s.freedAt, s.data[..n])
  }

  function TailPart(s: Segment, n: nat): Segment
    requires n + HEADER <= s.size == |s.data|
  {
    Segment(s.addr + HEADER + n, s.size - n - HEADER, false, 0, s.data[n + HEADER..])
  }

  /** Keeps n words for segment i; its tail becomes a free segment of its own. */
  function SplitAt(segs: seq<Segment>, i: nat, n: nat): seq<Segment>
    requires i < |segs| && n + HEADER <= segs[i].size == |segs[i].data|
  {
    Splice(segs, i, 1, [HeadPart(segs[i], n), TailPart(segs[i], n)])
  }

  /** Marks segment i used with n words; cuts the tail off when a header and at least one word remain. */
  function FillAt(segs: seq<Segment>, i: nat, n: nat): seq<Segment>
    requires i < |segs| && n <= segs[i].size == |segs[i].data|
  {
    var u := MarkAt(segs, i, true);
    if segs[i].size - n > HEADER then SplitAt(u, i, n) else u
  }

  /** The first |d| payload words of segment i become d. */
  function CopyInto(segs: seq<Segment>, i: nat, d: seq<int>): seq<Segment>
    requires i < |segs| && |d| <= |segs[i].data|
  {
    Splice(segs, i, 1, [segs[i].(data := d + segs[i].data[|d|..])])
  }

  /** Clears the first n words of segment i. */
  function ClearAt(segs: seq<Segment>, i: nat, n: nat): seq<Segment>
    requires i < |segs| && n <= |segs[i].data|
  {
    CopyInto(segs, i, Zeros(n))
  }

  function StampAt(segs: seq<Segment>, i: nat, calledBy: nat): seq<Segment>
    requires i < |segs|
  {
    Splice(segs, i, 1, [segs[i].(freedAt := calledBy)])
  }

  /** Hands out segment i: its first n words are cleared. */
  function AllocAt(segs: seq<Segment>, i: nat, n: nat): seq<Segment>
    requires i < |segs| && n <= segs[i].size == |segs[i].data|
  {
    StampAt(FillAt(ClearAt(segs, i, n), i, n), i, 0)
  }

  /** Segment s after it absorbed its successor t, header included; d is the joint payload. */
  function Joint(s: Segment, t: Segment, d: seq<int>): Segment {
    Segment(s.addr, s.size + HEADER + t.size, s.used, s.freedAt, d)
  }

  function JoinAt(segs: seq<Segment>, i: nat, d: seq<int>): seq<Segment>
    requires i + 1 < |segs|
  {
    Splice(segs, i, 2, [Joint(segs[i], segs[i + 1], d)])
  }

  /** Absorbs the following segment and wipes its header. */
  function MergeAt(segs: seq<Segment>, i: nat): seq<Segment>
    requires i + 1 < |segs|
  {
    JoinAt(segs, i, segs[i].data + Zeros(HEADER) + segs[i + 1].data)
  }

  function FreeLow(segs: seq<Segment>, i: nat): (lo: nat)
    requires i < |segs|
    ensures lo <= i
  {
    if i > 0 && !segs[i - 1].used then i - 1 else i
  }

  function FreeHigh(segs: seq<Segment>, i: nat): (hi: nat)
    requires i < |segs|
    ensures i < hi <= |segs|
  {
    if i + 1 < |segs| && !segs[i + 1].used then i + 2 else i + 1
  }

  /** The single cleared segment that replaces block i and its free neighbours. */
  function FreedSegment(segs: seq<Segment>, i: nat, calledBy: nat): (s: Segment)
    requires i < |segs|
  {
    var lo, hi := FreeLow(segs, i), FreeHigh(segs, i);
    var size := (if lo < i then segs[lo].size + HEADER else 0) + segs[i].size
                + (if i + 1 < hi then HEADER + segs[i + 1].size else 0);
    Segment(segs[lo].addr, size, false, if lo < i then segs[lo].freedAt else calledBy, Zeros(size))
  }

  function FreeAt(segs: seq<Segment>, i: nat, calledBy: nat): seq<Segment>
    requires i < |segs|
  {
    var lo, hi := FreeLow(segs, i), FreeHigh(segs, i);
    Splice(segs, lo, hi - lo, [FreedSegment(segs, i, calledBy)])
  }

  /** A store by the owner of block i. */
  function StoreAt(segs: seq<Segment>, i: nat, off: nat, v: int): seq<Segment>
    requires i < |segs| && off < |segs[i].data|
  {
    CopyInto(segs, i, segs[i].data[..off] + [v])
  }

  predicate CanGrow(segs: seq<Segment>, i: nat, n: nat)
    requires i < |segs|
  {
    i + 1 < |segs| && !segs[i + 1].used && segs[i + 1].size + segs[i].size >= n
  }

  // ---------------------------------------------------------------------
  // Spelling the composed operations out as one replacement each
  // ---------------------------------------------------------------------

  lemma SpliceTwice(segs: seq<Segment>, i: nat, cnt: nat, x: Segment, rest: seq<Segment>, mid: seq<Segment>)
    requires i + cnt <= |segs| && cnt > 0
    ensures i + 1 <= |Splice(segs, i, cnt, [x] + rest)|
    ensures Splice(segs, i, cnt, [x] + rest)[i] == x
    ensures Splice(Splice(segs, i, cnt, [x] + rest), i, 1, mid) == Splice(segs, i, cnt, mid + rest)
  {
    var r := Splice(segs, i, cnt, [x] + rest);
    assert r[..i] == segs[..i];
    assert r[i + 1..] == rest + segs[i + cnt..];
  }

  function FillMid(s: Segment, n: nat): seq<Segment>
    requires n <= s.size == |s.data|
  {
    if s.size - n > HEADER then [HeadPart(s, n).(used := true), TailPart(s, n)] else [s.(used := true)]
  }

  lemma FillIs(segs: seq<Segment>, i: nat, n: nat)
    requires i < |segs| && n <= segs[i].size == |segs[i].data|
    ensures FillAt(segs, i, n) == Splice(segs, i, 1, FillMid(segs[i], n))
  {
    var u := segs[i].(used := true);
    var mid := if segs[i].size - n > HEADER then [HeadPart(u, n), TailPart(u, n)] else [u];
    SpliceTwice(segs, i, 1, u, [], mid);
    assert [u] + [] == [u] && mid + [] == mid;
  }

  function AllocMid(s: Segment, n: nat): seq<Segment>
    requires n <= s.size == |s.data|
  {
    if s.size - n > HEADER then [Segment(s.addr, n, true, 0, Zeros(n)), TailPart(s, n)]
    else [Segment(s.addr, s.size, true, 0, Zeros(n) + s.data[n..])]
  }

  lemma AllocIs(segs: seq<Segment>, i: nat, n: nat)
    requires i < |segs| && n <= segs[i].size == |segs[i].data|
    ensures AllocAt(segs, i, n) == Splice(segs, i, 1, AllocMid(segs[i], n))
  {
    var c := segs[i].(data := Zeros(n) + segs[i].data[n..]);
    SpliceTwice(segs, i, 1, c, [], FillMid(c, n));
    assert [c] + [] == [c] && FillMid(c, n) + [] == FillMid(c, n);
    var cs := ClearAt(segs, i, n);
    FillIs(cs, i, n);
    var f := FillMid(c, n);
    assert f == [f[0]] + f[1..];
    SpliceTwice(segs, i, 1, f[0], f[1..], [f[0].(freedAt := 0)]);
    assert [f[0].(freedAt := 0)] + f[1..] == AllocMid(segs[i], n) by {
      if segs[i].size - n > HEADER {
        assert c.data[..n] == Zeros(n);
        assert c.data[n + HEADER..] == segs[i].data[n + HEADER..];
      }
    }
  }

  function GrowMid(s: Segment, t: Segment, n: nat): seq<Segment>
    requires |s.data| == s.size && |t.data| == t.size && n <= s.size + HEADER + t.size
  {
    FillMid(Segment(s.addr, s.size + HEADER + t.size, s.used, s.freedAt, s.data + Zeros(HEADER) + t.data), n)
  }

  lemma GrowIs(segs: seq<Segment>, i: nat, n: nat)
    requires i + 1 < |segs| && |segs[i].data| == segs[i].size && |segs[i + 1].data| == segs[i + 1].size
    requires n <= segs[i].size + HEADER + segs[i + 1].size
    ensures MergeAt(segs, i)[i].size == segs[i].size + HEADER + segs[i + 1].size == |MergeAt(segs, i)[i].data|
    ensures FillAt(MergeAt(segs, i), i, n) == Splice(segs, i, 2, GrowMid(segs[i], segs[i + 1], n))
  {
    var s, t := segs[i], segs[i + 1];
    var j := Segment(s.addr, s.size + HEADER + t.size, s.used, s.freedAt, s.data + Zeros(HEADER) + t.data);
    assert [j] + [] == [j] && FillMid(j, n) + [] == FillMid(j, n);
    SpliceTwice(segs, i, 2, j, [], FillMid(j, n));
    FillIs(MergeAt(segs, i), i, n);
  }

  // ---------------------------------------------------------------------
  // The calls of the manager
  // ---------------------------------------------------------------------

  /** A call either completes or stops the kernel with a failed assertion. */
  datatype Outcome = Done(segs: seq<Segment>, result: nat) | Panic

  predicate Sized(segs: seq<Segment>) {
    forall s :: s in segs ==> |s.data| == s.size
  }

  /** Where segment i ends up when segment k is handed out: a split in front of it shifts it. */
  lemma AllocShape(segs: seq<Segment>, k: nat, n: nat, i: nat)
    requires Sized(segs) && k < |segs| && i < |segs| && i != k && n <= segs[k].size
    ensures var a := AllocAt(segs, k, n); var i' := if k < i then i + |a| - |segs| else i;
            && |segs| <= |a| && Sized(a) && i' < |a| && a[i'] == segs[i]
            && a[k].used && a[k].addr == segs[k].addr && a[k].size >= n && (k < i <==> k < i')
            && a[k].freedAt == 0 && k != i'
  {
    assert |segs[k].data| == segs[k].size by {
      assert segs[k] in segs;
    }
    AllocIs(segs, k, n);
    AllocMidShape(segs[k], n);
    hide AllocMid, AllocAt, Splice;
    SplicedSizes(segs, k, AllocMid(segs[k], n));
    SplicedAt(segs, k, AllocMid(segs[k], n), i);
  }

  lemma AllocMidShape(s: Segment, n: nat)
    requires n <= s.size == |s.data|
    ensures var mid := AllocMid(s, n);
            && 1 <= |mid| <= 2 && (forall j :: 0 <= j < |mid| ==> |mid[j].data| == mid[j].size)
            && mid[0].used && mid[0].addr == s.addr && mid[0].size >= n && mid[0].freedAt == 0
  {
  }

  /** Sizes and places after one segment is replaced. */
  lemma SplicedSizes(segs: seq<Segment>, k: nat, mid: seq<Segment>)
    requires Sized(segs) && k < |segs| && |mid| > 0
    requires forall j :: 0 <= j < |mid| ==> |mid[j].data| == mid[j].size
    ensures var a := Splice(segs, k, 1, mid);
            Sized(a) && |a| == |segs| + |mid| - 1 && a[k] == mid[0]
  {
    var a := Splice(segs, k, 1, mid);
    forall s | s in a
      ensures |s.data| == s.size
    {
      assert s in segs[..k] || s in mid || s in segs[k + 1..];
    }
  }

  lemma SplicedAt(segs: seq<Segment>, k: nat, mid: seq<Segment>, i: nat)
    requires k < |segs| && i < |segs| && i != k && |mid| > 0
    ensures var a := Splice(segs, k, 1, mid);
            |a| == |segs| + |mid| - 1 && a[if k < i then i + |a| - |segs| else i] == segs[i]
  {
  }

  function Allocate(segs: seq<Segment>, n: nat): (o: Outcome)
    requires Sized(segs)
  {
    var k := FirstFit(segs, n);
    if k == |segs| then Panic else Done(AllocAt(segs, k, n), Payload(segs[k]))
  }

  /** Freeing; when a single free segment would remain, the source shrinks the heap, which is fixed. */
  function Release(segs: seq<Segment>, i: nat, calledBy: nat): (o: Outcome)
    requires i < |segs|
  {
    if |FreeAt(segs, i, calledBy)| == 1 then Panic else Done(FreeAt(segs, i, calledBy), 0)
  }

  function MovedIndex(segs: seq<Segment>, k: nat, n: nat, i: nat): (j: nat)
    requires Sized(segs) && k < |segs| && i < |segs| && i != k && n <= segs[k].size
    ensures j < |AllocAt(segs, k, n)| && j != k
  {
    AllocShape(segs, k, n, i);
    if k < i then i + |AllocAt(segs, k, n)| - |segs| else i
  }

  /** Segment k is handed out and receives the words of block i. */
  function CopyStep(segs: seq<Segment>, k: nat, n: nat, i: nat): (c: seq<Segment>)
    requires Sized(segs) && k < |segs| && i < |segs| && i != k && segs[i].size <= n <= segs[k].size
    ensures |c| == |AllocAt(segs, k, n)|
  {
    AllocShape(segs, k, n, i);
    CopyInto(AllocAt(segs, k, n), k, segs[i].data)
  }

  lemma CopyOther(segs: seq<Segment>, k: nat, d: seq<int>)
    requires k < |segs| && |d| <= |segs[k].data|
    ensures |CopyInto(segs, k, d)| == |segs|
    ensures forall j :: 0 <= j < |segs| && j != k ==> CopyInto(segs, k, d)[j] == segs[j]
  {
  }

  /** The block to be moved is still there after the copy. */
  lemma CopyKeepsOld(segs: seq<Segment>, k: nat, n: nat, i: nat)
    requires Sized(segs) && k < |segs| && i < |segs| && i != k && segs[i].size <= n <= segs[k].size
    ensures CopyStep(segs, k, n, i)[MovedIndex(segs, k, n, i)] == segs[i]
  {
    AllocShape(segs, k, n, i);
    CopyOther(AllocAt(segs, k, n), k, segs[i].data);
  }

  /** Moving block i to the first fit for n words. */
  function Move(segs: seq<Segment>, i: nat, n: nat, calledBy: nat): (o: Outcome)
    requires Sized(segs) && i < |segs| && segs[i].used && segs[i].size < n
  {
    var k := FirstFit(segs, n);
    if k == |segs| then Panic
    else Done(FreeAt(CopyStep(segs, k, n, i), MovedIndex(segs, k, n, i), calledBy), Payload(segs[k]))
  }

  /** Resizing block i to n words. */
  function Reallocate(segs: seq<Segment>, i: nat, n: nat, calledBy: nat): (o: Outcome)
    requires Sized(segs) && i < |segs| && segs[i].used
  {
    if n == segs[i].size then Done(segs, Payload(segs[i]))
    else if n < segs[i].size then Done(FillAt(segs, i, n), Payload(segs[i]))
    else if CanGrow(segs, i, n) then
      GrowIs(segs, i, n);
      Done(FillAt(MergeAt(segs, i), i, n), Payload(segs[i]))
    else Move(segs, i, n, calledBy)
  }

  /** The list code frees in steps: unmark, join with a free predecessor (d is whatever lies in
      the joint payload then), merge with a free successor, clear.  Together they are `FreeAt`. */
  function AfterPremerge(segs: seq<Segment>, i: nat, d: seq<int>): seq<Segment>
    requires i < |segs|
  {
    var u := MarkAt(segs, i, false);
    if FreeLow(segs, i) < i then JoinAt(u, i - 1, d) else u
  }

  function AfterMerge(segs: seq<Segment>, k: nat): seq<Segment>
    requires k < |segs|
  {
    if k + 1 < |segs| && !segs[k + 1].used then MergeAt(segs, k) else segs
  }

  lemma PremergeShape(segs: seq<Segment>, i: nat, d: seq<int>)
    requires i < |segs| && Sized(segs)
    requires FreeLow(segs, i) < i ==> |d| == segs[i - 1].size + HEADER + segs[i].size
    ensures var p := AfterPremerge(segs, i, d); var lo := FreeLow(segs, i);
            && p[..lo] == segs[..lo] && p[lo + 1..] == segs[i + 1..] && |p| == |segs| - (i - lo)
            && p[lo].addr == segs[lo].addr && !p[lo].used && |p[lo].data| == p[lo].size
            && p[lo].size == (if lo < i then segs[lo].size + HEADER else 0) + segs[i].size
            && p[lo].freedAt == segs[lo].freedAt
  {
    var u := MarkAt(segs, i, false);
    assert u[..i] == segs[..i] && u[i + 1..] == segs[i + 1..];
    if FreeLow(segs, i) < i {
      var p := JoinAt(u, i - 1, d);
      assert p[..i - 1] == u[..i - 1] == segs[..i - 1];
      assert p[i..] == u[i + 1..];
      assert p[i - 1] == Joint(u[i - 1], u[i], d);
    }
  }

  lemma FreeInSteps(segs: seq<Segment>, i: nat, d: seq<int>)
    requires i < |segs| && Sized(segs)
    requires FreeLow(segs, i) < i ==> |d| == segs[i - 1].size + HEADER + segs[i].size
    ensures var lo := FreeLow(segs, i);
            && |AfterPremerge(segs, i, d)| > lo
            && var q := AfterMerge(AfterPremerge(segs, i, d), lo);
            && lo < |q| && q[lo].size == |q[lo].data| && q[lo].addr == segs[lo].addr
            && ClearAt(q, lo, q[lo].size) == FreeAt(segs, i, segs[i].freedAt)
  {
    PremergeShape(segs, i, d);
    MergeShape(segs, i, AfterPremerge(segs, i, d));
  }

  lemma MergeShape(segs: seq<Segment>, i: nat, p: seq<Segment>)
    requires i < |segs| && Sized(segs)
    requires var lo := FreeLow(segs, i);
             && |p| == |segs| - (i - lo) && p[..lo] == segs[..lo] && p[lo + 1..] == segs[i + 1..]
             && p[lo].addr == segs[lo].addr && !p[lo].used && |p[lo].data| == p[lo].size
             && p[lo].size == (if lo < i then segs[lo].size + HEADER else 0) + segs[i].size
             && p[lo].freedAt == segs[lo].freedAt
    ensures var lo := FreeLow(segs, i); var q := AfterMerge(p, lo);
            && lo < |q| && q[lo].size == |q[lo].data| && q[lo].addr == segs[lo].addr
            && ClearAt(q, lo, q[lo].size) == FreeAt(segs, i, segs[i].freedAt)
  {
    var lo, hi := FreeLow(segs, i), FreeHigh(segs, i);
    assert lo + 1 < |p| ==> p[lo + 1] == p[lo + 1..][0] == segs[i + 1];
    var q := AfterMerge(p, lo);
    assert q[..lo] == segs[..lo];
    assert q[lo + 1..] == segs[hi..] by {
      if hi == i + 2 {
        assert q[lo + 1..] == p[lo + 2..] == p[lo + 1..][1..];
      }
    }
    assert q[lo].(data := Zeros(q[lo].size) + q[lo].data[q[lo].size..]) == FreedSegment(segs, i, segs[i].freedAt);
  }

  /** Stamping the freed segment afterwards, when it did not vanish into its predecessor. */
  lemma StampFreed(segs: seq<Segment>, i: nat, calledBy: nat)
    requires i < |segs|
    ensures FreeLow(segs, i) == i ==> i < |FreeAt(segs, i, segs[i].freedAt)|
                                      && StampAt(FreeAt(segs, i, segs[i].freedAt), i, calledBy) == FreeAt(segs, i, calledBy)
    ensures FreeLow(segs, i) < i ==> FreeAt(segs, i, segs[i].freedAt) == FreeAt(segs, i, calledBy)
  {
    var lo, hi := FreeLow(segs, i), FreeHigh(segs, i);
    var x := FreedSegment(segs, i, segs[i].freedAt);
    assert [x] + [] == [x];
    SpliceTwice(segs, lo, hi - lo, x, [], [x.(freedAt := calledBy)]);
    assert [x.(freedAt := calledBy)] + [] == [x.(freedAt := calledBy)];
  }
}
