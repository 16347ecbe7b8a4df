/** The kernel memory manager: a first-fit allocator whose doubly linked segment
    list lives inside the heap it manages.

    `mem[a]` is the 64-bit word at word address a.  The fields of a segment header
    are its first seven words; a stale header is nothing but payload, so a `memset` over it really
    destroys its marker.  The heap is the fixed one of the shipped configuration:
    where the source would call `ksbrk`, which asserts, the model reports a panic. */
module KernelHeap {
  import opened HeapLayout
  import opened HeapProperties
  import opened HeapCleanliness
  import opened HeapRuns

  // Word offsets of the header fields.
  const MARKER: nat := 0
  const NEXT: nat := 1
  const PREV: nat := 2
  const FREED_AT: nat := 3
  const ALLOC_AT: nat := 4
  const SIZE_FLAG: nat := 6

  const USED_FLAG: nat := 0x8000_0000

  /** The marker a header at word address a must carry. */
  function Marker(a: nat): (m: nat)
    ensures m != 0
  {
    0xdead_beef_0000_0000 + (8 * a) % 0x1_0000_0000
  }

  // The used flag is bit 31 of the size word, the size in bytes its low 31 bits.

  function GetSize(flag: int): (n: nat) {
    (flag % USED_FLAG) / 8
  }

  predicate GetUsed(flag: int) {
    (flag / USED_FLAG) % 2 == 1
  }

  function SetSize(flag: int, n: nat): int {
    (if GetUsed(flag) then USED_FLAG else 0) + (8 * n) % USED_FLAG
  }

  function SetUsed(flag: int, used: bool): int {
    flag % USED_FLAG + (if used then USED_FLAG else 0)
  }

  function Pack(n: nat, used: bool): int {
    8 * n + (if used then USED_FLAG else 0)
  }

  lemma Packing(n: nat, used: bool, n': nat, used': bool)
    requires 8 * n < USED_FLAG && 8 * n' < USED_FLAG
    ensures GetSize(Pack(n, used)) == n && GetUsed(Pack(n, used)) == used
    ensures SetSize(Pack(n, used), n') == Pack(n', used)
    ensures SetUsed(Pack(n, used), used') == Pack(n, used')
  {
  }

  /** 16-byte alignment, then bytes to words. */
  function RoundUp(bytes: nat): (words: nat)
    ensures 8 * words >= bytes && words % 2 == 0 && 8 * words < bytes + 16
  {
    2 * ((bytes + 15) / 16)
  }

  predicate TooMuch(bytes: nat) {
    (bytes / 0x8000_0000) % 2 != 0
  }

  /** The header of s as it lies in memory. */
  ghost predicate HeaderWords(m: seq<int>, s: Segment, next: nat, prev: nat) {
    && End(s) <= |m|
    && m[s.addr + MARKER] == Marker(s.addr)
    && m[s.addr + NEXT] == next
    && m[s.addr + PREV] == prev
    && m[s.addr + FREED_AT] == s.freedAt
    && m[s.addr + SIZE_FLAG] == Pack(s.size, s.used)
  }

  function NextAddr(segs: seq<Segment>, i: nat): nat {
    if i + 1 < |segs| then segs[i + 1].addr else 0
  }

  function PrevAddr(segs: seq<Segment>, i: nat): nat {
    if 0 < i <= |segs| then segs[i - 1].addr else 0
  }

  /** The words of segment i, header and payload, are in memory and linked to its neighbours. */
  ghost predicate HeaderAt(m: seq<int>, segs: seq<Segment>, i: nat)
    requires i < |segs|
  {
    && HeaderWords(m, segs[i], NextAddr(segs, i), PrevAddr(segs, i))
    && m[Payload(segs[i])..End(segs[i])] == segs[i].data
  }

  ghost predicate Represents(m: seq<int>, segs: seq<Segment>) {
    forall i :: 0 <= i < |segs| ==> HeaderAt(m, segs, i)
  }

  /** Memory m holds the segment list `segs` between base and brk, with these end pointers. */
  ghost predicate Holds(m: seq<int>, segs: seq<Segment>, base: nat, brk: nat, first: int, last: int) {
    && 0 < base <= brk == |m| && 8 * (brk - base) < USED_FLAG
    && WellFormed(segs, base, brk)
    && Represents(m, segs)
    && first == segs[0].addr
    && last == segs[|segs| - 1].addr
  }

  predicate WordIs(m: seq<int>, a: nat, v: int) {
    a < |m| && m[a] == v
  }

  /** m' differs from m only inside segs[i..i+cnt] and in the two links that point at that run. */
  ghost predicate ChangedOnly(m: seq<int>, m': seq<int>, segs: seq<Segment>, i: nat, cnt: nat)
    requires cnt > 0 && i + cnt <= |segs|
  {
    && |m'| == |m|
    && (forall x :: 0 <= x < |m| && (x < segs[i].addr || x >= End(segs[i + cnt - 1]))
                    && !(i > 0 && x == segs[i - 1].addr + NEXT)
                    && !(i + cnt < |segs| && x == segs[i + cnt].addr + PREV)
          ==> m'[x] == m[x])
  }

  /** A segment outside the rewritten run keeps its payload and its private fields. */
  lemma Untouched(m: seq<int>, m': seq<int>, segs: seq<Segment>, base: nat, brk: nat, i: nat, cnt: nat, q: nat)
    requires WellFormed(segs, base, brk) && Represents(m, segs)
    requires cnt > 0 && i + cnt <= |segs| && ChangedOnly(m, m', segs, i, cnt)
    requires q < i || i + cnt <= q < |segs|
    ensures End(segs[q]) <= |m'|
    ensures m'[segs[q].addr + MARKER] == Marker(segs[q].addr)
    ensures q + 1 != i ==> WordIs(m', segs[q].addr + NEXT, if q + 1 < |segs| then segs[q + 1].addr else 0)
    ensures q != i + cnt ==> WordIs(m', segs[q].addr + PREV, if q > 0 then segs[q - 1].addr else 0)
    ensures m'[segs[q].addr + FREED_AT] == segs[q].freedAt
    ensures m'[segs[q].addr + SIZE_FLAG] == Pack(segs[q].size, segs[q].used)
    ensures m'[Payload(segs[q])..End(segs[q])] == segs[q].data
  {
    hide WellFormed, Marker, Pack, ChangedOnly;
    assert HeaderAt(m, segs, q);
    var s := segs[q];
    UntouchedWords(m, m', segs, base, brk, i, cnt, q);
    SameWords(m, m', Payload(s), End(s));
  }

  lemma UntouchedWords(m: seq<int>, m': seq<int>, segs: seq<Segment>, base: nat, brk: nat, i: nat, cnt: nat, q: nat)
    requires WellFormed(segs, base, brk) && cnt > 0 && i + cnt <= |segs| && ChangedOnly(m, m', segs, i, cnt)
    requires (q < i || i + cnt <= q < |segs|) && End(segs[q]) <= |m|
    ensures |m'| == |m|
    ensures forall x :: segs[q].addr <= x < End(segs[q]) ==>
              m'[x] == m[x] || (q + 1 == i && x == segs[q].addr + NEXT) || (q == i + cnt && x == segs[q].addr + PREV)
  {
    hide WellFormed;
    Inside(segs, base, brk);
  }

  lemma SameWords(m: seq<int>, m': seq<int>, lo: nat, hi: nat)
    requires lo <= hi <= |m| == |m'| && forall x :: lo <= x < hi ==> m'[x] == m[x]
    ensures m'[lo..hi] == m[lo..hi]
  {
  }

  lemma SpliceIndex(segs: seq<Segment>, i: nat, cnt: nat, mid: seq<Segment>, k: nat)
    requires cnt > 0 && i + cnt <= |segs| && |mid| > 0 && k < |Splice(segs, i, cnt, mid)|
    ensures |Splice(segs, i, cnt, mid)| == |segs| - cnt + |mid|
    ensures Splice(segs, i, cnt, mid)[k] ==
            if k < i then segs[k] else if k < i + |mid| then mid[k - i] else segs[k - |mid| + cnt]
  {
  }

  lemma RepresentsBefore(m: seq<int>, m': seq<int>, segs: seq<Segment>, base: nat, brk: nat, i: nat, cnt: nat, mid: seq<Segment>, k: nat)
    requires WellFormed(segs, base, brk) && Represents(m, segs)
    requires Covers(segs, i, cnt, mid)
    requires ChangedOnly(m, m', segs, i, cnt)
    requires k < i && WordIs(m', segs[i - 1].addr + NEXT, mid[0].addr)
    ensures k < |Splice(segs, i, cnt, mid)| && HeaderAt(m', Splice(segs, i, cnt, mid), k)
  {
    Untouched(m, m', segs, base, brk, i, cnt, k);
    SpliceIndex(segs, i, cnt, mid, k);
    SpliceIndex(segs, i, cnt, mid, k + 1);
    if k > 0 {
      SpliceIndex(segs, i, cnt, mid, k - 1);
    }
  }

  lemma RepresentsAfter(m: seq<int>, m': seq<int>, segs: seq<Segment>, base: nat, brk: nat, i: nat, cnt: nat, mid: seq<Segment>, k: nat)
    requires WellFormed(segs, base, brk) && Represents(m, segs)
    requires Covers(segs, i, cnt, mid)
    requires ChangedOnly(m, m', segs, i, cnt)
    requires i + |mid| <= k < |segs| - cnt + |mid|
    requires WordIs(m', segs[i + cnt].addr + PREV, mid[|mid| - 1].addr)
    ensures k < |Splice(segs, i, cnt, mid)| && HeaderAt(m', Splice(segs, i, cnt, mid), k)
  {
    Untouched(m, m', segs, base, brk, i, cnt, k - |mid| + cnt);
    SpliceIndex(segs, i, cnt, mid, k);
    SpliceIndex(segs, i, cnt, mid, k - 1);
    if k + 1 < |segs| - cnt + |mid| {
      SpliceIndex(segs, i, cnt, mid, k + 1);
    }
  }

  /** Segment k of the replacement lies in memory, linked inside the run and to its outer neighbours. */
  ghost predicate MidAt(m: seq<int>, segs: seq<Segment>, i: nat, cnt: nat, mid: seq<Segment>, k: nat)
    requires cnt > 0 && i + cnt <= |segs| && k < |mid|
  {
    && HeaderWords(m, mid[k], if k + 1 < |mid| then mid[k + 1].addr else NextAddr(segs, i + cnt - 1),
                   if k > 0 then mid[k - 1].addr else PrevAddr(segs, i))
    && m[Payload(mid[k])..End(mid[k])] == mid[k].data
  }

  lemma RepresentsMid(m: seq<int>, segs: seq<Segment>, i: nat, cnt: nat, mid: seq<Segment>, k: nat)
    requires cnt > 0 && i + cnt <= |segs| && k < |mid|
    requires MidAt(m, segs, i, cnt, mid, k)
    ensures i + k < |Splice(segs, i, cnt, mid)| && HeaderAt(m, Splice(segs, i, cnt, mid), i + k)
  {
    SpliceIndex(segs, i, cnt, mid, i + k);
    if i + k + 1 < |segs| - cnt + |mid| {
      SpliceIndex(segs, i, cnt, mid, i + k + 1);
    }
    if i + k > 0 {
      SpliceIndex(segs, i, cnt, mid, i + k - 1);
    }
  }

  /** Rewriting a run of segments keeps the rest of the list represented. */
  lemma RepresentsSplice(m: seq<int>, m': seq<int>, segs: seq<Segment>, base: nat, brk: nat, first: int, last: int, i: nat, cnt: nat, mid: seq<Segment>)
    requires Holds(m, segs, base, brk, first, last)
    requires Covers(segs, i, cnt, mid)
    requires ChangedOnly(m, m', segs, i, cnt)
    requires i > 0 ==> WordIs(m', segs[i - 1].addr + NEXT, mid[0].addr)
    requires i + cnt < |segs| ==> WordIs(m', segs[i + cnt].addr + PREV, mid[|mid| - 1].addr)
    requires forall k :: 0 <= k < |mid| ==> MidAt(m', segs, i, cnt, mid, k)
    ensures Holds(m', Splice(segs, i, cnt, mid), base, brk, first, if i + cnt == |segs| then mid[|mid| - 1].addr else last)
  {
    SpliceWellFormed(segs, base, brk, i, cnt, mid);
    forall k | 0 <= k < |Splice(segs, i, cnt, mid)|
      ensures HeaderAt(m', Splice(segs, i, cnt, mid), k)
    {
      if k < i {
        RepresentsBefore(m, m', segs, base, brk, i, cnt, mid, k);
      } else if i + |mid| <= k {
        RepresentsAfter(m, m', segs, base, brk, i, cnt, mid, k);
      } else {
        RepresentsMid(m', segs, i, cnt, mid, k - i);
      }
    }
  }

  /** What the header words of segment i say. */
  lemma HeaderFacts(m: seq<int>, segs: seq<Segment>, base: nat, brk: nat, first: int, last: int, i: nat)
    requires Holds(m, segs, base, brk, first, last) && i < |segs|
    ensures 0 < base <= segs[i].addr && End(segs[i]) <= brk == |m| && 8 * (brk - base) < USED_FLAG
    ensures 8 * segs[i].size < USED_FLAG
    ensures |segs[i].data| == segs[i].size
    ensures m[segs[i].addr + MARKER] == Marker(segs[i].addr)
    ensures m[segs[i].addr + NEXT] == NextAddr(segs, i)
    ensures m[segs[i].addr + PREV] == PrevAddr(segs, i)
    ensures m[segs[i].addr + FREED_AT] == segs[i].freedAt
    ensures m[segs[i].addr + SIZE_FLAG] == Pack(segs[i].size, segs[i].used)
    ensures m[Payload(segs[i])..End(segs[i])] == segs[i].data
    ensures GetSize(m[segs[i].addr + SIZE_FLAG]) == segs[i].size
    ensures GetUsed(m[segs[i].addr + SIZE_FLAG]) == segs[i].used
    ensures i + 1 < |segs| ==> base <= End(segs[i]) == segs[i + 1].addr && End(segs[i + 1]) <= brk
    ensures i > 0 ==> base <= segs[i - 1].addr && End(segs[i - 1]) == segs[i].addr
    ensures i + 1 == |segs| ==> End(segs[i]) == brk && segs[i].addr == last && segs[i].size > 0
    ensures i == 0 ==> segs[i].addr == first
  {
    assert HeaderAt(m, segs, i);
    Inside(segs, base, brk);
    Packing(segs[i].size, segs[i].used, 0, false);
  }

  /** The two links that point at the run segs[i..i+cnt]. */
  lemma OuterLinks(m: seq<int>, segs: seq<Segment>, base: nat, brk: nat, first: int, last: int, i: nat, cnt: nat)
    requires Holds(m, segs, base, brk, first, last) && cnt > 0 && i + cnt <= |segs|
    ensures i > 0 ==> WordIs(m, segs[i - 1].addr + NEXT, segs[i].addr) && segs[i - 1].addr + HEADER <= segs[i].addr
    ensures i + cnt < |segs| ==> WordIs(m, segs[i + cnt].addr + PREV, segs[i + cnt - 1].addr)
                                 && segs[i + cnt].addr == End(segs[i + cnt - 1])
  {
    hide Holds;
    if i > 0 {
      HeaderFacts(m, segs, base, brk, first, last, i - 1);
    }
    if i + cnt < |segs| {
      HeaderFacts(m, segs, base, brk, first, last, i + cnt);
    }
  }

  /** Changing the fields or the payload of one segment in place. */
  lemma ReplaceOne(m: seq<int>, m': seq<int>, segs: seq<Segment>, base: nat, brk: nat, first: int, last: int, i: nat, s': Segment)
    requires Holds(m, segs, base, brk, first, last) && i < |segs|
    requires s'.addr == segs[i].addr && s'.size == segs[i].size == |s'.data|
    requires |m'| == |m|
    requires forall x :: 0 <= x < |m| && !(s'.addr <= x < End(s')) ==> m'[x] == m[x]
    requires HeaderWords(m', s', NextAddr(segs, i), PrevAddr(segs, i))
    requires m'[Payload(s')..End(s')] == s'.data
    ensures Holds(m', Splice(segs, i, 1, [s']), base, brk, first, last)
  {
    hide Holds, Splice, HeaderWords;
    HeaderFacts(m, segs, base, brk, first, last, i);
    OuterLinks(m, segs, base, brk, first, last, i, 1);
    RepresentsSplice(m, m', segs, base, brk, first, last, i, 1, [s']);
  }

  lemma CutPayload(m: seq<int>, m': seq<int>, s: Segment, n: nat)
    requires n + HEADER < s.size == |s.data| && End(s) <= |m| == |m'| && m[Payload(s)..End(s)] == s.data
    requires forall x :: Payload(s) <= x < Payload(s) + n || Payload(s) + n + HEADER <= x < End(s) ==> m'[x] == m[x]
    ensures m'[Payload(s)..Payload(s) + n] == HeadPart(s, n).data
    ensures m'[Payload(s) + n + HEADER..End(s)] == TailPart(s, n).data
  {
    assert s.data[..n] == m[Payload(s)..Payload(s) + n];
    assert s.data[n + HEADER..] == m[Payload(s) + n + HEADER..End(s)];
  }

  lemma CutCovers(segs: seq<Segment>, i: nat, n: nat)
    requires i < |segs| && n + HEADER < segs[i].size == |segs[i].data|
    ensures Covers(segs, i, 1, [HeadPart(segs[i], n), TailPart(segs[i], n)])
  {
  }

  /** Cutting segment i in two. */
  lemma CutInTwo(m: seq<int>, m': seq<int>, segs: seq<Segment>, base: nat, brk: nat, first: int, last: int, i: nat, n: nat)
    requires Holds(m, segs, base, brk, first, last) && i < |segs|
    requires n + HEADER < segs[i].size == |segs[i].data|
    requires |m'| == |m|
    requires var s, t := HeadPart(segs[i], n), TailPart(segs[i], n);
             && HeaderWords(m', s, t.addr, PrevAddr(segs, i)) && HeaderWords(m', t, NextAddr(segs, i), s.addr)
             && (i + 1 < |segs| ==> WordIs(m', segs[i + 1].addr + PREV, t.addr))
             && (forall x :: 0 <= x < |m| && !(s.addr <= x < Payload(s)) && !(t.addr <= x < Payload(t))
                             && !(i + 1 < |segs| && x == segs[i + 1].addr + PREV)
                   ==> m'[x] == m[x])
    ensures Holds(m', SplitAt(segs, i, n), base, brk, first, if i + 1 == |segs| then TailPart(segs[i], n).addr else last)
  {
    hide Holds, Splice, HeaderWords, Marker, Pack, GetSize, GetUsed, Covers;
    InMemory(m, segs, base, brk, first, last, i);
    HoldsInside(m, segs, base, brk, first, last, i);
    OuterLinks(m, segs, base, brk, first, last, i, 1);
    CutPayload(m, m', segs[i], n);
    CutCovers(segs, i, n);
    var mid := [HeadPart(segs[i], n), TailPart(segs[i], n)];
    assert MidAt(m', segs, i, 1, mid, 0) && MidAt(m', segs, i, 1, mid, 1);
    hide MidAt;
    RepresentsSplice(m, m', segs, base, brk, first, last, i, 1, mid);
  }

  /** Nothing changed outside [lo, hi), except at one link. */
  ghost predicate SameOutside(m: seq<int>, m': seq<int>, lo: int, hi: int, link: int) {
    |m'| == |m| && forall x :: 0 <= x < |m| && !(lo <= x < hi) && x != link ==> m'[x] == m[x]
  }

  /** m' is m with segments i and i + 1 joined, d being the words of the joint payload. */
  ghost predicate JointWords(m: seq<int>, m': seq<int>, segs: seq<Segment>, i: nat, d: seq<int>)
    requires i + 1 < |segs|
  {
    var s := Joint(segs[i], segs[i + 1], d);
    && |m'| == |m|
    && HeaderWords(m', s, NextAddr(segs, i + 1), PrevAddr(segs, i))
    && d == m'[Payload(s)..End(s)]
    && (i + 2 < |segs| ==> WordIs(m', segs[i + 2].addr + PREV, s.addr))
    && SameOutside(m, m', s.addr, End(s), if i + 2 < |segs| then segs[i + 2].addr + PREV else -1)
  }

  /** Joining segment i with the one after it, leaving whatever words d are there as payload. */
  lemma JoinTwo(m: seq<int>, m': seq<int>, segs: seq<Segment>, base: nat, brk: nat, first: int, last: int, i: nat, d: seq<int>)
    requires Holds(m, segs, base, brk, first, last) && i + 1 < |segs|
    requires JointWords(m, m', segs, i, d)
    ensures Holds(m', JoinAt(segs, i, d), base, brk, first, if i + 2 == |segs| then segs[i].addr else last)
  {
    hide Holds, Splice, HeaderWords;
    HeaderFacts(m, segs, base, brk, first, last, i);
    HeaderFacts(m, segs, base, brk, first, last, i + 1);
    OuterLinks(m, segs, base, brk, first, last, i, 2);
    RepresentsSplice(m, m', segs, base, brk, first, last, i, 2, [Joint(segs[i], segs[i + 1], d)]);
  }

  // ---------------------------------------------------------------------
  // One step of the list code after the other, as changes of the memory words
  // ---------------------------------------------------------------------

  lemma Prefix(m: seq<int>, lo: nat, hi: nat, n: nat)
    requires lo + n <= hi <= |m|
    ensures m[lo..hi][..n] == m[lo..lo + n]
  {
  }

  lemma HoldsEnds(m: seq<int>, segs: seq<Segment>, base: nat, brk: nat, first: int, last: int)
    requires Holds(m, segs, base, brk, first, last)
    ensures |segs| > 0 && first == segs[0].addr && last == segs[|segs| - 1].addr && |m| == brk
  {
  }

  lemma HoldsSized(m: seq<int>, segs: seq<Segment>, base: nat, brk: nat, first: int, last: int)
    requires Holds(m, segs, base, brk, first, last)
    ensures Sized(segs)
  {
  }

  /** `first` and `last` each point at one segment only. */
  lemma EndPointers(m: seq<int>, segs: seq<Segment>, base: nat, brk: nat, first: int, last: int, i: nat)
    requires Holds(m, segs, base, brk, first, last) && i < |segs|
    ensures segs[i].addr == last <==> i + 1 == |segs|
    ensures segs[i].addr == first <==> i == 0
  {
    Inside(segs, base, brk);
  }

  lemma FillKeepsAddress(segs: seq<Segment>, k: nat, n: nat)
    requires k < |segs| && n <= segs[k].size == |segs[k].data|
    ensures k < |FillAt(ClearAt(segs, k, n), k, n)| && FillAt(ClearAt(segs, k, n), k, n)[k].addr == segs[k].addr
  {
  }

  /** Where the freed segment sits and what it holds. */
  ghost predicate FreeShape(segs: seq<Segment>, i: nat, calledBy: nat)
    requires i < |segs|
  {
    var lo := FreeLow(segs, i);
    var r := FreeAt(segs, i, calledBy);
    && lo < |r| && |r| == |FreeAt(segs, i, 0)| && r[lo].addr == segs[lo].addr && AllZero(r[lo].data)
    && (lo < i ==> r[lo].size >= segs[lo].size + HEADER + segs[i].size)
  }

  lemma FreeShapes(segs: seq<Segment>, i: nat, calledBy: nat)
    requires i < |segs|
    ensures FreeShape(segs, i, calledBy)
  {
  }

  lemma MergeKeepsAddress(segs: seq<Segment>, i: nat)
    requires i + 1 < |segs|
    ensures i < |MergeAt(segs, i)| && MergeAt(segs, i)[i].addr == segs[i].addr
  {
  }

  lemma FirstLeast(m: seq<int>, segs: seq<Segment>, base: nat, brk: nat, first: int, last: int, i: nat)
    requires Holds(m, segs, base, brk, first, last) && i < |segs|
    ensures first <= segs[i].addr
  {
    Inside(segs, base, brk);
  }

  /** After a move at least the new block is left, so freeing the old one cannot collapse the heap. */
  lemma UsedRemains(segs: seq<Segment>, k: nat, n: nat, i: nat, j: nat, calledBy: nat)
    requires Sized(segs) && k < |segs| && i < |segs| && i != k && segs[i].used && segs[i].size < n <= segs[k].size
    requires j == MovedIndex(segs, k, n, i)
    ensures Release(CopyStep(segs, k, n, i), j, calledBy).Done?
  {
    AllocShape(segs, k, n, i);
    var c := CopyStep(segs, k, n, i);
    assert c[k].used by {
      assert c[k] == AllocAt(segs, k, n)[k].(data := c[k].data);
    }
    UsedOutside(c, j, k, calledBy);
  }

  lemma UsedOutside(c: seq<Segment>, j: nat, k: nat, calledBy: nat)
    requires j < |c| && k < |c| && j != k && c[k].used
    ensures |FreeAt(c, j, calledBy)| > 1
  {
  }

  lemma MovePanics(segs: seq<Segment>, i: nat, n: nat, calledBy: nat)
    requires Sized(segs) && i < |segs| && segs[i].used && segs[i].size < n
    ensures Move(segs, i, n, calledBy).Panic? <==> Allocate(segs, n).Panic?
  {
  }

  lemma InMemory(m: seq<int>, segs: seq<Segment>, base: nat, brk: nat, first: int, last: int, i: nat)
    requires Holds(m, segs, base, brk, first, last) && i < |segs|
    ensures HeaderWords(m, segs[i], NextAddr(segs, i), PrevAddr(segs, i)) && m[Payload(segs[i])..End(segs[i])] == segs[i].data
    ensures |segs[i].data| == segs[i].size && 8 * segs[i].size < USED_FLAG
  {
    hide Holds, HeaderWords;
    HeaderFacts(m, segs, base, brk, first, last, i);
    HeaderIs(m, segs, base, brk, first, last, i);
  }

  lemma MarkHolds(m: seq<int>, segs: seq<Segment>, base: nat, brk: nat, first: int, last: int, i: nat, used: bool)
    requires Holds(m, segs, base, brk, first, last) && i < |segs| && segs[i].addr + SIZE_FLAG < |m|
    ensures Holds(m[segs[i].addr + SIZE_FLAG := SetUsed(m[segs[i].addr + SIZE_FLAG], used)],
                  MarkAt(segs, i, used), base, brk, first, last)
  {
    hide Holds, Splice, Marker, Pack, GetSize, GetUsed, SetSize, SetUsed;
    InMemory(m, segs, base, brk, first, last, i);
    var s := segs[i];
    Packing(s.size, s.used, s.size, used);
    var m' := m[s.addr + SIZE_FLAG := SetUsed(m[s.addr + SIZE_FLAG], used)];
    SameWords(m, m', Payload(s), End(s));
    ReplaceOne(m, m', segs, base, brk, first, last, i, s.(used := used));
  }

  lemma StampHolds(m: seq<int>, segs: seq<Segment>, base: nat, brk: nat, first: int, last: int, i: nat, calledBy: nat)
    requires Holds(m, segs, base, brk, first, last) && i < |segs| && segs[i].addr + FREED_AT < |m|
    ensures Holds(m[segs[i].addr + FREED_AT := calledBy], StampAt(segs, i, calledBy), base, brk, first, last)
  {
    hide Holds, Splice, Marker, Pack, GetSize, GetUsed, SetSize, SetUsed;
    InMemory(m, segs, base, brk, first, last, i);
    var s := segs[i];
    var m' := m[s.addr + FREED_AT := calledBy];
    SameWords(m, m', Payload(s), End(s));
    ReplaceOne(m, m', segs, base, brk, first, last, i, s.(freedAt := calledBy));
  }

  /** m' is m with n words from p on replaced by d. */
  ghost predicate Overwritten(m: seq<int>, m': seq<int>, p: nat, d: seq<int>) {
    && p + |d| <= |m| == |m'|
    && (forall k :: 0 <= k < |d| ==> m'[p + k] == d[k])
    && (forall x :: 0 <= x < |m| && !(p <= x < p + |d|) ==> m'[x] == m[x])
  }

  lemma OverwrittenWords(m: seq<int>, m': seq<int>, p: nat, end: nat, d: seq<int>)
    requires Overwritten(m, m', p, d) && p + |d| <= end <= |m|
    ensures m'[p..end] == d + m[p..end][|d|..]
  {
    assert m'[p..p + |d|] == d;
    assert m'[p + |d|..end] == m[p..end][|d|..];
  }

  lemma CopyHolds(m: seq<int>, m': seq<int>, segs: seq<Segment>, base: nat, brk: nat, first: int, last: int, i: nat, d: seq<int>)
    requires Holds(m, segs, base, brk, first, last) && i < |segs| && |d| <= |segs[i].data|
    requires Overwritten(m, m', Payload(segs[i]), d)
    ensures Holds(m', CopyInto(segs, i, d), base, brk, first, last)
  {
    hide Holds, Splice, Marker, Pack, GetSize, GetUsed;
    InMemory(m, segs, base, brk, first, last, i);
    var s := segs[i];
    var s' := s.(data := d + s.data[|d|..]);
    OverwrittenWords(m, m', Payload(s), End(s), d);
    ReplaceOne(m, m', segs, base, brk, first, last, i, s');
  }

  /** Storing one word, as overwriting the payload up to it. */
  lemma StoredWord(m: seq<int>, p: nat, data: seq<int>, off: nat, v: int)
    requires off < |data| && p + |data| <= |m| && m[p..p + |data|] == data
    ensures Overwritten(m, m[p + off := v], p, data[..off] + [v])
  {
    assert forall k :: 0 <= k < off ==> m[p + k] == data[k];
  }

  /** The words that change when `thisOne` is shrunk to n words and its tail becomes a listed free segment. */
  ghost predicate Carved(m: seq<int>, m': seq<int>, thisOne: nat, n: nat, spaceLeft: nat) {
    var t := thisOne + HEADER + n;
    && spaceLeft > HEADER && t + spaceLeft <= |m| == |m'|
    && var next := m[thisOne + NEXT];
    && (next == 0 || t + spaceLeft <= next <= |m| - HEADER)
    && m'[t + MARKER] == Marker(t) && m'[t + NEXT] == next && m'[t + PREV] == thisOne
    && m'[t + FREED_AT] == 0 && m'[t + SIZE_FLAG] == Pack(spaceLeft - HEADER, false)
    && (next != 0 ==> m'[next + PREV] == t)
    && m'[thisOne + NEXT] == t
    && m'[thisOne + SIZE_FLAG] == SetSize(m[thisOne + SIZE_FLAG], n)
    && forall x :: 0 <= x < |m| && !(t <= x < t + HEADER) && x != thisOne + NEXT && x != thisOne + SIZE_FLAG
                   && !(next != 0 && x == next + PREV)
         ==> m'[x] == m[x]
  }

  lemma SplitHolds(m: seq<int>, m': seq<int>, segs: seq<Segment>, base: nat, brk: nat, first: int, last: int, i: nat, n: nat)
    requires Holds(m, segs, base, brk, first, last) && i < |segs|
    requires n + HEADER < segs[i].size == |segs[i].data|
    requires Carved(m, m', segs[i].addr, n, segs[i].size - n)
    ensures Holds(m', SplitAt(segs, i, n), base, brk, first,
                  if i + 1 == |segs| then Payload(segs[i]) + n else last)
    ensures m'[Payload(segs[i]) + n + NEXT] == NextAddr(segs, i)
  {
    hide Holds, SplitAt, HeaderWords, GetSize, GetUsed;
    HeaderFacts(m, segs, base, brk, first, last, i);
    HeaderIs(m, segs, base, brk, first, last, i);
    CarvedHeaders(m, m', segs[i], n, NextAddr(segs, i), PrevAddr(segs, i));
    CutInTwo(m, m', segs, base, brk, first, last, i, n);
  }

  lemma HeaderIs(m: seq<int>, segs: seq<Segment>, base: nat, brk: nat, first: int, last: int, i: nat)
    requires Holds(m, segs, base, brk, first, last) && i < |segs|
    ensures HeaderWords(m, segs[i], NextAddr(segs, i), PrevAddr(segs, i))
  {
    assert HeaderAt(m, segs, i);
  }

  /** The headers of the two parts. */
  lemma CarvedHeaders(m: seq<int>, m': seq<int>, s: Segment, n: nat, next: nat, prev: nat)
    requires n + HEADER < s.size == |s.data| && 8 * s.size < USED_FLAG
    requires HeaderWords(m, s, next, prev) && Carved(m, m', s.addr, n, s.size - n)
    ensures HeaderWords(m', HeadPart(s, n), TailPart(s, n).addr, prev)
    ensures HeaderWords(m', TailPart(s, n), next, s.addr)
  {
    hide Marker, Pack, GetSize, GetUsed, SetSize;
    Packing(s.size, s.used, n, true);
  }

  /** The words that change when the list drops segment b, its predecessor a taking over its space. */
  ghost predicate Joined(m: seq<int>, m': seq<int>, a: nat, b: nat, brk: nat, wipe: bool) {
    && a + HEADER <= b && b + HEADER <= brk == |m| == |m'|
    && var next := m[b + NEXT];
    && (next == 0 || b + HEADER <= next <= |m| - HEADER)
    && m'[a + SIZE_FLAG] == SetSize(m[a + SIZE_FLAG], GetSize(m[a + SIZE_FLAG]) + (if next == 0 then brk - b else next - b))
    && m'[a + NEXT] == next
    && (next != 0 ==> m'[next + PREV] == a)
    && (wipe ==> forall x :: b <= x < b + HEADER ==> m'[x] == 0)
    && forall x :: 0 <= x < |m| && x != a + SIZE_FLAG && x != a + NEXT && !(wipe && b <= x < b + HEADER)
                   && !(next != 0 && x == next + PREV)
         ==> m'[x] == m[x]
  }

  function JoinData(m: seq<int>, segs: seq<Segment>, i: nat): (d: seq<int>)
    requires i + 1 < |segs| && Payload(segs[i]) <= End(segs[i + 1]) <= |m|
    ensures |d| == End(segs[i + 1]) - Payload(segs[i])
  {
    m[Payload(segs[i])..End(segs[i + 1])]
  }

  /** The changes of a join, seen from outside the joint segment. */
  lemma JoinedFrame(m: seq<int>, m': seq<int>, a: nat, b: nat, brk: nat, wipe: bool, end: nat)
    requires Joined(m, m', a, b, brk, wipe)
    requires end == if m[b + NEXT] == 0 then brk else m[b + NEXT]
    ensures |m'| == |m|
    ensures m[b + NEXT] != 0 ==> WordIs(m', m[b + NEXT] + PREV, a)
    ensures SameOutside(m, m', a, end, if m[b + NEXT] != 0 then m[b + NEXT] + PREV else -1)
  {
  }

  lemma JoinedHeader(m: seq<int>, m': seq<int>, s: Segment, t: Segment, d: seq<int>, brk: nat, wipe: bool, prev: nat)
    requires End(s) == t.addr && Joined(m, m', s.addr, t.addr, brk, wipe) && 8 * (brk - s.addr) < USED_FLAG
    requires HeaderWords(m, s, t.addr, prev)
    requires End(t) == if m[t.addr + NEXT] == 0 then brk else m[t.addr + NEXT]
    ensures HeaderWords(m', Joint(s, t, d), m[t.addr + NEXT], prev)
  {
    Packing(s.size, s.used, s.size + HEADER + t.size, s.used);
  }

  lemma JoinedEnds(m: seq<int>, segs: seq<Segment>, base: nat, brk: nat, first: int, last: int, i: nat)
    requires Holds(m, segs, base, brk, first, last) && i + 1 < |segs|
    ensures var s, t := segs[i], segs[i + 1];
            && End(s) == t.addr && End(t) <= brk == |m| && 8 * (brk - s.addr) < USED_FLAG
            && m[t.addr + NEXT] == NextAddr(segs, i + 1) && End(t) == (if m[t.addr + NEXT] == 0 then brk else m[t.addr + NEXT])
            && HeaderWords(m, s, t.addr, PrevAddr(segs, i))
            && (m[t.addr + NEXT] == 0 <==> i + 2 == |segs|)
  {
    hide Holds, HeaderWords, Marker, Pack, GetSize, GetUsed;
    HeaderFacts(m, segs, base, brk, first, last, i);
    HeaderFacts(m, segs, base, brk, first, last, i + 1);
    HeaderIs(m, segs, base, brk, first, last, i);
  }

  lemma HoldsInside(m: seq<int>, segs: seq<Segment>, base: nat, brk: nat, first: int, last: int, i: nat)
    requires Holds(m, segs, base, brk, first, last) && i < |segs|
    ensures 0 < base <= segs[i].addr && End(segs[i]) <= |m|
  {
    Inside(segs, base, brk);
  }

  lemma JoinedIsJoint(m: seq<int>, m': seq<int>, segs: seq<Segment>, base: nat, brk: nat, first: int, last: int, i: nat, wipe: bool)
    requires Holds(m, segs, base, brk, first, last) && i + 1 < |segs|
    requires Joined(m, m', segs[i].addr, segs[i + 1].addr, brk, wipe)
    ensures Payload(segs[i]) <= End(segs[i + 1]) <= |m'|
    ensures JointWords(m, m', segs, i, JoinData(m', segs, i))
  {
    hide Holds, Joined, Marker, Pack, GetSize, GetUsed, SetSize, HeaderWords, SameOutside;
    JoinedEnds(m, segs, base, brk, first, last, i);
    var s, t := segs[i], segs[i + 1];
    JoinedFrame(m, m', s.addr, t.addr, brk, wipe, End(t));
    var d := JoinData(m', segs, i);
    assert End(Joint(s, t, d)) == End(t) && Payload(Joint(s, t, d)) == Payload(s);
    JoinedHeader(m, m', s, t, d, brk, wipe, PrevAddr(segs, i));
  }

  lemma JoinHolds(m: seq<int>, m': seq<int>, segs: seq<Segment>, base: nat, brk: nat, first: int, last: int, i: nat, wipe: bool)
    requires Holds(m, segs, base, brk, first, last) && i + 1 < |segs|
    requires Joined(m, m', segs[i].addr, segs[i + 1].addr, brk, wipe)
    ensures Payload(segs[i]) <= End(segs[i + 1]) <= |m'|
    ensures Holds(m', JoinAt(segs, i, JoinData(m', segs, i)), base, brk, first,
                  if i + 2 == |segs| then segs[i].addr else last)
  {
    hide Holds, Joined, JointWords, JoinAt;
    JoinedIsJoint(m, m', segs, base, brk, first, last, i, wipe);
    JoinTwo(m, m', segs, base, brk, first, last, i, JoinData(m', segs, i));
  }

  /** A wiped header leaves zeros between the two payloads. */
  lemma WipedPayload(m: seq<int>, m': seq<int>, segs: seq<Segment>, base: nat, brk: nat, first: int, last: int, i: nat)
    requires Holds(m, segs, base, brk, first, last) && i + 1 < |segs|
    requires Joined(m, m', segs[i].addr, segs[i + 1].addr, brk, true)
    ensures Payload(segs[i]) <= End(segs[i + 1]) <= |m'|
    ensures JoinData(m', segs, i) == segs[i].data + Zeros(HEADER) + segs[i + 1].data
  {
    hide Holds, HeaderWords, GetSize, GetUsed, SetSize;
    JoinedEnds(m, segs, base, brk, first, last, i);
    InMemory(m, segs, base, brk, first, last, i);
    InMemory(m, segs, base, brk, first, last, i + 1);
    JoinedPayload(m, m', segs[i], segs[i + 1]);
  }

  lemma JoinedPayload(m: seq<int>, m': seq<int>, s: Segment, t: Segment)
    requires End(s) == t.addr && End(t) <= |m| == |m'|
    requires m[Payload(s)..End(s)] == s.data && m[Payload(t)..End(t)] == t.data
    requires forall x :: t.addr <= x < Payload(t) ==> m'[x] == 0
    requires forall x :: Payload(s) <= x < End(t) && !(t.addr <= x < Payload(t)) ==> m'[x] == m[x]
    ensures m'[Payload(s)..End(t)] == s.data + Zeros(HEADER) + t.data
  {
    assert m'[Payload(s)..End(s)] == s.data;
    assert m'[End(s)..Payload(t)] == Zeros(HEADER);
    assert m'[Payload(t)..End(t)] == t.data;
  }

  /** How a call of the manager ends; a failed assertion of the source stops the kernel. */
  datatype Answer = Returned(ptr: nat) | Rejected | Panicked

  // ---------------------------------------------------------------------
  // The manager
  // ---------------------------------------------------------------------

  class KernelMemoryManager {
    const mem: array<int>
    const baseBreak: nat
    const reservedMin: nat
    const kernelBreak: nat
    var first: int
    var last: int
    ghost var segs: seq<Segment>

    ghost predicate Valid()
      reads this, mem
    {
      && kernelBreak == baseBreak + reservedMin
      && Holds(mem[..], segs, baseBreak, kernelBreak, first, last)
    }

    /** What a valid heap says about one segment. */
    lemma Facts(i: nat)
      requires Valid() && i < |segs|
      ensures 0 < baseBreak <= segs[i].addr && End(segs[i]) <= kernelBreak == mem.Length && 8 * segs[i].size < USED_FLAG
      ensures |segs[i].data| == segs[i].size
      ensures mem[segs[i].addr + MARKER] == Marker(segs[i].addr)
      ensures mem[segs[i].addr + NEXT] == NextAddr(segs, i)
      ensures mem[segs[i].addr + PREV] == PrevAddr(segs, i)
      ensures mem[segs[i].addr + FREED_AT] == segs[i].freedAt
      ensures GetSize(mem[segs[i].addr + SIZE_FLAG]) == segs[i].size
      ensures GetUsed(mem[segs[i].addr + SIZE_FLAG]) == segs[i].used
      ensures mem[..][Payload(segs[i])..End(segs[i])] == segs[i].data
      ensures i + 1 < |segs| ==> 0 < End(segs[i]) == segs[i + 1].addr && End(segs[i + 1]) <= kernelBreak
      ensures i > 0 ==> 0 < segs[i - 1].addr && End(segs[i - 1]) == segs[i].addr
      ensures i + 1 == |segs| ==> End(segs[i]) == kernelBreak && segs[i].addr == last && segs[i].size > 0
      ensures i == 0 ==> segs[i].addr == first
    {
      HeaderFacts(mem[..], segs, baseBreak, kernelBreak, first, last, i);
    }

    lemma JoinFacts(i: nat)
      requires Valid() && i + 1 < |segs|
      ensures segs[i].addr + HEADER <= segs[i + 1].addr && segs[i + 1].addr + HEADER <= kernelBreak == mem.Length
      ensures End(segs[i + 1]) - Payload(segs[i]) == segs[i].size + HEADER + segs[i + 1].size
      ensures var next := mem[segs[i + 1].addr + NEXT];
              (next == 0 <==> i + 2 == |segs|) && (next == 0 || segs[i + 1].addr + HEADER <= next <= mem.Length - HEADER)
    {
      hide Holds, HeaderWords;
      JoinedEnds(mem[..], segs, baseBreak, kernelBreak, first, last, i);
      if i + 2 < |segs| {
        HoldsInside(mem[..], segs, baseBreak, kernelBreak, first, last, i + 2);
      }
    }

    /** The initial heap is one free, cleared segment. */
    constructor (start: nat, words: nat)
      requires start > 0 && words > HEADER && 8 * words < USED_FLAG
      ensures Valid() && fresh(mem)
      ensures baseBreak == start && reservedMin == words
      ensures segs == Initial(start, words)
    {
      baseBreak := start;
      reservedMin := words;
      kernelBreak := start + words;
      mem := new int[start + words](_ => 0);
      first := start;
      last := start;
      segs := Initial(start, words);
      new;
      mem[start + MARKER] := Marker(start);
      mem[start + SIZE_FLAG] := Pack(words - HEADER, false);
      assert mem[..][start + HEADER..start + words] == Zeros(words - HEADER);
      assert HeaderAt(mem[..], segs, 0);
    }

    /** First fit by following the `next` links; 0 stands for the call of `ksbrk`, which asserts. */
    method FindFreeSegment(n: nat) returns (found: int)
      requires Valid()
      ensures var k := FirstFit(segs, n); found == if k < |segs| then segs[k].addr else 0
      ensures FirstFit(segs, n) < |segs| ==> found > 0
    {
      hide Holds;
      var current := first;
      ghost var k := 0;
      assert |segs| > 0 && first == segs[0].addr && kernelBreak == mem.Length by {
        HoldsEnds(mem[..], segs, baseBreak, kernelBreak, first, last);
      }
      while current != 0
        invariant k <= |segs|
        invariant current == if k < |segs| then segs[k].addr else 0
        invariant forall j :: 0 <= j < k ==> !Fits(segs[j], n)
        decreases |segs| - k
      {
        Facts(k);
        if GetSize(mem[current + SIZE_FLAG]) >= n && !GetUsed(mem[current + SIZE_FLAG]) {
          return current;
        }
        current := mem[current + NEXT];
        k := k + 1;
      }
      if k < |segs| {
        Facts(k);
      }
      found := 0;
    }

    method Memset(p: nat, n: nat)
      requires p + n <= mem.Length
      modifies mem
      ensures Overwritten(old(mem[..]), mem[..], p, Zeros(n))
      ensures forall x :: p <= x < p + n ==> mem[x] == 0
    {
      for k := 0 to n
        invariant forall x :: p <= x < p + k ==> mem[x] == 0
        invariant forall x :: 0 <= x < mem.Length && !(p <= x < p + k) ==> mem[x] == old(mem[x])
      {
        mem[p + k] := 0;
      }
    }

    /** Copies n words between two disjoint ranges. */
    method Memcpy(to: nat, from: nat, n: nat)
      requires to + n <= mem.Length && from + n <= mem.Length && (to + n <= from || from + n <= to)
      modifies mem
      ensures Overwritten(old(mem[..]), mem[..], to, old(mem[..])[from..from + n])
    {
      ghost var d := mem[..][from..from + n];
      for k := 0 to n
        invariant forall x :: 0 <= x < k ==> mem[to + x] == d[x]
        invariant forall x :: 0 <= x < mem.Length && !(to <= x < to + k) ==> mem[x] == old(mem[x])
      {
        assert mem[from + k] == old(mem[from + k]) == d[k];
        mem[to + k] := mem[from + k];
      }
    }

    /** Placement new of a `MallocSegment`. */
    method ConstructSegment(a: nat, prev: nat, next: nat, size: nat, used: bool)
      requires a + HEADER <= mem.Length
      modifies mem
      ensures mem[a + MARKER] == Marker(a) && mem[a + NEXT] == next && mem[a + PREV] == prev
      ensures mem[a + FREED_AT] == 0 && mem[a + SIZE_FLAG] == Pack(size, used)
      ensures forall x :: 0 <= x < mem.Length && !(a <= x < a + HEADER) ==> mem[x] == old(mem[x])
    {
      mem[a + MARKER] := Marker(a);
      mem[a + NEXT] := next;
      mem[a + PREV] := prev;
      mem[a + FREED_AT] := 0;
      mem[a + ALLOC_AT] := 0;
      mem[a + SIZE_FLAG] := Pack(size, used);
    }

    /** Shrinks a segment to n words, builds the header of its tail and links it in. */
    method CarveTail(thisOne: nat, n: nat, spaceLeft: int)
      requires spaceLeft > HEADER && thisOne + HEADER + n + spaceLeft <= mem.Length
      requires mem[thisOne + NEXT] == 0 || thisOne + HEADER + n + spaceLeft <= mem[thisOne + NEXT] <= mem.Length - HEADER
      modifies mem
      ensures Carved(old(mem[..]), mem[..], thisOne, n, spaceLeft)
    {
      mem[thisOne + SIZE_FLAG] := SetSize(mem[thisOne + SIZE_FLAG], n);
      var newSegment, next := thisOne + HEADER + n, mem[thisOne + NEXT];
      ConstructSegment(newSegment, thisOne, next, spaceLeft - HEADER, false);
      if next != 0 {
        mem[next + PREV] := newSegment;
      }
      mem[thisOne + NEXT] := newSegment;
    }

    /** The zero check of `fillSegment`: clears dirty words, but stops the kernel when the
        segment was released by `freeMemory` and written to afterwards. */
    method ZeroCheck(p: nat, n: nat, freedAt: int) returns (ok: bool)
      requires p + n <= mem.Length
      modifies mem
      ensures ok <==> freedAt == 0 || AllZero(old(mem[..])[p..p + n])
      ensures ok ==> Overwritten(old(mem[..]), mem[..], p, Zeros(n))
    {
      ghost var d := mem[..][p..p + n];
      for k := 0 to n
        invariant forall x :: p <= x < p + k ==> mem[x] == 0
        invariant forall x :: 0 <= x < mem.Length && !(p <= x < p + k) ==> mem[x] == old(mem[x])
        invariant freedAt == 0 || forall x :: 0 <= x < k ==> d[x] == 0
      {
        assert d[k] == mem[p + k];
        if mem[p + k] != 0 {
          if freedAt != 0 {
            return false;
          }
          mem[p + k] := 0;
        }
      }
      ok := true;
    }

    /** setUsed on a listed segment. */
    method SetUsedFlag(thisOne: int, used: bool, ghost i: nat)
      requires Valid() && i < |segs| && segs[i].addr == thisOne
      modifies this`segs, mem
      ensures Valid() && segs == MarkAt(old(segs), i, used)
    {
      hide Holds;
      Facts(i);
      ghost var m := mem[..];
      mem[thisOne + SIZE_FLAG] := SetUsed(mem[thisOne + SIZE_FLAG], used);
      assert mem[..] == m[thisOne + SIZE_FLAG := SetUsed(m[thisOne + SIZE_FLAG], used)];
      MarkHolds(m, segs, baseBreak, kernelBreak, first, last, i, used);
      segs := MarkAt(segs, i, used);
    }

    method SetFreedAt(thisOne: int, calledBy: nat, ghost i: nat)
      requires Valid() && i < |segs| && segs[i].addr == thisOne
      modifies this`segs, mem
      ensures Valid() && segs == StampAt(old(segs), i, calledBy)
    {
      hide Holds;
      Facts(i);
      ghost var m := mem[..];
      mem[thisOne + FREED_AT] := calledBy;
      assert mem[..] == m[thisOne + FREED_AT := calledBy];
      StampHolds(m, segs, baseBreak, kernelBreak, first, last, i, calledBy);
      segs := StampAt(segs, i, calledBy);
    }

    /** Cuts the tail of a segment off as a free segment. */
    method SplitSegment(thisOne: int, n: nat, spaceLeft: int, ghost i: nat)
      requires Valid() && i < |segs| && segs[i].addr == thisOne
      requires segs[i].size == n + spaceLeft == |segs[i].data| && spaceLeft > HEADER
      modifies this, mem
      ensures Valid() && segs == SplitAt(old(segs), i, n)
    {
      hide Holds, Carved, SplitAt;
      Facts(i);
      ghost var m := mem[..];
      CarveTail(thisOne, n, spaceLeft);
      SplitHolds(m, mem[..], segs, baseBreak, kernelBreak, first, last, i, n);
      if mem[thisOne + HEADER + n + NEXT] == 0 {
        last := thisOne + HEADER + n;
      }
      segs := SplitAt(segs, i, n);
    }

    /** The zero check applied to a listed segment. */
    method CheckZero(thisOne: int, n: nat, ghost i: nat) returns (ok: bool)
      requires Valid() && i < |segs| && segs[i].addr == thisOne && n <= segs[i].size == |segs[i].data|
      modifies this`segs, mem
      ensures ok <==> old(segs)[i].freedAt == 0 || AllZero(old(segs)[i].data[..n])
      ensures ok ==> Valid() && segs == ClearAt(old(segs), i, n)
    {
      hide Holds, Overwritten;
      Facts(i);
      ghost var s, m := segs[i], mem[..];
      Prefix(m, Payload(s), End(s), n);
      ok := ZeroCheck(thisOne + HEADER, n, mem[thisOne + FREED_AT]);
      if ok {
        CopyHolds(m, mem[..], segs, baseBreak, kernelBreak, first, last, i, Zeros(n));
        segs := ClearAt(segs, i, n);
      }
    }

    /** Marks a segment used and splits off its tail when a header and more still fit.
        The answer is false exactly when the zero check would stop the kernel. */
    method FillSegment(thisOne: int, n: nat, zeroCheck: bool, ghost i: nat) returns (ok: bool)
      requires Valid() && i < |segs| && segs[i].addr == thisOne && n <= segs[i].size == |segs[i].data|
      modifies this, mem
      ensures ok <==> !zeroCheck || old(segs)[i].freedAt == 0 || AllZero(old(segs)[i].data[..n])
      ensures ok ==> Valid() && segs == FillAt(if zeroCheck then ClearAt(old(segs), i, n) else old(segs), i, n)
    {
      hide Holds, SplitAt, AllZero;
      ok := true;
      if zeroCheck {
        ok := CheckZero(thisOne, n, i);
      }
      if ok {
        Facts(i);
        var spaceLeft := GetSize(mem[thisOne + SIZE_FLAG]) - n;
        SetUsedFlag(thisOne, true, i);
        if spaceLeft > HEADER {
          SplitSegment(thisOne, n, spaceLeft, i);
        }
      }
    }

    /** Drops header b from the list, its predecessor a taking over the space. */
    method Unlink(a: nat, b: nat, wipe: bool)
      requires a + HEADER <= b && b + HEADER <= kernelBreak == mem.Length
      requires mem[b + NEXT] == 0 || b + HEADER <= mem[b + NEXT] <= mem.Length - HEADER
      modifies mem
      ensures Joined(old(mem[..]), mem[..], a, b, kernelBreak, wipe)
    {
      var next := mem[b + NEXT];
      var trueSize := if next == 0 then kernelBreak - b else next - b;
      mem[a + SIZE_FLAG] := SetSize(mem[a + SIZE_FLAG], GetSize(mem[a + SIZE_FLAG]) + trueSize);
      mem[a + NEXT] := next;
      if next != 0 {
        mem[next + PREV] := a;
      }
      if wipe {
        Memset(b, HEADER);
      }
    }

    /** Joins segment i with the one after it; `last` follows when that one was the last. */
    method JoinWithNext(a: nat, b: nat, wipe: bool, ghost i: nat) returns (ghost d: seq<int>)
      requires Valid() && i + 1 < |segs| && segs[i].addr == a && segs[i + 1].addr == b
      modifies this, mem
      ensures Valid() && segs == JoinAt(old(segs), i, d)
      ensures |d| == old(segs)[i].size + HEADER + old(segs)[i + 1].size
      ensures wipe ==> segs == MergeAt(old(segs), i)
    {
      hide Holds, Joined, JoinAt, JoinData;
      JoinFacts(i);
      ghost var m := mem[..];
      var next := mem[b + NEXT];
      Unlink(a, b, wipe);
      ghost var m' := mem[..];
      JoinHolds(m, m', segs, baseBreak, kernelBreak, first, last, i, wipe);
      d := JoinData(m', segs, i);
      if next == 0 {
        last := a;
      }
      assert wipe ==> JoinAt(segs, i, d) == MergeAt(segs, i) by {
        if wipe {
          WipedPayload(m, m', segs, baseBreak, kernelBreak, first, old(last), i);
        }
      }
      segs := JoinAt(segs, i, d);
      assert mem[..] == m';
    }

    method MergeWithFollowingFreeSegment(thisOne: int, ghost i: nat) returns (merged: bool)
      requires Valid() && i < |segs| && segs[i].addr == thisOne
      modifies this, mem
      ensures Valid() && segs == AfterMerge(old(segs), i)
      ensures merged <==> i + 1 < |old(segs)| && !old(segs)[i + 1].used
    {
      hide Holds, JoinAt;
      Facts(i);
      merged := false;
      if mem[thisOne + NEXT] != 0 {
        Facts(i + 1);
        var nextOne := mem[thisOne + NEXT];
        if !GetUsed(mem[nextOne + SIZE_FLAG]) {
          ghost var d := JoinWithNext(thisOne, nextOne, true, i);
          merged := true;
        }
      }
    }

    /** The first part of `freeSegment`: unmark and join with a free predecessor. */
    method Premerge(thisOne: int, ghost i: nat) returns (survivor: int, ghost d: seq<int>)
      requires Valid() && i < |segs| && segs[i].addr == thisOne
      modifies this, mem
      ensures Valid() && survivor == old(segs)[FreeLow(old(segs), i)].addr
      ensures FreeLow(old(segs), i) < i ==> |d| == old(segs)[i - 1].size + HEADER + old(segs)[i].size
      ensures segs == AfterPremerge(old(segs), i, d)
    {
      hide Holds, Marker, GetSize, GetUsed, JoinAt;
      SetUsedFlag(thisOne, false, i);
      Facts(i);
      survivor := thisOne;
      d := [];
      if mem[thisOne + PREV] != 0 {
        Facts(i - 1);
        var previousOne := mem[thisOne + PREV];
        if !GetUsed(mem[previousOne + SIZE_FLAG]) {
          d := JoinWithNext(previousOne, thisOne, false, i - 1);
          survivor := previousOne;
        }
      }
    }

    /** The answer is false exactly when one free segment would remain: then the source asks
        `ksbrk` to shrink the heap, which a fixed heap answers with a failed assertion. */
    method FreeSegment(thisOne: int, ghost i: nat) returns (ok: bool)
      requires Valid() && i < |segs| && segs[i].addr == thisOne && segs[i].used
      modifies this, mem
      ensures Valid() && segs == FreeAt(old(segs), i, old(segs)[i].freedAt)
      ensures ok <==> |segs| > 1
    {
      hide Holds, Overwritten, AfterPremerge, AfterMerge;
      ghost var lo := FreeLow(segs, i);
      HoldsSized(mem[..], segs, baseBreak, kernelBreak, first, last);
      ghost var s0 := segs;
      var survivor: int;
      ghost var d;
      survivor, d := Premerge(thisOne, i);
      PremergeShape(s0, i, d);
      FreeInSteps(s0, i, d);
      var merged := MergeWithFollowingFreeSegment(survivor, lo);
      Facts(lo);
      ghost var m := mem[..];
      Memset(survivor + HEADER, GetSize(mem[survivor + SIZE_FLAG]));
      CopyHolds(m, mem[..], segs, baseBreak, kernelBreak, first, last, lo, Zeros(segs[lo].size));
      segs := ClearAt(segs, lo, segs[lo].size);
      ok := ChangeBreak(survivor, lo);
    }

    /** The end of `freeSegment`; false stands for a call of `ksbrk`. */
    method ChangeBreak(thisOne: int, ghost i: nat) returns (ok: bool)
      requires Valid() && i < |segs| && segs[i].addr == thisOne
      ensures ok <==> |segs| > 1
    {
      hide Holds;
      Facts(i);
      Facts(0);
      ok := true;
      assert (thisOne == last) == (i + 1 == |segs|) by {
        EndPointers(mem[..], segs, baseBreak, kernelBreak, first, last, i);
      }
      assert (thisOne == first) == (i == 0) by {
        EndPointers(mem[..], segs, baseBreak, kernelBreak, first, last, i);
      }
      if thisOne == last {
        if thisOne != first {
          if thisOne > baseBreak + reservedMin {
            ok := false;
          } else if thisOne + HEADER + GetSize(mem[thisOne + SIZE_FLAG]) <= baseBreak + reservedMin {
            // the segment lies below the reserved minimum
          } else {
            ok := false;
          }
        } else if GetSize(mem[thisOne + SIZE_FLAG]) - reservedMin != 0 {
          ok := false;
        }
      }
    }

    // -------------------------------------------------------------------
    // The calls of the kernel
    // -------------------------------------------------------------------

    /** Valid, and everything released is still zero. */
    ghost predicate Sound()
      reads this, mem
    {
      Valid() && AllClean(segs)
    }

    lemma Shape()
      requires Valid()
      ensures WellFormed(segs, baseBreak, kernelBreak) && Sized(segs)
    {
    }

    /** 0 stands for the failed assertion "Kernel Heap is out of memory"; the assertion of the
        zero check cannot fail. */
    method PrivateAllocateMemory(n: nat) returns (p: int)
      requires Sound()
      modifies this, mem
      ensures Sound()
      ensures p >= 0 && (p == 0 <==> Allocate(old(segs), n).Panic?)
      ensures p != 0 ==> Allocate(old(segs), n) == Done(segs, p)
      ensures p == 0 ==> segs == old(segs)
    {
      hide Holds, AllClean, WellFormed, Sized, FillAt, ClearAt;
      Shape();
      var newPointer := FindFreeSegment(n);
      if newPointer == 0 {
        return 0;
      }
      ghost var k, s0 := FirstFit(segs, n), segs;
      Facts(k);
      AllocClean(segs, baseBreak, kernelBreak, k, n);
      var ok := FillSegment(newPointer, n, true, k);
      assert segs[k].addr == newPointer by {
        FillKeepsAddress(s0, k, n);
      }
      SetFreedAt(newPointer, 0, k);
      p := newPointer + HEADER;
    }

    /** The answer and the new layout are those of a call in a run. */
    ghost predicate Performs(was: seq<Segment>, c: Call, answer: Answer)
      reads this, mem
    {
      && Sized(was)
      && (answer.Panicked? <==> Step(was, c).Panic?)
      && (!answer.Panicked? ==> Sound() && Step(was, c) == Done(segs, if answer.Rejected? then 0 else answer.ptr))
    }

    method AllocateMemory(requestedSize: nat) returns (answer: Answer)
      requires Sound()
      modifies this, mem
      ensures Sound() && (answer.Panicked? ==> segs == old(segs))
      ensures if TooMuch(requestedSize) then answer.Panicked? else Performs(old(segs), Alloc(RoundUp(requestedSize)), answer)
      ensures answer.Panicked? <==> TooMuch(requestedSize) || !SomeFits(old(segs), RoundUp(requestedSize))
      ensures !answer.Panicked? ==> answer.Returned? && answer.ptr > 0
                                    && AddsBlock(old(segs), segs, answer.ptr, RoundUp(requestedSize))
      ensures !answer.Panicked? ==>
                exists k: nat :: FirstThatFits(old(segs), RoundUp(requestedSize), k) && answer.ptr == Payload(old(segs)[k])
    {
      hide Holds, AllClean, WellFormed, Sized, AddsBlock, RoundUp, Allocate, SomeFits, FirstThatFits;
      if TooMuch(requestedSize) {
        return Panicked;
      }
      Shape();
      AllocateStopsIff(segs, RoundUp(requestedSize));
      ghost var s0 := segs;
      var p := PrivateAllocateMemory(RoundUp(requestedSize));
      if p == 0 {
        return Panicked;
      }
      AllocateAdds(s0, baseBreak, kernelBreak, RoundUp(requestedSize));
      AllocateFirst(s0, RoundUp(requestedSize));
      answer := Returned(p);
    }

    /** The header of a freed block is still there unless it was merged into its predecessor. */
    lemma MarkerAfterFree(s0: seq<Segment>, i: nat, freedAt: nat, a: nat)
      requires Valid() && i < |s0| && segs == FreeAt(s0, i, freedAt) && FreeShape(s0, i, freedAt) && a == s0[i].addr
      requires FreeLow(s0, i) < i ==> End(s0[i - 1]) == a
      ensures a + HEADER <= kernelBreak == mem.Length
      ensures mem[a + MARKER] == Marker(a) <==> FreeLow(s0, i) == i
      ensures FreeLow(s0, i) == i ==> i < |segs| && segs[i].addr == a
    {
      hide Holds, FreeAt, GetSize, GetUsed;
      var lo := FreeLow(s0, i);
      Facts(lo);
      if lo < i {
        assert mem[a] == mem[..][Payload(segs[lo])..End(segs[lo])][a - Payload(segs[lo])];
      }
    }

    /** Frees a block and stamps the free segment with the caller, unless the header of the
        block vanished into its predecessor. */
    method FreeAndStamp(mSegment: int, calledBy: nat, ghost i: nat) returns (ok: bool)
      requires Sound() && i < |segs| && segs[i].addr == mSegment && segs[i].used
      modifies this, mem
      ensures ok <==> Release(old(segs), i, calledBy).Done?
      ensures ok ==> Sound() && segs == FreeAt(old(segs), i, calledBy)
    {
      hide Holds, AllClean, FreeAt, GetSize, GetUsed;
      ghost var s0 := segs;
      Facts(i);
      assert FreeShape(s0, i, s0[i].freedAt) && FreeShape(s0, i, calledBy) by {
        FreeShapes(s0, i, s0[i].freedAt);
        FreeShapes(s0, i, calledBy);
      }
      ok := FreeSegment(mSegment, i);
      if ok {
        StampFreed(s0, i, calledBy);
        FreeClean(s0, i, calledBy);
        MarkerAfterFree(s0, i, s0[i].freedAt, mSegment);
        if mSegment < kernelBreak && mem[mSegment + MARKER] == Marker(mSegment) {
          SetFreedAt(mSegment, calledBy, i);
        }
      }
    }

    /** Pointers that the calls reject. */
    ghost predicate Outside(p: nat)
      reads this
    {
      p == 0 || p < first || p >= kernelBreak
    }

    /** No marker stands where the header of the block would be. */
    ghost predicate NoMarker(p: nat)
      reads this, mem
    {
      HEADER <= p <= mem.Length && mem[p - HEADER + MARKER] != Marker(p - HEADER)
    }

    /** A marker stands there, of a segment that is not in use. */
    ghost predicate FreedBefore(p: nat)
      reads this, mem
    {
      HEADER <= p <= mem.Length && !NoMarker(p) && !GetUsed(mem[p - HEADER + SIZE_FLAG])
    }

    /** A release stops the kernel. */
    ghost predicate ReleaseStops(p: nat)
      reads this, mem
    {
      !Outside(p) && (NoMarker(p) || FreedBefore(p))
    }

    /** Everything but words inside a payload that look like the header of a used segment: those the
        source takes for one. */
    ghost predicate Freeable(p: nat)
      reads this, mem
    {
      Outside(p) || Live(segs, p) || ReleaseStops(p)
    }

    /** A live pointer has a marker and a used flag. */
    lemma LiveHeader(p: nat)
      requires Valid() && Live(segs, p)
      ensures !Outside(p) && !NoMarker(p) && !FreedBefore(p) && HEADER <= p <= mem.Length
    {
      hide Holds, GetUsed;
      var i := LiveInside(p);
      Facts(i);
    }

    /** Live pointers lie strictly inside the heap. */
    lemma LiveInside(p: nat) returns (i: nat)
      requires Valid() && Live(segs, p)
      ensures i < |segs| && segs[i].used && Payload(segs[i]) == p
      ensures 0 < first <= segs[i].addr && p < kernelBreak
    {
      hide Holds;
      i := LiveIndex(segs, p);
      Facts(i);
      Facts(0);
      assert first <= segs[i].addr by {
        EndPointers(mem[..], segs, baseBreak, kernelBreak, first, last, i);
        FirstLeast(mem[..], segs, baseBreak, kernelBreak, first, last, i);
      }
    }

    /** Rejected when the address is outside the heap; a missing marker or a second release stops the
        kernel. */
    method FreeMemory(virtualAddress: nat, calledBy: nat) returns (answer: Answer)
      requires Sound() && Freeable(virtualAddress)
      modifies this, mem
      ensures if old(ReleaseStops(virtualAddress)) then answer.Panicked? && Sound() && segs == old(segs)
              else Performs(old(segs), Free(virtualAddress, calledBy), answer)
      ensures answer.Rejected? <==> old(Outside(virtualAddress))
      ensures answer.Rejected? ==> segs == old(segs)
      ensures var i := IndexOf(old(segs), virtualAddress);
              && (i < |old(segs)| ==> (answer.Panicked? <==> Alone(old(segs), i)))
              && (i < |old(segs)| && answer.Returned? && (i > 0 ==> old(segs)[i - 1].used) ==>
                    i < |segs| && segs[i].addr == old(segs)[i].addr && !segs[i].used && segs[i].freedAt == calledBy)
      ensures answer.Returned? ==> answer.ptr == 0 && old(Live(segs, virtualAddress)) && RemovesBlock(old(segs), segs, virtualAddress)
    {
      hide Holds, AllClean, WellFormed, RemovesBlock, Live, FreeAt, IndexOf, Alone;
      ghost var s0, i := segs, 0;
      Shape();
      IndexIffLive(segs, baseBreak, kernelBreak, virtualAddress);
      if Live(segs, virtualAddress) {
        LiveHeader(virtualAddress);
        i := LiveInside(virtualAddress);
        IndexIs(segs, baseBreak, kernelBreak, i);
      }
      if virtualAddress == 0 || virtualAddress < first || virtualAddress >= kernelBreak {
        return Rejected;
      }
      var mSegment := virtualAddress - HEADER;
      if mem[mSegment + MARKER] != Marker(mSegment) || !GetUsed(mem[mSegment + SIZE_FLAG]) {
        return Panicked;
      }
      Facts(i);
      FreeRemoves(s0, baseBreak, kernelBreak, i, calledBy);
      ReleaseStopsIff(s0, i, calledBy);
      if i > 0 ==> s0[i - 1].used {
        ReleaseStamps(s0, i, calledBy);
      }
      var ok := FreeAndStamp(mSegment, calledBy, i);
      answer := if ok then Returned(0) else Panicked;
    }

    /** Resizing in place by splitting, or by absorbing the free successor first. */
    method Refill(mSegment: int, n: nat, grow: bool, ghost i: nat)
      requires Sound() && Sized(segs) && i < |segs| && segs[i].addr == mSegment && segs[i].used
      requires if grow then segs[i].size < n && CanGrow(segs, i, n) else n < segs[i].size
      modifies this, mem
      ensures Valid() && Reallocate(old(segs), i, n, 0) == Done(segs, mSegment + HEADER)
      ensures forall calledBy :: Reallocate(old(segs), i, n, calledBy) == Done(segs, mSegment + HEADER)
    {
      hide Holds, AllClean, WellFormed, FillAt, MergeAt;
      Facts(i);
      if grow {
        GrowIs(segs, i, n);
        var merged := MergeWithFollowingFreeSegment(mSegment, i);
        assert segs[i].addr == mSegment by {
          MergeKeepsAddress(old(segs), i);
        }
      }
      var ok := FillSegment(mSegment, n, false, i);
    }

    lemma Apart(i: nat, j: nat)
      requires Valid() && i < |segs| && j < |segs| && i != j
      ensures End(segs[i]) <= segs[j].addr || End(segs[j]) <= segs[i].addr
    {
      Inside(segs, baseBreak, kernelBreak);
    }

    lemma CopyFacts(k: nat, j: nat)
      requires Valid() && k < |segs| && j < |segs| && k != j
      ensures End(segs[k]) <= segs[j].addr || End(segs[j]) <= segs[k].addr
      ensures End(segs[k]) <= mem.Length && End(segs[j]) <= mem.Length && |segs[k].data| == segs[k].size
      ensures GetSize(mem[segs[j].addr + SIZE_FLAG]) == segs[j].size == |segs[j].data|
      ensures mem[..][Payload(segs[j])..End(segs[j])] == segs[j].data
    {
      hide Holds, Marker, GetSize, GetUsed;
      Facts(k);
      Facts(j);
      Apart(k, j);
    }

    /** The copy of a moving reallocation, from block j to the new block k. */
    method CopyBlock(to: int, from: int, ghost k: nat, ghost j: nat)
      requires Sound() && k < |segs| && j < |segs| && k != j && segs[k].used
      requires to == Payload(segs[k]) && from == Payload(segs[j]) && segs[j].size <= segs[k].size
      modifies this`segs, mem
      ensures segs == CopyInto(old(segs), k, old(segs)[j].data)
      ensures Sound()
    {
      hide Holds, AllClean, Overwritten, CopyInto, Marker, GetSize, GetUsed;
      CopyFacts(k, j);
      ghost var m := mem[..];
      var size := GetSize(mem[from - HEADER + SIZE_FLAG]);
      Memcpy(to, from, size);
      CopyHolds(m, mem[..], segs, baseBreak, kernelBreak, first, last, k, segs[j].data);
      CopyClean(segs, k, segs[j].data);
      segs := CopyInto(segs, k, segs[j].data);
    }

    /** The last resort of a reallocation: a new block, a copy, and the old block freed. */
    method MoveBlock(mSegment: int, n: nat, calledBy: nat, ghost i: nat) returns (p: int)
      requires Sound() && Sized(segs) && i < |segs| && segs[i].addr == mSegment && segs[i].used && segs[i].size < n
      modifies this, mem
      ensures p >= 0 && (p == 0 <==> Move(old(segs), i, n, calledBy).Panic?)
      ensures p == 0 ==> Sound() && segs == old(segs)
      ensures p != 0 ==> Sound() && Move(old(segs), i, n, calledBy) == Done(segs, p)
    {
      hide Holds, AllClean, FreeAt, AllocAt, CopyInto, Sized;
      ghost var s0, k := segs, FirstFit(segs, n);
      p := PrivateAllocateMemory(n);
      if p == 0 {
        return;
      }
      AllocShape(s0, k, n, i);
      ghost var j := MovedIndex(s0, k, n, i);
      CopyBlock(p, mSegment + HEADER, k, j);
      CopyKeepsOld(s0, k, n, i);
      var ok := FreeAndStamp(mSegment, calledBy, j);
      assert ok by {
        UsedRemains(s0, k, n, i, j, calledBy);
      }
    }

    method ReallocateMemory(virtualAddress: nat, newSize: nat, calledBy: nat) returns (answer: Answer)
      requires Sound()
      requires if newSize == 0 then Freeable(virtualAddress)
               else virtualAddress == 0 || Live(segs, virtualAddress) || NoMarker(virtualAddress)
      modifies this, mem
      ensures if TooMuch(newSize) || old(if newSize == 0 then ReleaseStops(virtualAddress) else virtualAddress != 0 && NoMarker(virtualAddress))
              then answer.Panicked? && Sound() && segs == old(segs)
              else Performs(old(segs), Realloc(virtualAddress, RoundUp(newSize), calledBy), answer)
      ensures newSize > 0 && answer.Panicked? ==> Sound() && segs == old(segs)
      ensures answer.Returned? && newSize == 0 ==>
                answer.ptr == 0 && if old(Live(segs, virtualAddress)) then RemovesBlock(old(segs), segs, virtualAddress) else segs == old(segs)
      ensures answer.Returned? && newSize > 0 ==>
                answer.ptr > 0 && if virtualAddress == 0 then AddsBlock(old(segs), segs, answer.ptr, RoundUp(newSize))
                                  else ResizesBlock(old(segs), segs, virtualAddress, answer.ptr, RoundUp(newSize))
      ensures var i, n := IndexOf(old(segs), virtualAddress), RoundUp(newSize);
              newSize > 0 && !TooMuch(newSize) && virtualAddress != 0 && i < |old(segs)| ==>
                && (answer.Panicked? <==> !Stays(old(segs), i, n) && !SomeFits(old(segs), n))
                && (answer.Returned? ==> (answer.ptr == virtualAddress <==> Stays(old(segs), i, n)))
                && (answer.Returned? && !Stays(old(segs), i, n) ==> exists k: nat :: FirstThatFits(old(segs), n, k) && answer.ptr == Payload(old(segs)[k]))
                && (answer.Returned? && !Stays(old(segs), i, n) && (i > 0 ==> old(segs)[i - 1].used) ==>
                      exists s :: s in segs && Payload(s) == virtualAddress && !s.used && s.freedAt == calledBy)
      ensures !answer.Rejected?
    {
      hide Holds, AllClean, WellFormed, AddsBlock, RemovesBlock, ResizesBlock, Live, Reallocate, Allocate, FreeStep, IndexOf;
      hide Stays, SomeFits, Alone, FirstThatFits;
      if TooMuch(newSize) {
        return Panicked;
      }
      Shape();
      IndexIffLive(segs, baseBreak, kernelBreak, virtualAddress);
      if Live(segs, virtualAddress) {
        LiveHeader(virtualAddress);
      }
      if newSize == 0 {
        answer := FreeMemory(virtualAddress, calledBy);
        return if answer.Panicked? then Panicked else Returned(0);
      }
      if virtualAddress == 0 {
        answer := AllocateMemory(newSize);
        return;
      }
      if mem[virtualAddress - HEADER + MARKER] != Marker(virtualAddress - HEADER) {
        return Panicked;
      }
      ghost var i := LiveInside(virtualAddress);
      Facts(i);
      IndexIs(segs, baseBreak, kernelBreak, i);
      ReallocatePlace(segs, baseBreak, kernelBreak, i, RoundUp(newSize), calledBy);
      MovedWhere(segs, i, RoundUp(newSize), calledBy);
      answer := Resize(virtualAddress, RoundUp(newSize), calledBy, i);
    }

    /** The part of `reallocateMemory` under the lock. */
    method Resize(virtualAddress: nat, n: nat, calledBy: nat, ghost i: nat) returns (answer: Answer)
      requires Sound() && Sized(segs) && i < |segs| && segs[i].used && Payload(segs[i]) == virtualAddress
      modifies this, mem
      ensures Sound() && (answer.Panicked? || (answer.Returned? && answer.ptr > 0))
      ensures answer.Panicked? <==> Reallocate(old(segs), i, n, calledBy).Panic?
      ensures answer.Panicked? ==> segs == old(segs)
      ensures answer.Returned? ==> Reallocate(old(segs), i, n, calledBy) == Done(segs, answer.ptr)
                                   && ResizesBlock(old(segs), segs, virtualAddress, answer.ptr, n)
    {
      hide Holds, AllClean, WellFormed, Sized, ResizesBlock, Move, FillAt, MergeAt;
      ghost var s0 := segs;
      Facts(i);
      Shape();
      var mSegment := virtualAddress - HEADER;
      var size := GetSize(mem[mSegment + SIZE_FLAG]);
      if n == size {
        answer := Returned(virtualAddress);
      } else if n < size {
        Refill(mSegment, n, false, i);
        answer := Returned(virtualAddress);
      } else {
        var next := mem[mSegment + NEXT];
        if i + 1 < |segs| {
          Facts(i + 1);
        }
        if next != 0 && !GetUsed(mem[next + SIZE_FLAG]) && GetSize(mem[next + SIZE_FLAG]) + size >= n {
          Refill(mSegment, n, true, i);
          answer := Returned(virtualAddress);
        } else {
          var p := MoveBlock(mSegment, n, calledBy, i);
          if p == 0 {
            MovePanics(segs, i, n, calledBy);
            return Panicked;
          }
          answer := Returned(p);
        }
      }
      ReallocateResizes(s0, baseBreak, kernelBreak, i, n, calledBy);
      ReallocateClean(s0, baseBreak, kernelBreak, i, n, calledBy);
    }

    /** The owner of a block writes one of its words. */
    method StoreWord(virtualAddress: nat, off: nat, v: int, ghost i: nat)
      requires Sound() && i < |segs| && segs[i].used && Payload(segs[i]) == virtualAddress && off < segs[i].size == |segs[i].data|
      modifies this`segs, mem
      ensures Sound() && segs == StoreAt(old(segs), i, off, v)
      ensures Performs(old(segs), Store(virtualAddress, off, v), Returned(0))
    {
      hide Holds, AllClean, IndexOf, WellFormed, Sized, Overwritten;
      Shape();
      IndexIs(segs, baseBreak, kernelBreak, i);
      Facts(i);
      ghost var m, d := mem[..], segs[i].data[..off] + [v];
      mem[virtualAddress + off] := v;
      assert mem[..] == m[virtualAddress + off := v];
      StoredWord(m, virtualAddress, segs[i].data, off, v);
      CopyHolds(m, mem[..], segs, baseBreak, kernelBreak, first, last, i, d);
      CopyClean(segs, i, d);
      segs := StoreAt(segs, i, off, v);
    }
  }
}
