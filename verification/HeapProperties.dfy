/** What the heap operations mean to their callers: the heap behaves like a set of
    blocks with contents, whatever happens to the segment list underneath. */
module HeapProperties {
  import opened HeapLayout

  /** A block in the hands of a caller: its pointer and its contents. */
  datatype Block = Block(ptr: nat, data: seq<int>)

  ghost function Blocks(segs: seq<Segment>): set<Block> {
    set s | s in segs && s.used :: Block(Payload(s), s.data)
  }

  /** Is p a pointer that the heap has handed out and not taken back? */
  ghost predicate Live(segs: seq<Segment>, p: nat) {
    exists b :: b in Blocks(segs) && b.ptr == p
  }

  lemma BlocksConcat(a: seq<Segment>, b: seq<Segment>)
    ensures Blocks(a + b) == Blocks(a) + Blocks(b)
  {
  }

  lemma BlocksSplice(segs: seq<Segment>, i: nat, cnt: nat, mid: seq<Segment>)
    requires i + cnt <= |segs|
    ensures Blocks(Splice(segs, i, cnt, mid)) == Blocks(segs[..i]) + Blocks(mid) + Blocks(segs[i + cnt..])
    ensures Blocks(segs) == Blocks(segs[..i]) + Blocks(segs[i..i + cnt]) + Blocks(segs[i + cnt..])
  {
    BlocksConcat(segs[..i] + mid, segs[i + cnt..]);
    BlocksConcat(segs[..i], mid);
    assert segs == segs[..i] + segs[i..i + cnt] + segs[i + cnt..];
    BlocksConcat(segs[..i] + segs[i..i + cnt], segs[i + cnt..]);
    BlocksConcat(segs[..i], segs[i..i + cnt]);
  }

  /** No block outside segs[lo..hi] has the pointer of segment i. */
  lemma NotElsewhere(segs: seq<Segment>, base: nat, brk: nat, lo: nat, hi: nat, i: nat)
    requires WellFormed(segs, base, brk) && lo <= i < hi <= |segs|
    ensures forall b :: b in Blocks(segs[..lo]) || b in Blocks(segs[hi..]) ==> b.ptr != Payload(segs[i])
  {
    Inside(segs, base, brk);
  }

  /** A pointer determines its block. */
  lemma BlockAt(segs: seq<Segment>, base: nat, brk: nat, i: nat)
    requires WellFormed(segs, base, brk) && i < |segs|
    ensures forall b :: b in Blocks(segs) && b.ptr == Payload(segs[i]) ==> segs[i].used && b.data == segs[i].data
    ensures segs[i].used ==> Block(Payload(segs[i]), segs[i].data) in Blocks(segs)
  {
    Inside(segs, base, brk);
  }

  /** Distinct blocks occupy disjoint words inside the heap. */
  lemma BlocksDisjoint(segs: seq<Segment>, base: nat, brk: nat, b: Block, c: Block)
    requires WellFormed(segs, base, brk) && b in Blocks(segs) && c in Blocks(segs) && b != c
    ensures base + HEADER <= b.ptr && b.ptr + |b.data| <= brk
    ensures b.ptr + |b.data| + HEADER <= c.ptr || c.ptr + |c.data| + HEADER <= b.ptr
  {
    Inside(segs, base, brk);
    var i :| 0 <= i < |segs| && segs[i].used && b == Block(Payload(segs[i]), segs[i].data);
    var j :| 0 <= j < |segs| && segs[j].used && c == Block(Payload(segs[j]), segs[j].data);
  }

  /** The block has n words, or up to a header more because it ends where a segment ended before. */
  ghost predicate Snug(was: seq<Segment>, b: Block, n: nat) {
    n <= |b.data| <= n + HEADER && (|b.data| == n || exists s :: s in was && End(s) == b.ptr + |b.data|)
  }

  // ---------------------------------------------------------------------
  // Effect of each operation on the blocks
  // ---------------------------------------------------------------------

  lemma BlocksOne(s: Segment, t: Segment)
    ensures Blocks([s]) == if s.used then {Block(Payload(s), s.data)} else {}
    ensures Blocks([s, t]) == Blocks([s]) + Blocks([t])
  {
    assert [s, t] == [s] + [t];
    BlocksConcat([s], [t]);
  }

  /** Replacing a run of segments replaces its blocks and keeps all others. */
  lemma SwapBlocks(segs: seq<Segment>, base: nat, brk: nat, i: nat, cnt: nat, k: nat, mid: seq<Segment>, x: set<Block>, y: set<Block>)
    requires WellFormed(segs, base, brk) && Covers(segs, i, cnt, mid) && i <= k < i + cnt
    requires Blocks(segs[i..i + cnt]) == x && Blocks(mid) == y
    requires forall b :: b in x ==> b.ptr == Payload(segs[k])
    ensures WellFormed(Splice(segs, i, cnt, mid), base, brk)
    ensures Blocks(Splice(segs, i, cnt, mid)) == Blocks(segs) - x + y
  {
    SpliceWellFormed(segs, base, brk, i, cnt, mid);
    BlocksSplice(segs, i, cnt, mid);
    NotElsewhere(segs, base, brk, i, i + cnt, k);
    hide Blocks, WellFormed, Splice, Covers;
    var a, c := Blocks(segs[..i]), Blocks(segs[i + cnt..]);
    assert a !! x && c !! x;
    assert a + y + c == a + x + c - x + y;
  }

  /** The blocks of a run with one used segment. */
  lemma OneUsed(segs: seq<Segment>, lo: nat, hi: nat, i: nat)
    requires lo <= i < hi <= |segs| && segs[i].used
    requires forall k :: lo <= k < hi && k != i ==> !segs[k].used
    ensures Blocks(segs[lo..hi]) == {Block(Payload(segs[i]), segs[i].data)}
  {
    assert segs[lo..hi][i - lo] == segs[i];
  }

  lemma AllocMidBlocks(s: Segment, n: nat)
    requires n <= s.size == |s.data|
    ensures var mid := AllocMid(s, n); var h := mid[0];
            && h == Segment(s.addr, |h.data|, true, 0, h.data)
            && n <= |h.data| <= n + HEADER && (|h.data| == n || |h.data| == s.size) && AllZero(h.data[..n]) && (AllZero(s.data) ==> AllZero(h.data))
            && Blocks(mid) == {Block(Payload(s), h.data)}
  {
    var mid := AllocMid(s, n);
    BlocksOne(mid[0], mid[|mid| - 1]);
    BlocksOne(mid[|mid| - 1], mid[0]);
  }

  /** A free segment replaced by a used one that begins where it did, and perhaps a free tail. */
  lemma NewBlock(segs: seq<Segment>, base: nat, brk: nat, i: nat, mid: seq<Segment>, b: Block)
    requires WellFormed(segs, base, brk) && Covers(segs, i, 1, mid) && !segs[i].used
    requires Blocks(mid) == {b} && b.ptr == Payload(segs[i])
    ensures WellFormed(Splice(segs, i, 1, mid), base, brk) && Blocks(Splice(segs, i, 1, mid)) == Blocks(segs) + {b}
    ensures !Live(segs, b.ptr) && b !in Blocks(segs)
  {
    BlockAt(segs, base, brk, i);
    assert segs[i..i + 1] == [segs[i]];
    BlocksOne(segs[i], segs[i]);
    hide Blocks, WellFormed, Splice, Covers;
    SwapBlocks(segs, base, brk, i, 1, i, mid, {}, {b});
  }

  lemma AllocMidCovers(segs: seq<Segment>, base: nat, brk: nat, i: nat, n: nat)
    requires WellFormed(segs, base, brk) && i < |segs| && n <= segs[i].size
    ensures |segs[i].data| == segs[i].size && Covers(segs, i, 1, AllocMid(segs[i], n))
  {
  }

  /** Allocation adds exactly one block, at a pointer not live before, cleared for the
      requested words, and changes no other block. */
  lemma AllocBlocks(segs: seq<Segment>, base: nat, brk: nat, i: nat, n: nat) returns (b: Block)
    requires WellFormed(segs, base, brk) && i < |segs| && Fits(segs[i], n)
    ensures WellFormed(AllocAt(segs, i, n), base, brk)
    ensures b.ptr == Payload(segs[i]) && !Live(segs, b.ptr) && b !in Blocks(segs)
    ensures Blocks(AllocAt(segs, i, n)) == Blocks(segs) + {b}
    ensures Snug(segs, b, n) && AllZero(b.data[..n])
    ensures AllZero(segs[i].data) ==> AllZero(b.data)
    ensures AllocAt(segs, i, n)[i] == Segment(segs[i].addr, |b.data|, true, 0, b.data)
  {
    AllocMidCovers(segs, base, brk, i, n);
    hide WellFormed, Splice, Covers, Blocks, Live, AllocAt, AllocMid, AllZero;
    var mid := AllocMid(segs[i], n);
    AllocMidBlocks(segs[i], n);
    AllocIs(segs, i, n);
    b := Block(Payload(segs[i]), mid[0].data);
    assert segs[i] in segs;
    SpliceHead(segs, i, 1, mid);
    NewBlock(segs, base, brk, i, mid, b);
  }

  lemma SpliceHead(segs: seq<Segment>, i: nat, cnt: nat, mid: seq<Segment>)
    requires i + cnt <= |segs| && |mid| > 0
    ensures i < |Splice(segs, i, cnt, mid)| && Splice(segs, i, cnt, mid)[i] == mid[0]
  {
  }

  /** Freeing removes exactly the freed block. */
  lemma FreeBlocks(segs: seq<Segment>, base: nat, brk: nat, i: nat, calledBy: nat)
    requires WellFormed(segs, base, brk) && i < |segs| && segs[i].used
    ensures WellFormed(FreeAt(segs, i, calledBy), base, brk)
    ensures Blocks(FreeAt(segs, i, calledBy)) == Blocks(segs) - {Block(Payload(segs[i]), segs[i].data)}
  {
    var lo, hi := FreeLow(segs, i), FreeHigh(segs, i);
    var mid := [FreedSegment(segs, i, calledBy)];
    BlocksOne(mid[0], mid[0]);
    OneUsed(segs, lo, hi, i);
    FreedCovers(segs, base, brk, i, calledBy);
    hide Blocks, WellFormed, Splice, Covers;
    SwapBlocks(segs, base, brk, lo, hi - lo, i, mid, {Block(Payload(segs[i]), segs[i].data)}, {});
  }

  lemma FreedCovers(segs: seq<Segment>, base: nat, brk: nat, i: nat, calledBy: nat)
    requires WellFormed(segs, base, brk) && i < |segs|
    ensures Covers(segs, FreeLow(segs, i), FreeHigh(segs, i) - FreeLow(segs, i), [FreedSegment(segs, i, calledBy)])
  {
  }

  /** Refilling a used block keeps its pointer and its leading words and changes no other block. */
  lemma RefillBlocks(segs: seq<Segment>, base: nat, brk: nat, i: nat, cnt: nat, j: Segment, n: nat)
    requires WellFormed(segs, base, brk) && 0 < cnt && i + cnt <= |segs| && segs[i].used && j.used
    requires forall k :: i < k < i + cnt ==> !segs[k].used
    requires j.addr == segs[i].addr && End(j) == End(segs[i + cnt - 1]) && |j.data| == j.size && n <= j.size
    requires i + cnt == |segs| ==> j.size > 0
    ensures var b := Block(Payload(j), FillMid(j, n)[0].data); var r := Splice(segs, i, cnt, FillMid(j, n));
            && WellFormed(r, base, brk)
            && Blocks(r) == Blocks(segs) - {Block(Payload(segs[i]), segs[i].data)} + {b}
            && Snug(segs, b, n) && b.data == j.data[..|b.data|]
  {
    var mid := FillMid(j, n);
    BlocksOne(mid[0], mid[|mid| - 1]);
    BlocksOne(mid[|mid| - 1], mid[0]);
    OneUsed(segs, i, i + cnt, i);
    assert Covers(segs, i, cnt, mid);
    assert segs[i + cnt - 1] in segs;
    hide Blocks, WellFormed, Splice, Covers;
    SwapBlocks(segs, base, brk, i, cnt, i, mid, {Block(Payload(segs[i]), segs[i].data)}, {Block(Payload(j), mid[0].data)});
  }

  /** Overwriting the leading words of a used block changes that block only. */
  lemma CopyBlocks(segs: seq<Segment>, base: nat, brk: nat, i: nat, d: seq<int>)
    requires WellFormed(segs, base, brk) && i < |segs| && segs[i].used && |d| <= |segs[i].data|
    ensures var s := segs[i]; var r := CopyInto(segs, i, d);
            && WellFormed(r, base, brk)
            && Blocks(r) == Blocks(segs) - {Block(Payload(s), s.data)} + {Block(Payload(s), d + s.data[|d|..])}
  {
    var s := segs[i];
    var s' := s.(data := d + s.data[|d|..]);
    BlocksOne(s', s');
    OneUsed(segs, i, i + 1, i);
    assert Covers(segs, i, 1, [s']);
    hide Blocks, WellFormed, Splice, Covers;
    SwapBlocks(segs, base, brk, i, 1, i, [s'], {Block(Payload(s), s.data)}, {Block(Payload(s'), s'.data)});
  }

  /** The block b may stand for block s resized to n words. */
  ghost predicate Resized(s: Segment, b: Block, n: nat) {
    && n <= |b.data|
    && (n <= |s.data| ==> |b.data| <= |s.data| && b.data == s.data[..|b.data|])
    && (n > |s.data| ==> b.data[..|s.data|] == s.data)
  }

  lemma GrowBlocks(segs: seq<Segment>, base: nat, brk: nat, i: nat, n: nat) returns (b: Block)
    requires WellFormed(segs, base, brk) && i < |segs| && segs[i].used && segs[i].size < n && CanGrow(segs, i, n)
    ensures MergeAt(segs, i)[i].size >= n && |MergeAt(segs, i)[i].data| == MergeAt(segs, i)[i].size
    ensures var r := FillAt(MergeAt(segs, i), i, n);
            WellFormed(r, base, brk) && Blocks(r) == Blocks(segs) - {Block(Payload(segs[i]), segs[i].data)} + {b}
    ensures b.ptr == Payload(segs[i]) && Resized(segs[i], b, n) && Snug(segs, b, n)
  {
    GrowIs(segs, i, n);
    var s, t := segs[i], segs[i + 1];
    var j := Segment(s.addr, s.size + HEADER + t.size, s.used, s.freedAt, s.data + Zeros(HEADER) + t.data);
    hide Blocks, Splice, MergeAt, FillAt;
    RefillBlocks(segs, base, brk, i, 2, j, n);
    b := Block(Payload(j), FillMid(j, n)[0].data);
    hide FillMid, WellFormed;
    assert b.data[..|s.data|] == j.data[..|s.data|] == s.data;
  }

  lemma Sizes(segs: seq<Segment>, base: nat, brk: nat)
    requires WellFormed(segs, base, brk)
    ensures Sized(segs)
    ensures forall i :: 0 <= i < |segs| ==> |segs[i].data| == segs[i].size
  {
  }

  /** The first half of a move: the new block is there, holding the old words. */
  lemma CopiedBlocks(segs: seq<Segment>, base: nat, brk: nat, i: nat, n: nat, k: nat) returns (b: Block)
    requires WellFormed(segs, base, brk) && Sized(segs) && i < |segs| && segs[i].used && segs[i].size < n
    requires k < |segs| && Fits(segs[k], n)
    ensures WellFormed(CopyStep(segs, k, n, i), base, brk)
    ensures Blocks(CopyStep(segs, k, n, i)) == Blocks(segs) + {b}
    ensures b.ptr == Payload(segs[k]) && !Live(segs, b.ptr) && Resized(segs[i], b, n) && Snug(segs, b, n)
  {
    Sizes(segs, base, brk);
    hide WellFormed, Sized, Blocks, CopyInto, AllocAt, Splice;
    var b0 := AllocBlocks(segs, base, brk, k, n);
    AllocShape(segs, k, n, i);
    var a := AllocAt(segs, k, n);
    CopyBlocks(a, base, brk, k, segs[i].data);
    assert Block(Payload(a[k]), a[k].data) == b0;
    b := Block(Payload(a[k]), segs[i].data + a[k].data[|segs[i].data|..]);
    SwapFresh(Blocks(segs), b0, b);
  }

  lemma SwapFresh<T>(s: set<T>, x: T, y: T)
    requires x !in s
    ensures s + {x} - {x} + {y} == s + {y}
  {
  }

  lemma MoveBlocks(segs: seq<Segment>, base: nat, brk: nat, i: nat, n: nat, calledBy: nat) returns (b: Block)
    requires WellFormed(segs, base, brk) && Sized(segs) && i < |segs| && segs[i].used && segs[i].size < n
    requires Move(segs, i, n, calledBy).Done?
    ensures var o := Move(segs, i, n, calledBy);
            && WellFormed(o.segs, base, brk) && b.ptr == o.result
            && Blocks(o.segs) == Blocks(segs) - {Block(Payload(segs[i]), segs[i].data)} + {b}
    ensures !Live(segs, b.ptr) && Resized(segs[i], b, n) && Snug(segs, b, n)
  {
    hide Blocks, WellFormed, FreeAt, CopyStep, MovedIndex, AllocAt, Splice;
    var k := FirstFit(segs, n);
    b := CopiedBlocks(segs, base, brk, i, n, k);
    CopyKeepsOld(segs, k, n, i);
    FreeBlocks(CopyStep(segs, k, n, i), base, brk, MovedIndex(segs, k, n, i), calledBy);
    var was := Block(Payload(segs[i]), segs[i].data);
    BlockAt(segs, base, brk, i);
    assert b.ptr != was.ptr;
    assert Blocks(segs) + {b} - {was} == Blocks(segs) - {was} + {b};
  }

  /** Reallocation replaces the old block by one of at least the requested size that starts
      with the old words, possibly at a new pointer, and changes no other block. */
  lemma ReallocateBlocks(segs: seq<Segment>, base: nat, brk: nat, i: nat, n: nat, calledBy: nat) returns (b: Block)
    requires WellFormed(segs, base, brk) && i < |segs| && segs[i].used
    requires Reallocate(segs, i, n, calledBy).Done?
    ensures var o := Reallocate(segs, i, n, calledBy);
            && WellFormed(o.segs, base, brk) && b.ptr == o.result
            && Blocks(o.segs) == Blocks(segs) - {Block(Payload(segs[i]), segs[i].data)} + {b}
    ensures Resized(segs[i], b, n) && Snug(segs, b, n)
    ensures b.ptr == Payload(segs[i]) || !Live(segs, b.ptr)
  {
    Sizes(segs, base, brk);
    var s := segs[i];
    if n == s.size {
      BlockAt(segs, base, brk, i);
      b := Block(Payload(s), s.data);
      assert s in segs;
    } else if n < s.size {
      FillIs(segs, i, n);
      RefillBlocks(segs, base, brk, i, 1, s, n);
      b := Block(Payload(s), FillMid(s, n)[0].data);
    } else if CanGrow(segs, i, n) {
      b := GrowBlocks(segs, base, brk, i, n);
    } else {
      b := MoveBlocks(segs, base, brk, i, n, calledBy);
    }
  }

  /** A live pointer belongs to one used segment. */
  lemma LiveIndex(segs: seq<Segment>, p: nat) returns (i: nat)
    requires Live(segs, p)
    ensures i < |segs| && segs[i].used && Payload(segs[i]) == p
  {
    var b :| b in Blocks(segs) && b.ptr == p;
    var s :| s in segs && s.used && b == Block(Payload(s), s.data);
    i :| 0 <= i < |segs| && segs[i] == s;
  }

  // ---------------------------------------------------------------------
  // What the public calls promise, in terms of blocks only
  // ---------------------------------------------------------------------

  /** One new block of n cleared words, and at most a header more, at p; nothing else changed. */
  ghost predicate AddsBlock(was: seq<Segment>, now: seq<Segment>, p: nat, n: nat) {
    exists b :: b in Blocks(now) && b.ptr == p && !Live(was, p) && Blocks(now) == Blocks(was) + {b}
                && Snug(was, b, n) && AllZero(b.data[..n])
  }

  /** The block at p is gone; nothing else changed. */
  ghost predicate RemovesBlock(was: seq<Segment>, now: seq<Segment>, p: nat) {
    exists b :: b in Blocks(was) && b.ptr == p && Blocks(now) == Blocks(was) - {b}
  }

  /** The block at p became a block of n words, and at most a header more, at q that starts with the
      words of the old one, as far as both go; nothing else changed. */
  ghost predicate ResizesBlock(was: seq<Segment>, now: seq<Segment>, p: nat, q: nat, n: nat) {
    exists b, c :: b in Blocks(was) && b.ptr == p && c in Blocks(now) && c.ptr == q && Blocks(now) == Blocks(was) - {b} + {c}
                   && (q == p || !Live(was, q)) && Snug(was, c, n)
                   && forall k :: 0 <= k < |b.data| && k < n ==> c.data[k] == b.data[k]
  }

  /** Some free segment has room for n words. */
  ghost predicate SomeFits(segs: seq<Segment>, n: nat) {
    exists i :: 0 <= i < |segs| && !segs[i].used && n <= segs[i].size
  }

  /** Allocation stops the kernel exactly if no free segment has room. */
  lemma AllocateStopsIff(segs: seq<Segment>, n: nat)
    requires Sized(segs)
    ensures Allocate(segs, n).Panic? <==> !SomeFits(segs, n)
  {
    var k := FirstFit(segs, n);
    if k < |segs| {
      assert Fits(segs[k], n);
    }
  }

  /** Segment k is the first free one with room for n words. */
  ghost predicate FirstThatFits(segs: seq<Segment>, n: nat, k: nat) {
    && k < |segs| && !segs[k].used && n <= segs[k].size
    && forall j :: 0 <= j < k ==> segs[j].used || segs[j].size < n
  }

  /** Allocation hands out the first that fits. */
  lemma AllocateFirst(segs: seq<Segment>, n: nat)
    requires Sized(segs) && Allocate(segs, n).Done?
    ensures exists k: nat :: FirstThatFits(segs, n, k) && Allocate(segs, n).result == Payload(segs[k])
  {
    var k := FirstFit(segs, n);
    assert forall j :: 0 <= j < k ==> !Fits(segs[j], n);
    assert FirstThatFits(segs, n, k);
  }

  /** A release behind a used segment leaves a free one, stamped with the caller. */
  lemma ReleaseStamps(segs: seq<Segment>, i: nat, calledBy: nat)
    requires i < |segs| && (i > 0 ==> segs[i - 1].used)
    ensures var r := FreeAt(segs, i, calledBy);
            i < |r| && r[i].addr == segs[i].addr && !r[i].used && r[i].freedAt == calledBy && AllZero(r[i].data)
  {
  }

  /** So does a move, where the old block was. */
  lemma MoveStamps(segs: seq<Segment>, i: nat, n: nat, calledBy: nat)
    requires Sized(segs) && i < |segs| && segs[i].used && segs[i].size < n && (i > 0 ==> segs[i - 1].used)
    requires Move(segs, i, n, calledBy).Done?
    ensures exists s :: s in Move(segs, i, n, calledBy).segs && s.addr == segs[i].addr && !s.used && s.freedAt == calledBy
  {
    hide AllocAt, FreeAt, CopyInto;
    var k := FirstFit(segs, n);
    var j := MovedIndex(segs, k, n, i);
    var c := CopyStep(segs, k, n, i);
    CopyKeepsOld(segs, k, n, i);
    AllocShape(segs, k, n, i);
    CopyOther(AllocAt(segs, k, n), k, segs[i].data);
    if i > 0 {
      AllocShape(segs, k, n, i - 1);
    }
    assert j > 0 ==> c[j - 1].used;
    ReleaseStamps(c, j, calledBy);
    assert FreeAt(c, j, calledBy)[j] in FreeAt(c, j, calledBy);
  }

  /** Block i and free neighbours of it are all there is. */
  ghost predicate Alone(segs: seq<Segment>, i: nat) {
    forall j :: 0 <= j < |segs| && j != i ==> i - 1 <= j <= i + 1 && !segs[j].used
  }

  /** A release stops the kernel exactly if one free segment would be left. */
  lemma ReleaseStopsIff(segs: seq<Segment>, i: nat, calledBy: nat)
    requires i < |segs|
    ensures Release(segs, i, calledBy).Panic? <==> Alone(segs, i)
  {
    var lo, hi := FreeLow(segs, i), FreeHigh(segs, i);
    assert |FreeAt(segs, i, calledBy)| == |segs| - (hi - lo) + 1;
    if hi - lo < |segs| {
      var j := if lo > 0 then lo - 1 else hi;
      assert j < lo || hi <= j;
      assert segs[j].used || j < i - 1 || i + 1 < j;
    }
  }

  /** The block need not grow, or has a free successor; its header is not counted. */
  ghost predicate Stays(segs: seq<Segment>, i: nat, n: nat)
    requires i < |segs|
  {
    n <= segs[i].size || (i + 1 < |segs| && !segs[i + 1].used && n <= segs[i].size + segs[i + 1].size)
  }

  /** A reallocation leaves the block where it is exactly in that case; it stops the kernel exactly in
      the other case if no free segment has room. */
  lemma ReallocatePlace(segs: seq<Segment>, base: nat, brk: nat, i: nat, n: nat, calledBy: nat)
    requires WellFormed(segs, base, brk) && Sized(segs) && i < |segs| && segs[i].used
    ensures var o := Reallocate(segs, i, n, calledBy);
            && (o.Panic? <==> !Stays(segs, i, n) && !SomeFits(segs, n))
            && (o.Done? ==> (o.result == Payload(segs[i]) <==> Stays(segs, i, n)))
  {
    AllocateStopsIff(segs, n);
    var k := FirstFit(segs, n);
    if k < |segs| {
      OtherPlace(segs, base, brk, i, k);
    }
  }

  /** A block that does not stay goes to the first segment that fits, and leaves its stamp behind. */
  lemma MovedWhere(was: seq<Segment>, i: nat, n: nat, calledBy: nat)
    requires Sized(was) && i < |was| && was[i].used
    ensures var o := Reallocate(was, i, n, calledBy);
            o.Done? && !Stays(was, i, n) ==>
              && (exists k: nat :: FirstThatFits(was, n, k) && o.result == Payload(was[k]))
              && ((i > 0 ==> was[i - 1].used) ==> exists s :: s in o.segs && Payload(s) == Payload(was[i]) && !s.used && s.freedAt == calledBy)
  {
    hide Move, Allocate, FirstThatFits, FillAt, MergeAt;
    if Reallocate(was, i, n, calledBy).Done? && !Stays(was, i, n) {
      MovedToFirst(was, i, n, calledBy);
      if i > 0 ==> was[i - 1].used {
        MoveStamps(was, i, n, calledBy);
      }
    }
  }

  lemma MovedToFirst(was: seq<Segment>, i: nat, n: nat, calledBy: nat)
    requires Sized(was) && i < |was| && was[i].used && was[i].size < n && Move(was, i, n, calledBy).Done?
    ensures exists k: nat :: FirstThatFits(was, n, k) && Move(was, i, n, calledBy).result == Payload(was[k])
  {
    hide FirstThatFits, AllocAt, FreeAt, CopyStep;
    AllocateFirst(was, n);
  }

  lemma OtherPlace(segs: seq<Segment>, base: nat, brk: nat, i: nat, k: nat)
    requires WellFormed(segs, base, brk) && i < |segs| && k < |segs|
    ensures Payload(segs[k]) == Payload(segs[i]) ==> k == i
  {
    Inside(segs, base, brk);
  }

  lemma AllocateAdds(segs: seq<Segment>, base: nat, brk: nat, n: nat)
    requires WellFormed(segs, base, brk) && Sized(segs) && Allocate(segs, n).Done?
    ensures WellFormed(Allocate(segs, n).segs, base, brk)
    ensures AddsBlock(segs, Allocate(segs, n).segs, Allocate(segs, n).result, n)
  {
    var b := AllocBlocks(segs, base, brk, FirstFit(segs, n), n);
    assert b in Blocks(Allocate(segs, n).segs);
  }

  lemma FreeRemoves(segs: seq<Segment>, base: nat, brk: nat, i: nat, calledBy: nat)
    requires WellFormed(segs, base, brk) && i < |segs| && segs[i].used
    ensures WellFormed(FreeAt(segs, i, calledBy), base, brk)
    ensures RemovesBlock(segs, FreeAt(segs, i, calledBy), Payload(segs[i]))
  {
    FreeBlocks(segs, base, brk, i, calledBy);
    BlockAt(segs, base, brk, i);
    var b := Block(Payload(segs[i]), segs[i].data);
    assert b in Blocks(segs) && b.ptr == Payload(segs[i]);
  }

  lemma ReallocateResizes(segs: seq<Segment>, base: nat, brk: nat, i: nat, n: nat, calledBy: nat)
    requires WellFormed(segs, base, brk) && Sized(segs) && i < |segs| && segs[i].used && Reallocate(segs, i, n, calledBy).Done?
    ensures var o := Reallocate(segs, i, n, calledBy);
            WellFormed(o.segs, base, brk) && ResizesBlock(segs, o.segs, Payload(segs[i]), o.result, n)
  {
    var c := ReallocateBlocks(segs, base, brk, i, n, calledBy);
    BlockAt(segs, base, brk, i);
    ResizedPrefix(segs[i], c, n);
    hide Blocks, WellFormed, Live, Reallocate, Resized;
    var b := Block(Payload(segs[i]), segs[i].data);
    assert b in Blocks(segs) && b.ptr == Payload(segs[i]) && c.ptr == Reallocate(segs, i, n, calledBy).result;
    assert c in Blocks(Reallocate(segs, i, n, calledBy).segs);
  }

  lemma ResizedPrefix(s: Segment, c: Block, n: nat)
    requires Resized(s, c, n)
    ensures n <= |c.data| && forall k :: 0 <= k < |s.data| && k < n ==> c.data[k] == s.data[k]
  {
    if n > |s.data| {
      assert forall k :: 0 <= k < |s.data| ==> c.data[..|s.data|][k] == c.data[k];
    }
  }

  /** A store by the owner changes one word of that block. */
  lemma StoreBlocks(segs: seq<Segment>, base: nat, brk: nat, i: nat, off: nat, v: int)
    requires WellFormed(segs, base, brk) && i < |segs| && segs[i].used && off < |segs[i].data|
    ensures var b := Block(Payload(segs[i]), segs[i].data); var r := StoreAt(segs, i, off, v);
            && WellFormed(r, base, brk) && b in Blocks(segs)
            && Blocks(r) == Blocks(segs) - {b} + {b.(data := b.data[off := v])}
  {
    var d := segs[i].data;
    CopyBlocks(segs, base, brk, i, d[..off] + [v]);
    BlockAt(segs, base, brk, i);
    assert (d[..off] + [v]) + d[off + 1..] == d[off := v];
  }
}
