/** Which free memory is known to be zero, and when free neighbours are always merged. */
module HeapCleanliness {
  import opened HeapLayout

  /** A used block carries no release stamp; a free one that carries a stamp is all zero. */
  ghost predicate Clean(s: Segment) {
    if s.used then s.freedAt == 0 else s.freedAt != 0 ==> AllZero(s.data)
  }

  ghost predicate AllClean(segs: seq<Segment>) {
    forall i :: 0 <= i < |segs| ==> Clean(segs[i])
  }

  /** Free payload is zero and no two neighbours are both free. */
  ghost predicate Tidy(segs: seq<Segment>) {
    && (forall i :: 0 <= i < |segs| && !segs[i].used ==> AllZero(segs[i].data))
    && (forall i, j :: 0 <= i && j == i + 1 && j < |segs| ==> segs[i].used || segs[j].used)
  }

  lemma CleanSplice(segs: seq<Segment>, i: nat, cnt: nat, mid: seq<Segment>)
    requires AllClean(segs) && AllClean(mid) && i + cnt <= |segs|
    ensures AllClean(Splice(segs, i, cnt, mid))
  {
    var r := Splice(segs, i, cnt, mid);
    forall k | 0 <= k < |r|
      ensures Clean(r[k])
    {
      assert r[k] == if k < i then segs[k] else if k < i + |mid| then mid[k - i] else segs[k - |mid| + cnt];
    }
  }

  lemma TidySplice(segs: seq<Segment>, i: nat, cnt: nat, mid: seq<Segment>)
    requires Tidy(segs) && Tidy(mid) && i + cnt <= |segs| && |mid| > 0
    requires i > 0 ==> segs[i - 1].used || mid[0].used
    requires i + cnt < |segs| ==> mid[|mid| - 1].used || segs[i + cnt].used
    ensures Tidy(Splice(segs, i, cnt, mid))
  {
    var r := Splice(segs, i, cnt, mid);
    forall k | 0 <= k < |r| ensures !r[k].used ==> AllZero(r[k].data) {
      PlaceInSplice(segs, i, cnt, mid, k);
    }
    forall k, l | 0 <= k && l == k + 1 && l < |r|
      ensures r[k].used || r[l].used
    {
      PlaceInSplice(segs, i, cnt, mid, k);
      PlaceInSplice(segs, i, cnt, mid, l);
    }
  }

  lemma PlaceInSplice(segs: seq<Segment>, i: nat, cnt: nat, mid: seq<Segment>, k: nat)
    requires i + cnt <= |segs| && k < |Splice(segs, i, cnt, mid)|
    ensures Splice(segs, i, cnt, mid)[k] == if k < i then segs[k] else if k < i + |mid| then mid[k - i] else segs[k - |mid| + cnt]
  {
  }

  // ---------------------------------------------------------------------
  // Every call, shrinking reallocations included, keeps released memory zero,
  // so the zero check of an allocation never stops the kernel.
  // ---------------------------------------------------------------------

  lemma AllocClean(segs: seq<Segment>, base: nat, brk: nat, i: nat, n: nat)
    requires WellFormed(segs, base, brk) && AllClean(segs) && i < |segs| && Fits(segs[i], n)
    ensures segs[i].freedAt == 0 || AllZero(segs[i].data[..n])
    ensures AllClean(AllocAt(segs, i, n))
  {
    AllocIs(segs, i, n);
    assert Clean(segs[i]);
    CleanSplice(segs, i, 1, AllocMid(segs[i], n));
  }

  lemma FreeClean(segs: seq<Segment>, i: nat, calledBy: nat)
    requires AllClean(segs) && i < |segs|
    ensures AllClean(FreeAt(segs, i, calledBy))
  {
    var lo, hi := FreeLow(segs, i), FreeHigh(segs, i);
    CleanSplice(segs, lo, hi - lo, [FreedSegment(segs, i, calledBy)]);
  }

  lemma CopyClean(segs: seq<Segment>, i: nat, d: seq<int>)
    requires AllClean(segs) && i < |segs| && segs[i].used && |d| <= |segs[i].data|
    ensures AllClean(CopyInto(segs, i, d))
  {
    assert Clean(segs[i]);
    CleanSplice(segs, i, 1, [segs[i].(data := d + segs[i].data[|d|..])]);
  }

  lemma ReallocateClean(segs: seq<Segment>, base: nat, brk: nat, i: nat, n: nat, calledBy: nat)
    requires WellFormed(segs, base, brk) && Sized(segs) && AllClean(segs) && i < |segs| && segs[i].used
    requires Reallocate(segs, i, n, calledBy).Done?
    ensures AllClean(Reallocate(segs, i, n, calledBy).segs)
  {
    var s := segs[i];
    assert Clean(s);
    if n < s.size {
      FillIs(segs, i, n);
      CleanSplice(segs, i, 1, FillMid(s, n));
    } else if n > s.size && CanGrow(segs, i, n) {
      GrowIs(segs, i, n);
      CleanSplice(segs, i, 2, GrowMid(s, segs[i + 1], n));
    } else if n > s.size {
      var k := FirstFit(segs, n);
      AllocClean(segs, base, brk, k, n);
      MoveClean(segs, base, brk, i, n, k, calledBy);
    }
  }

  lemma MoveClean(segs: seq<Segment>, base: nat, brk: nat, i: nat, n: nat, k: nat, calledBy: nat)
    requires WellFormed(segs, base, brk) && Sized(segs) && i < |segs| && segs[i].used && segs[i].size < n
    requires k < |segs| && Fits(segs[k], n) && AllClean(AllocAt(segs, k, n))
    ensures AllClean(FreeAt(CopyStep(segs, k, n, i), MovedIndex(segs, k, n, i), calledBy))
  {
    hide WellFormed, AllClean, FreeAt, AllocAt;
    AllocShape(segs, k, n, i);
    CopyClean(AllocAt(segs, k, n), k, segs[i].data);
    FreeClean(CopyStep(segs, k, n, i), MovedIndex(segs, k, n, i), calledBy);
  }

  // ---------------------------------------------------------------------
  // Tidiness
  // ---------------------------------------------------------------------

  /** Allocation keeps a tidy heap tidy. */
  lemma AllocTidy(segs: seq<Segment>, base: nat, brk: nat, i: nat, n: nat)
    requires WellFormed(segs, base, brk) && Tidy(segs) && i < |segs| && Fits(segs[i], n)
    ensures Tidy(AllocAt(segs, i, n))
  {
    AllocIs(segs, i, n);
    TidySplice(segs, i, 1, AllocMid(segs[i], n));
  }

  /** Freeing merges on both sides and clears, so it keeps a tidy heap tidy. */
  lemma FreeTidy(segs: seq<Segment>, i: nat, calledBy: nat)
    requires Tidy(segs) && i < |segs| && segs[i].used
    ensures Tidy(FreeAt(segs, i, calledBy))
  {
    var lo, hi := FreeLow(segs, i), FreeHigh(segs, i);
    TidySplice(segs, lo, hi - lo, [FreedSegment(segs, i, calledBy)]);
  }

  lemma CopyTidy(segs: seq<Segment>, i: nat, d: seq<int>)
    requires Tidy(segs) && i < |segs| && segs[i].used && |d| <= |segs[i].data|
    ensures Tidy(CopyInto(segs, i, d))
  {
    TidySplice(segs, i, 1, [segs[i].(data := d + segs[i].data[|d|..])]);
  }

  lemma GrowTidy(segs: seq<Segment>, base: nat, brk: nat, i: nat, n: nat)
    requires WellFormed(segs, base, brk) && Tidy(segs) && i < |segs| && segs[i].used && segs[i].size < n && CanGrow(segs, i, n)
    ensures n <= MergeAt(segs, i)[i].size == |MergeAt(segs, i)[i].data|
    ensures Tidy(FillAt(MergeAt(segs, i), i, n))
  {
    GrowIs(segs, i, n);
    var s, t := segs[i], segs[i + 1];
    var mid := GrowMid(s, t, n);
    if |mid| == 2 {
      var d := s.data + Zeros(HEADER) + t.data;
      assert forall x :: s.size <= x < |d| ==> d[x] == 0;
    }
    TidySplice(segs, i, 2, mid);
  }

  /** The one call that can leave dirty or unmerged free memory is a shrinking reallocation
      that splits: afterwards the heap is tidy exactly when the words cut off were zero already
      and the next segment is in use. */
  lemma ShrinkTidy(segs: seq<Segment>, base: nat, brk: nat, i: nat, n: nat)
    requires WellFormed(segs, base, brk) && Tidy(segs) && i < |segs| && segs[i].used && n < segs[i].size
    ensures Tidy(FillAt(segs, i, n)) <==>
            (segs[i].size - n > HEADER ==>
               AllZero(segs[i].data[n + HEADER..]) && (i + 1 < |segs| ==> segs[i + 1].used))
  {
    FillIs(segs, i, n);
    var s := segs[i];
    var mid := FillMid(s, n);
    var r := Splice(segs, i, 1, mid);
    if s.size - n > HEADER {
      assert r[i + 1] == mid[1] == TailPart(s, n);
      if i + 1 < |segs| {
        assert r[i + 2] == segs[i + 1];
      }
      if AllZero(s.data[n + HEADER..]) && (i + 1 < |segs| ==> segs[i + 1].used) {
        TidySplice(segs, i, 1, mid);
      }
    } else {
      TidySplice(segs, i, 1, mid);
    }
  }

  /** Does this reallocation cut a tail off an existing block? */
  predicate Shrinks(segs: seq<Segment>, i: nat, n: nat)
    requires i < |segs|
  {
    n < segs[i].size && segs[i].size - n > HEADER
  }

  /** All other reallocations keep a tidy heap tidy. */
  lemma ReallocateTidy(segs: seq<Segment>, base: nat, brk: nat, i: nat, n: nat, calledBy: nat)
    requires WellFormed(segs, base, brk) && Sized(segs) && Tidy(segs) && i < |segs| && segs[i].used
    requires Reallocate(segs, i, n, calledBy).Done? && !Shrinks(segs, i, n)
    ensures Tidy(Reallocate(segs, i, n, calledBy).segs)
  {
    var s := segs[i];
    if n < s.size {
      ShrinkTidy(segs, base, brk, i, n);
    } else if n > s.size && CanGrow(segs, i, n) {
      GrowTidy(segs, base, brk, i, n);
    } else if n > s.size {
      MoveTidy(segs, base, brk, i, n, FirstFit(segs, n), calledBy);
    }
  }

  lemma MoveTidy(segs: seq<Segment>, base: nat, brk: nat, i: nat, n: nat, k: nat, calledBy: nat)
    requires WellFormed(segs, base, brk) && Sized(segs) && Tidy(segs) && i < |segs| && segs[i].used && segs[i].size < n
    requires k < |segs| && Fits(segs[k], n)
    ensures Tidy(FreeAt(CopyStep(segs, k, n, i), MovedIndex(segs, k, n, i), calledBy))
  {
    AllocTidy(segs, base, brk, k, n);
    hide WellFormed, Tidy, FreeAt, AllocAt;
    AllocShape(segs, k, n, i);
    CopyTidy(AllocAt(segs, k, n), k, segs[i].data);
    var c, j := CopyStep(segs, k, n, i), MovedIndex(segs, k, n, i);
    CopyKeepsOld(segs, k, n, i);
    FreeTidy(c, j, calledBy);
  }
}
