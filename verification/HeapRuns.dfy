/** Whole runs of heap calls, from the initial heap on. */
module HeapRuns {
  import opened HeapLayout
  import opened HeapProperties
  import opened HeapCleanliness

  /** A call by the rest of the kernel; sizes are whole words after rounding.  A store is
      the owner of a block writing one of its words. */
  datatype Call =
    | Alloc(n: nat)
    | Free(ptr: nat, calledBy: nat)
    | Realloc(ptr: nat, n: nat, calledBy: nat)
    | Store(ptr: nat, off: nat, v: int)

  /** The used segment behind a pointer, |segs| when there is none. */
  function IndexOf(segs: seq<Segment>, p: nat): (i: nat)
    ensures i <= |segs|
    ensures i < |segs| ==> segs[i].used && Payload(segs[i]) == p
  {
    if segs == [] || (segs[0].used && Payload(segs[0]) == p) then 0 else 1 + IndexOf(segs[1..], p)
  }

  /** A free of no live block is rejected. */
  function FreeStep(segs: seq<Segment>, p: nat, who: nat): (o: Outcome) {
    var i := IndexOf(segs, p);
    if i == |segs| then Done(segs, 0) else Release(segs, i, who)
  }

  /** One call.  A reallocation to nothing frees; one of no live block fails an assertion. */
  function Step(segs: seq<Segment>, c: Call): (o: Outcome)
    requires Sized(segs)
  {
    match c
    case Alloc(n) => Allocate(segs, n)
    case Free(p, who) => FreeStep(segs, p, who)
    case Realloc(p, n, who) =>
      var i := IndexOf(segs, p);
      if n == 0 then FreeStep(segs, p, who)
      else if p == 0 then Allocate(segs, n)
      else if i == |segs| then Panic
      else Reallocate(segs, i, n, who)
    case Store(p, off, v) =>
      var i := IndexOf(segs, p);
      if i < |segs| && off < |segs[i].data| then Done(StoreAt(segs, i, off, v), 0) else Done(segs, 0)
  }

  /** The layout after a run; None when some call stopped the kernel. */
  datatype Final = Final(segs: seq<Segment>) | Stopped

  ghost function Run(segs: seq<Segment>, base: nat, brk: nat, calls: seq<Call>): (f: Final)
    requires WellFormed(segs, base, brk)
    ensures f.Final? ==> WellFormed(f.segs, base, brk)
    decreases |calls|
  {
    if calls == [] then Final(segs)
    else
      Sizes(segs, base, brk);
      var o := Step(segs, calls[0]);
      if o.Panic? then Stopped
      else
        StepWellFormed(segs, base, brk, calls[0]);
        Run(o.segs, base, brk, calls[1..])
  }

  /** The index of a used segment is found from its pointer. */
  lemma IndexIs(segs: seq<Segment>, base: nat, brk: nat, i: nat)
    requires WellFormed(segs, base, brk) && i < |segs| && segs[i].used
    ensures IndexOf(segs, Payload(segs[i])) == i
  {
    Inside(segs, base, brk);
    IndexIsAt(segs, i);
  }

  lemma {:induction false} IndexIsAt(segs: seq<Segment>, i: nat)
    requires i < |segs| && segs[i].used
    requires forall j :: 0 <= j < i ==> Payload(segs[j]) != Payload(segs[i])
    ensures IndexOf(segs, Payload(segs[i])) == i
  {
    if i > 0 {
      assert segs[1..][i - 1] == segs[i];
      assert forall j :: 0 <= j < i - 1 ==> segs[1..][j] == segs[j + 1];
      IndexIsAt(segs[1..], i - 1);
    }
  }

  /** Exactly the live pointers have an index. */
  lemma IndexIffLive(segs: seq<Segment>, base: nat, brk: nat, p: nat)
    requires WellFormed(segs, base, brk)
    ensures IndexOf(segs, p) < |segs| <==> Live(segs, p)
  {
    if Live(segs, p) {
      var i := LiveIndex(segs, p);
      IndexIs(segs, base, brk, i);
    }
    var i := IndexOf(segs, p);
    if i < |segs| {
      BlockAt(segs, base, brk, i);
    }
  }

  lemma StepWellFormed(segs: seq<Segment>, base: nat, brk: nat, c: Call)
    requires WellFormed(segs, base, brk) && Sized(segs) && Step(segs, c).Done?
    ensures WellFormed(Step(segs, c).segs, base, brk)
  {
    hide Blocks;
    match c
    case Alloc(n) => AllocateAdds(segs, base, brk, n);
    case Free(p, who) =>
      var i := IndexOf(segs, p);
      if i < |segs| {
        FreeBlocks(segs, base, brk, i, who);
      }
    case Realloc(p, n, who) =>
      if n == 0 {
        var i := IndexOf(segs, p);
        if i < |segs| {
          FreeBlocks(segs, base, brk, i, who);
        }
      } else if p == 0 {
        AllocateAdds(segs, base, brk, n);
      } else {
        var b := ReallocateBlocks(segs, base, brk, IndexOf(segs, p), n, who);
      }
    case Store(p, off, v) =>
      var i := IndexOf(segs, p);
      if i < |segs| && off < |segs[i].data| {
        StoreBlocks(segs, base, brk, i, off, v);
      }
  }

  lemma StepClean(segs: seq<Segment>, base: nat, brk: nat, c: Call)
    requires WellFormed(segs, base, brk) && Sized(segs) && AllClean(segs) && Step(segs, c).Done?
    ensures AllClean(Step(segs, c).segs)
  {
    hide AllClean;
    match c
    case Alloc(n) => AllocClean(segs, base, brk, FirstFit(segs, n), n);
    case Free(p, who) =>
      var i := IndexOf(segs, p);
      if i < |segs| {
        FreeClean(segs, i, who);
      }
    case Realloc(p, n, who) =>
      if n == 0 {
        var i := IndexOf(segs, p);
        if i < |segs| {
          FreeClean(segs, i, who);
        }
      } else if p == 0 {
        AllocClean(segs, base, brk, FirstFit(segs, n), n);
      } else {
        ReallocateClean(segs, base, brk, IndexOf(segs, p), n, who);
      }
    case Store(p, off, v) =>
      var i := IndexOf(segs, p);
      if i < |segs| && off < |segs[i].data| {
        CopyClean(segs, i, segs[i].data[..off] + [v]);
      }
  }

  /** The zero check is never the reason for stopping the kernel: whatever segment an
      allocation picks, at any point of any run, passes it. */
  lemma {:induction false} RunClean(segs: seq<Segment>, base: nat, brk: nat, calls: seq<Call>)
    requires WellFormed(segs, base, brk) && AllClean(segs)
    requires Run(segs, base, brk, calls).Final?
    ensures var f := Run(segs, base, brk, calls).segs;
            && AllClean(f)
            && forall i, n :: 0 <= i < |f| && 0 <= n <= |f[i].data| && !f[i].used ==> f[i].freedAt == 0 || AllZero(f[i].data[..n])
    decreases |calls|
  {
    if calls != [] {
      Sizes(segs, base, brk);
      StepWellFormed(segs, base, brk, calls[0]);
      StepClean(segs, base, brk, calls[0]);
      RunClean(Step(segs, calls[0]).segs, base, brk, calls[1..]);
    } else {
      assert forall i :: 0 <= i < |segs| ==> Clean(segs[i]);
    }
  }

  /** Which calls leave a tail of a used block behind as free memory. */
  predicate ShrinksBlock(segs: seq<Segment>, c: Call) {
    c.Realloc? && c.ptr != 0 && c.n != 0 && IndexOf(segs, c.ptr) < |segs| && Shrinks(segs, IndexOf(segs, c.ptr), c.n)
  }

  ghost predicate NoShrink(segs: seq<Segment>, base: nat, brk: nat, calls: seq<Call>)
    requires WellFormed(segs, base, brk) && Run(segs, base, brk, calls).Final?
    decreases |calls|
  {
    calls == [] ||
    (!ShrinksBlock(segs, calls[0]) &&
     (Sizes(segs, base, brk);
      StepWellFormed(segs, base, brk, calls[0]);
      NoShrink(Step(segs, calls[0]).segs, base, brk, calls[1..])))
  }

  /** The call cuts no tail off, or one that is zero already and has a used segment behind it. */
  ghost predicate KeepsTidy(segs: seq<Segment>, c: Call)
    requires Sized(segs)
  {
    ShrinksBlock(segs, c) ==>
      var i := IndexOf(segs, c.ptr);
      assert segs[i] in segs;
      AllZero(segs[i].data[c.n + HEADER..]) && (i + 1 < |segs| ==> segs[i + 1].used)
  }

  /** A call keeps a tidy heap tidy exactly in that case. */
  lemma StepTidyIff(segs: seq<Segment>, base: nat, brk: nat, c: Call)
    requires WellFormed(segs, base, brk) && Sized(segs) && Tidy(segs) && Step(segs, c).Done?
    ensures Tidy(Step(segs, c).segs) <==> KeepsTidy(segs, c)
  {
    hide Tidy, FillAt, AllZero;
    if ShrinksBlock(segs, c) {
      ShrinkTidy(segs, base, brk, IndexOf(segs, c.ptr), c.n);
    } else {
      StepTidy(segs, base, brk, c);
    }
  }

  lemma StepTidy(segs: seq<Segment>, base: nat, brk: nat, c: Call)
    requires WellFormed(segs, base, brk) && Sized(segs) && Tidy(segs) && Step(segs, c).Done? && !ShrinksBlock(segs, c)
    ensures Tidy(Step(segs, c).segs)
  {
    hide Tidy;
    match c
    case Alloc(n) => AllocTidy(segs, base, brk, FirstFit(segs, n), n);
    case Free(p, who) =>
      var i := IndexOf(segs, p);
      if i < |segs| {
        FreeTidy(segs, i, who);
      }
    case Realloc(p, n, who) =>
      if n == 0 {
        var i := IndexOf(segs, p);
        if i < |segs| {
          FreeTidy(segs, i, who);
        }
      } else if p == 0 {
        AllocTidy(segs, base, brk, FirstFit(segs, n), n);
      } else {
        ReallocateTidy(segs, base, brk, IndexOf(segs, p), n, who);
      }
    case Store(p, off, v) =>
      var i := IndexOf(segs, p);
      if i < |segs| && off < |segs[i].data| {
        CopyTidy(segs, i, segs[i].data[..off] + [v]);
      }
  }

  /** Every layout of the run is tidy. */
  ghost predicate TidyThroughout(segs: seq<Segment>, base: nat, brk: nat, calls: seq<Call>)
    requires WellFormed(segs, base, brk) && Run(segs, base, brk, calls).Final?
    decreases |calls|
  {
    && Tidy(segs)
    && (calls != [] ==>
          (Sizes(segs, base, brk);
           StepWellFormed(segs, base, brk, calls[0]);
           TidyThroughout(Step(segs, calls[0]).segs, base, brk, calls[1..])))
  }

  /** Every call of the run keeps a tidy heap tidy. */
  ghost predicate TidyCalls(segs: seq<Segment>, base: nat, brk: nat, calls: seq<Call>)
    requires WellFormed(segs, base, brk) && Run(segs, base, brk, calls).Final?
    decreases |calls|
  {
    calls != [] ==>
      (Sizes(segs, base, brk);
       StepWellFormed(segs, base, brk, calls[0]);
       KeepsTidy(segs, calls[0]) && TidyCalls(Step(segs, calls[0]).segs, base, brk, calls[1..]))
  }

  /** Over a run no two free segments are ever neighbours and all free memory is zero, exactly if
      every tail cut off a used block is zero already and has a used segment behind it. */
  lemma {:induction false} RunTidyIff(segs: seq<Segment>, base: nat, brk: nat, calls: seq<Call>)
    requires WellFormed(segs, base, brk) && Tidy(segs) && Run(segs, base, brk, calls).Final?
    ensures TidyThroughout(segs, base, brk, calls) <==> TidyCalls(segs, base, brk, calls)
    ensures TidyThroughout(segs, base, brk, calls) ==> Tidy(Run(segs, base, brk, calls).segs)
    decreases |calls|
  {
    hide Tidy, KeepsTidy, Step;
    if calls != [] {
      Sizes(segs, base, brk);
      StepWellFormed(segs, base, brk, calls[0]);
      StepTidyIff(segs, base, brk, calls[0]);
      if KeepsTidy(segs, calls[0]) {
        RunTidyIff(Step(segs, calls[0]).segs, base, brk, calls[1..]);
      } else {
        NotTidyAtOnce(Step(segs, calls[0]).segs, base, brk, calls[1..]);
      }
    }
  }

  lemma NotTidyAtOnce(segs: seq<Segment>, base: nat, brk: nat, calls: seq<Call>)
    requires WellFormed(segs, base, brk) && !Tidy(segs) && Run(segs, base, brk, calls).Final?
    ensures !TidyThroughout(segs, base, brk, calls)
  {
  }

  /** In particular in runs that never cut a tail off a used block. */
  lemma {:induction false} RunTidy(segs: seq<Segment>, base: nat, brk: nat, calls: seq<Call>)
    requires WellFormed(segs, base, brk) && Tidy(segs)
    requires Run(segs, base, brk, calls).Final? && NoShrink(segs, base, brk, calls)
    ensures TidyThroughout(segs, base, brk, calls) && Tidy(Run(segs, base, brk, calls).segs)
  {
    NoShrinkKeepsTidy(segs, base, brk, calls);
    RunTidyIff(segs, base, brk, calls);
  }

  lemma {:induction false} NoShrinkKeepsTidy(segs: seq<Segment>, base: nat, brk: nat, calls: seq<Call>)
    requires WellFormed(segs, base, brk) && Run(segs, base, brk, calls).Final? && NoShrink(segs, base, brk, calls)
    ensures TidyCalls(segs, base, brk, calls)
    decreases |calls|
  {
    hide ShrinksBlock, Step;
    if calls != [] {
      Sizes(segs, base, brk);
      StepWellFormed(segs, base, brk, calls[0]);
      NoShrinkKeepsTidy(Step(segs, calls[0]).segs, base, brk, calls[1..]);
    }
  }

  /** From the initial heap: a block is allocated, its last word written, and the block shrunk. */
  function DirtyCalls(base: nat): seq<Call> {
    [Alloc(2 * HEADER + 4), Store(base + HEADER, 2 * HEADER + 3, 1), Realloc(base + HEADER, 2, 0)]
  }

  lemma AllocatedFirst(base: nat, words: nat, n: nat)
    requires words > 2 * HEADER + n
    ensures var s := Initial(base, words)[0];
            n + HEADER <= s.size == |s.data| &&
            Step([s], Alloc(n)) == Done([Segment(base, n, true, 0, Zeros(n)), TailPart(s, n)], base + HEADER)
  {
    AllocIs(Initial(base, words), 0, n);
  }

  lemma StoredLast(s: Segment, rest: Segment, n: nat, v: int)
    requires s.used && n > 0 && s.size == n && s.data == Zeros(n)
    requires Sized([s, rest])
    ensures Step([s, rest], Store(Payload(s), n - 1, v)) == Done([s.(data := Zeros(n - 1) + [v]), rest], 0)
  {
    var d := Zeros(n)[..n - 1] + [v];
    assert d == Zeros(n - 1) + [v] && d + Zeros(n)[n..] == d;
  }

  lemma ShrunkFirst(s: Segment, rest: Segment, n: nat, who: nat)
    requires s.used && Sized([s, rest]) && 0 < n && n + HEADER < s.size == |s.data| && Payload(s) != 0
    ensures Step([s, rest], Realloc(Payload(s), n, who)) == Done([HeadPart(s, n), TailPart(s, n), rest], Payload(s))
  {
    FillIs([s, rest], 0, n);
    assert HeadPart(s, n).(used := true) == HeadPart(s, n);
  }

  /** That leaves two free neighbours, the first of them not zero. */
  lemma ShrinkLeavesDirt(base: nat, words: nat)
    requires words > 4 * HEADER + 4
    ensures WellFormed(Initial(base, words), base, base + words)
    ensures var f := Run(Initial(base, words), base, base + words, DirtyCalls(base));
            && f.Final? && |f.segs| == 3 && !f.segs[1].used && !f.segs[2].used && !AllZero(f.segs[1].data)
            && AllClean(f.segs) && !Tidy(f.segs)
  {
    hide Step, Run;
    var n, p, brk := 2 * HEADER + 4, base + HEADER, base + words;
    var s0, calls := Initial(base, words), DirtyCalls(base);
    AllocatedFirst(base, words, n);
    var rest := TailPart(s0[0], n);
    var s := Segment(base, n, true, 0, Zeros(n));
    var d := s.(data := Zeros(n - 1) + [1]);
    StoredLast(s, rest, n, 1);
    ShrunkFirst(d, rest, 2, 0);
    var s3 := [HeadPart(d, 2), TailPart(d, 2), rest];
    RunOfThree(s0, base, brk, calls, [s, rest], [d, rest], s3);
    RunClean(s0, base, brk, calls);
    assert s3[1].data[HEADER + 1] == 1;
  }

  lemma RunOfThree(s0: seq<Segment>, base: nat, brk: nat, calls: seq<Call>, s1: seq<Segment>, s2: seq<Segment>, s3: seq<Segment>)
    requires |calls| == 3 && WellFormed(s0, base, brk) && Sized(s0) && Sized(s1) && Sized(s2)
    requires Step(s0, calls[0]).Done? && Step(s0, calls[0]).segs == s1
    requires Step(s1, calls[1]).Done? && Step(s1, calls[1]).segs == s2
    requires Step(s2, calls[2]).Done? && Step(s2, calls[2]).segs == s3
    ensures Run(s0, base, brk, calls) == Final(s3)
  {
    hide Step;
    StepWellFormed(s0, base, brk, calls[0]);
    StepWellFormed(s1, base, brk, calls[1]);
    StepWellFormed(s2, base, brk, calls[2]);
    assert calls[1..][0] == calls[1] && calls[1..][1..] == calls[2..] && calls[2..][0] == calls[2] && calls[2..][1..] == [];
    assert Run(s3, base, brk, calls[2..][1..]) == Final(s3);
    assert Run(s2, base, brk, calls[2..]) == Final(s3);
    assert Run(s1, base, brk, calls[1..]) == Run(s2, base, brk, calls[2..]);
  }

  /** The calls that name the block at p. */
  predicate Names(c: Call, p: nat) {
    !c.Alloc? && c.ptr == p
  }

  lemma StepKeeps(segs: seq<Segment>, base: nat, brk: nat, c: Call, b: Block)
    requires WellFormed(segs, base, brk) && Sized(segs) && Step(segs, c).Done?
    requires b in Blocks(segs) && !Names(c, b.ptr)
    ensures b in Blocks(Step(segs, c).segs)
  {
    hide Blocks;
    match c
    case Alloc(n) =>
      var x := AllocBlocks(segs, base, brk, FirstFit(segs, n), n);
    case Free(p, who) =>
      var i := IndexOf(segs, p);
      if i < |segs| {
        FreeBlocks(segs, base, brk, i, who);
      }
    case Realloc(p, n, who) =>
      if n == 0 {
        var i := IndexOf(segs, p);
        if i < |segs| {
          FreeBlocks(segs, base, brk, i, who);
        }
      } else if p == 0 {
        var x := AllocBlocks(segs, base, brk, FirstFit(segs, n), n);
      } else {
        var x := ReallocateBlocks(segs, base, brk, IndexOf(segs, p), n, who);
      }
    case Store(p, off, v) =>
      var i := IndexOf(segs, p);
      if i < |segs| && off < |segs[i].data| {
        StoreBlocks(segs, base, brk, i, off, v);
      }
  }

  /** A block nobody frees, resizes or writes keeps its pointer and every word over any run,
      however the segments around it are split, merged and moved. */
  lemma {:induction false} RunKeeps(segs: seq<Segment>, base: nat, brk: nat, calls: seq<Call>, b: Block)
    requires WellFormed(segs, base, brk) && b in Blocks(segs)
    requires Run(segs, base, brk, calls).Final?
    requires forall k :: 0 <= k < |calls| ==> !Names(calls[k], b.ptr)
    ensures b in Blocks(Run(segs, base, brk, calls).segs)
    decreases |calls|
  {
    hide Blocks;
    if calls != [] {
      Sizes(segs, base, brk);
      StepWellFormed(segs, base, brk, calls[0]);
      StepKeeps(segs, base, brk, calls[0], b);
      RunKeeps(Step(segs, calls[0]).segs, base, brk, calls[1..], b);
    }
  }

  function Initial(base: nat, words: nat): seq<Segment>
    requires words > HEADER
  {
    [Segment(base, words - HEADER, false, 0, Zeros(words - HEADER))]
  }

  /** The three facts together for runs of the kernel, which start from the initial heap. */
  lemma RunsFromStart(base: nat, words: nat, calls: seq<Call>)
    requires words > HEADER
    ensures WellFormed(Initial(base, words), base, base + words)
    ensures var f := Run(Initial(base, words), base, base + words, calls);
            f.Final? ==>
              && WellFormed(f.segs, base, base + words)
              && AllClean(f.segs)
              && (NoShrink(Initial(base, words), base, base + words, calls) ==> Tidy(f.segs))
              && forall b, c :: b in Blocks(f.segs) && c in Blocks(f.segs) && b != c ==>
                   b.ptr + |b.data| + HEADER <= c.ptr || c.ptr + |c.data| + HEADER <= b.ptr
  {
    var s := Initial(base, words);
    var f := Run(s, base, base + words, calls);
    if f.Final? {
      RunClean(s, base, base + words, calls);
      if NoShrink(s, base, base + words, calls) {
        RunTidy(s, base, base + words, calls);
      }
      forall b, c | b in Blocks(f.segs) && c in Blocks(f.segs) && b != c
        ensures b.ptr + |b.data| + HEADER <= c.ptr || c.ptr + |c.data| + HEADER <= b.ptr
      {
        BlocksDisjoint(f.segs, base, base + words, b, c);
      }
    }
  }
}
