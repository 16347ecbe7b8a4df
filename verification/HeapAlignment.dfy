/** Which alignment payloads have, for a header of any size: the layout in bytes. */
module HeapAlignment {
  import opened HeapLayout
  import opened HeapProperties
  import opened HeapRuns

  /** Payload sizes are rounded up to a multiple of this. */
  const ALIGNMENT: nat := 16

  /** What calls do to the payload sizes: cut n bytes off the front of one, the rest with a header of
      its own, or fuse two neighbours. */
  datatype Edit = Cut(i: nat, n: nat) | Fuse(i: nat)

  predicate Possible(z: seq<nat>, h: nat, e: Edit) {
    match e
    case Cut(i, n) => i < |z| && n % ALIGNMENT == 0 && n + h < z[i]
    case Fuse(i) => i + 1 < |z|
  }

  function After(z: seq<nat>, h: nat, e: Edit): seq<nat>
    requires Possible(z, h, e)
  {
    match e
    case Cut(i, n) => z[..i] + [n, z[i] - n - h] + z[i + 1..]
    case Fuse(i) => z[..i] + [z[i] + h + z[i + 1]] + z[i + 2..]
  }

  ghost predicate Leads(z: seq<nat>, h: nat, edits: seq<Edit>, z': seq<nat>)
    decreases |edits|
  {
    if edits == [] then z' == z else Possible(z, h, edits[0]) && Leads(After(z, h, edits[0]), h, edits[1..], z')
  }

  /** How far payload k lies behind the first one. */
  function Offset(z: seq<nat>, h: nat, k: nat): nat
    requires k < |z|
  {
    if k == 0 then 0 else Offset(z, h, k - 1) + z[k - 1] + h
  }

  ghost predicate Aligned(z: seq<nat>, h: nat, m: nat)
    requires m > 0
  {
    forall k :: 0 <= k < |z| ==> Offset(z, h, k) % m == 0
  }

  // ---------------------------------------------------------------------
  // The exact alignment
  // ---------------------------------------------------------------------

  lemma ProductGrows(m: int, x: int)
    requires m > 0
    ensures (x >= 1 ==> m * x >= m) && (x <= -1 ==> m * x <= -m)
  {
  }

  lemma MultipleMod(m: nat, q: int)
    requires m > 0
    ensures (m * q) % m == 0
  {
    var d, r := (m * q) / m, (m * q) % m;
    assert m * (q - d) == r;
    ProductGrows(m, q - d);
  }

  lemma SumMod(m: nat, a: int, b: int)
    requires m > 0 && a % m == 0
    ensures (a + b) % m == 0 <==> b % m == 0
  {
    var p := a / m;
    assert a == m * p;
    if b % m == 0 {
      assert a + b == m * (p + b / m);
      MultipleMod(m, p + b / m);
    }
    if (a + b) % m == 0 {
      assert b == m * ((a + b) / m - p);
      MultipleMod(m, (a + b) / m - p);
    }
  }

  /** Every payload with its header but the last is a multiple of m. */
  ghost predicate Even(z: seq<nat>, h: nat, m: nat)
    requires m > 0
  {
    forall k :: 0 <= k < |z| - 1 ==> (z[k] + h) % m == 0
  }

  lemma {:induction false} EvenMeansAligned(z: seq<nat>, h: nat, m: nat, k: nat)
    requires m > 0 && Even(z, h, m) && k < |z|
    ensures Offset(z, h, k) % m == 0
  {
    if k > 0 {
      EvenMeansAligned(z, h, m, k - 1);
      SumMod(m, Offset(z, h, k - 1), z[k - 1] + h);
    }
  }

  lemma RoundedMod(m: nat, n: nat)
    requires m > 0 && ALIGNMENT % m == 0 && n % ALIGNMENT == 0
    ensures n % m == 0
  {
    var b, a := ALIGNMENT / m, n / ALIGNMENT;
    assert n == (m * b) * a == m * (b * a);
    MultipleMod(m, b * a);
  }

  lemma EditKeepsEven(z: seq<nat>, h: nat, m: nat, e: Edit)
    requires m > 0 && h % m == 0 && ALIGNMENT % m == 0 && Even(z, h, m) && Possible(z, h, e)
    ensures Even(After(z, h, e), h, m)
  {
    match e
    case Cut(i, n) =>
      RoundedMod(m, n);
      SumMod(m, n, h);
      if i < |z| - 1 {
        SumMod(m, n + h, z[i] - n);
      }
    case Fuse(i) =>
      if i + 1 < |z| - 1 {
        SumMod(m, z[i] + h, z[i + 1] + h);
      }
  }

  lemma {:induction false} EditsKeepEven(z: seq<nat>, h: nat, m: nat, edits: seq<Edit>, z': seq<nat>)
    requires m > 0 && h % m == 0 && ALIGNMENT % m == 0 && Even(z, h, m) && Leads(z, h, edits, z')
    ensures Aligned(z', h, m)
    decreases |edits|
  {
    if edits == [] {
      forall k | 0 <= k < |z'| ensures Offset(z', h, k) % m == 0 {
        EvenMeansAligned(z', h, m, k);
      }
    } else {
      EditKeepsEven(z, h, m, edits[0]);
      EditsKeepEven(After(z, h, edits[0]), h, m, edits[1..], z');
    }
  }

  /** Whatever is done to a heap of one segment, its payloads are a multiple of m apart. */
  ghost predicate AlwaysAligned(size: nat, h: nat, m: nat)
    requires m > 0
  {
    forall edits, z :: Leads([size], h, edits, z) ==> Aligned(z, h, m)
  }

  /** That holds exactly if both the header and the unit of rounding are multiples of m: payloads are
      aligned, relative to the first, to the greatest common divisor of the two and to nothing more. */
  lemma AlignedExactly(size: nat, h: nat, m: nat)
    requires m > 0 && size > ALIGNMENT + h
    ensures AlwaysAligned(size, h, m) <==> h % m == 0 && ALIGNMENT % m == 0
  {
    if h % m == 0 && ALIGNMENT % m == 0 {
      forall edits, z | Leads([size], h, edits, z) ensures Aligned(z, h, m) {
        EditsKeepEven([size], h, m, edits, z);
      }
    }
    if AlwaysAligned(size, h, m) {
      CutTells(size, h, m, 0);
      CutTells(size, h, m, ALIGNMENT);
      SumMod(m, h, ALIGNMENT);
    }
  }

  lemma CutTells(size: nat, h: nat, m: nat, n: nat)
    requires m > 0 && n % ALIGNMENT == 0 && n + h < size && AlwaysAligned(size, h, m)
    ensures (h + n) % m == 0
  {
    hide Leads, Offset;
    var z := [n, size - n - h];
    OneCut(size, h, n);
    assert Aligned(z, h, m);
    assert Offset(z, h, 1) % m == 0;
  }

  lemma OneCut(size: nat, h: nat, n: nat)
    requires n % ALIGNMENT == 0 && n + h < size
    ensures Leads([size], h, [Cut(0, n)], [n, size - n - h])
    ensures Offset([n, size - n - h], h, 1) == n + h
  {
    assert After([size], h, Cut(0, n)) == [n, size - n - h];
    assert [Cut(0, n)][1..] == [];
  }

  /** With headers of seven words, one allocation of 16 bytes leaves the next payload 72 bytes on. */
  lemma NotSixteen()
    ensures Leads([128], 56, [Cut(0, 16)], [16, 56]) && !Aligned([16, 56], 56, 16)
  {
    OneCut(128, 56, 16);
    assert Offset([16, 56], 56, 1) % 16 != 0;
  }

  // ---------------------------------------------------------------------
  // The runs of the heap are such edits
  // ---------------------------------------------------------------------

  function Bytes(segs: seq<Segment>): (z: seq<nat>)
    ensures |z| == |segs| && forall k :: 0 <= k < |segs| ==> z[k] == 8 * segs[k].size
  {
    seq(|segs|, k requires 0 <= k < |segs| => 8 * segs[k].size)
  }

  lemma BytesOfSplice(segs: seq<Segment>, i: nat, cnt: nat, mid: seq<Segment>)
    requires i + cnt <= |segs|
    ensures Bytes(Splice(segs, i, cnt, mid)) == Bytes(segs)[..i] + Bytes(mid) + Bytes(segs)[i + cnt..]
  {
  }

  lemma SameBytes(segs: seq<Segment>, i: nat, s: Segment)
    requires i < |segs| && s.size == segs[i].size
    ensures Bytes(Splice(segs, i, 1, [s])) == Bytes(segs)
  {
  }

  lemma {:induction false} LeadsOn(z: seq<nat>, h: nat, a: seq<Edit>, y: seq<nat>, b: seq<Edit>, x: seq<nat>)
    requires Leads(z, h, a, y) && Leads(y, h, b, x)
    ensures Leads(z, h, a + b, x)
    decreases |a|
  {
    hide Possible, After;
    if a == [] {
      assert a + b == b;
    } else {
      LeadsOn(After(z, h, a[0]), h, a[1..], y, b, x);
      assert (a + b)[0] == a[0] && (a + b)[1..] == a[1..] + b;
    }
  }

  lemma OneEdit(z: seq<nat>, h: nat, e: Edit)
    requires Possible(z, h, e)
    ensures Leads(z, h, [e], After(z, h, e))
  {
    assert [e][1..] == [];
  }

  /** Handing out or resizing segment i to n words: a cut, if a header and more are left. */
  lemma FillEdits(segs: seq<Segment>, i: nat, n: nat, mid: seq<Segment>) returns (edits: seq<Edit>)
    requires i < |segs| && n <= segs[i].size && n % 2 == 0
    requires if segs[i].size - n > HEADER then |mid| == 2 && mid[0].size == n && mid[1].size == segs[i].size - n - HEADER
             else |mid| == 1 && mid[0].size == segs[i].size
    ensures Leads(Bytes(segs), 8 * HEADER, edits, Bytes(Splice(segs, i, 1, mid)))
  {
    BytesOfSplice(segs, i, 1, mid);
    if segs[i].size - n > HEADER {
      OneEdit(Bytes(segs), 8 * HEADER, Cut(i, 8 * n));
      assert Bytes(mid) == [8 * n, 8 * segs[i].size - 8 * n - 8 * HEADER];
      edits := [Cut(i, 8 * n)];
    } else {
      SameBytes(segs, i, mid[0]);
      assert mid == [mid[0]];
      edits := [];
    }
  }

  lemma FuseTwice(z: seq<nat>, h: nat, i: nat)
    requires 0 < i < |z| - 1
    ensures Leads(z, h, [Fuse(i)] + [Fuse(i - 1)], z[..i - 1] + [z[i - 1] + h + z[i] + h + z[i + 1]] + z[i + 2..])
  {
    var y := After(z, h, Fuse(i));
    assert y[..i - 1] == z[..i - 1] && y[i + 1..] == z[i + 2..];
    OneEdit(z, h, Fuse(i));
    OneEdit(y, h, Fuse(i - 1));
    LeadsOn(z, h, [Fuse(i)], y, [Fuse(i - 1)], After(y, h, Fuse(i - 1)));
  }

  /** Freeing block i: it is fused with free neighbours. */
  lemma FreeEdits(segs: seq<Segment>, i: nat, who: nat) returns (edits: seq<Edit>)
    requires i < |segs|
    ensures Leads(Bytes(segs), 8 * HEADER, edits, Bytes(FreeAt(segs, i, who)))
  {
    hide Leads;
    var lo, hi, z, h := FreeLow(segs, i), FreeHigh(segs, i), Bytes(segs), 8 * HEADER;
    FreedBytes(segs, i, who);
    hide FreeAt, Bytes;
    if lo < i && i + 1 < hi {
      FuseTwice(z, h, i);
      edits := [Fuse(i)] + [Fuse(lo)];
    } else if lo < i || i + 1 < hi {
      OneEdit(z, h, Fuse(lo));
      edits := [Fuse(lo)];
    } else {
      assert z == z[..i] + [z[i]] + z[i + 1..];
      NoEdit(z, h);
      edits := [];
    }
  }

  lemma NoEdit(z: seq<nat>, h: nat)
    ensures Leads(z, h, [], z)
  {
  }

  lemma FreedBytes(segs: seq<Segment>, i: nat, who: nat)
    requires i < |segs|
    ensures var lo, hi, z, h := FreeLow(segs, i), FreeHigh(segs, i), Bytes(segs), 8 * HEADER;
            Bytes(FreeAt(segs, i, who)) ==
            z[..lo] + [(if lo < i then z[lo] + h else 0) + z[i] + (if i + 1 < hi then h + z[i + 1] else 0)] + z[hi..]
  {
    BytesOfSplice(segs, FreeLow(segs, i), FreeHigh(segs, i) - FreeLow(segs, i), [FreedSegment(segs, i, who)]);
  }

  lemma AllocateEdits(segs: seq<Segment>, n: nat) returns (edits: seq<Edit>)
    requires Sized(segs) && n % 2 == 0 && FirstFit(segs, n) < |segs|
    ensures Leads(Bytes(segs), 8 * HEADER, edits, Bytes(AllocAt(segs, FirstFit(segs, n), n)))
  {
    hide Leads, Bytes, FirstFit, AllocAt, Splice;
    var k := FirstFit(segs, n);
    assert segs[k] in segs;
    AllocIs(segs, k, n);
    edits := FillEdits(segs, k, n, AllocMid(segs[k], n));
  }

  /** Growing into the free successor: a fusion, then a cut. */
  lemma GrowEdits(segs: seq<Segment>, i: nat, n: nat) returns (edits: seq<Edit>)
    requires Sized(segs) && n % 2 == 0 && i < |segs| && CanGrow(segs, i, n)
    ensures n <= MergeAt(segs, i)[i].size == |MergeAt(segs, i)[i].data|
    ensures Leads(Bytes(segs), 8 * HEADER, edits, Bytes(FillAt(MergeAt(segs, i), i, n)))
  {
    var z, h, m := Bytes(segs), 8 * HEADER, MergeAt(segs, i);
    assert segs[i] in segs && segs[i + 1] in segs;
    GrowIs(segs, i, n);
    MergedBytes(segs, i);
    hide Leads, Bytes, MergeAt, FillAt, Splice;
    OneEdit(z, h, Fuse(i));
    FillIs(m, i, n);
    var cut := FillEdits(m, i, n, FillMid(m[i], n));
    LeadsOn(z, h, [Fuse(i)], Bytes(m), cut, Bytes(FillAt(m, i, n)));
    edits := [Fuse(i)] + cut;
  }

  lemma MergedBytes(segs: seq<Segment>, i: nat)
    requires i + 1 < |segs|
    ensures Bytes(MergeAt(segs, i)) == After(Bytes(segs), 8 * HEADER, Fuse(i))
  {
  }

  lemma MoveEdits(segs: seq<Segment>, i: nat, n: nat, who: nat) returns (edits: seq<Edit>)
    requires Sized(segs) && n % 2 == 0 && i < |segs| && segs[i].used && segs[i].size < n && Move(segs, i, n, who).Done?
    ensures Leads(Bytes(segs), 8 * HEADER, edits, Bytes(Move(segs, i, n, who).segs))
  {
    hide Leads, Bytes, FirstFit, AllocAt, FreeAt, CopyStep;
    var k := FirstFit(segs, n);
    var c := CopyStep(segs, k, n, i);
    var first := AllocateEdits(segs, n);
    CopiedBytes(segs, k, n, i);
    var second := FreeEdits(c, MovedIndex(segs, k, n, i), who);
    LeadsOn(Bytes(segs), 8 * HEADER, first, Bytes(c), second, Bytes(Move(segs, i, n, who).segs));
    edits := first + second;
  }

  lemma CopiedBytes(segs: seq<Segment>, k: nat, n: nat, i: nat)
    requires Sized(segs) && k < |segs| && i < |segs| && i != k && segs[i].size <= n <= segs[k].size
    ensures Bytes(CopyStep(segs, k, n, i)) == Bytes(AllocAt(segs, k, n))
  {
    hide Bytes, AllocAt, Splice;
    AllocShape(segs, k, n, i);
    var a := AllocAt(segs, k, n);
    SameBytes(a, k, a[k].(data := segs[i].data + a[k].data[|segs[i].data|..]));
  }

  lemma ReallocateEdits(segs: seq<Segment>, i: nat, n: nat, who: nat) returns (edits: seq<Edit>)
    requires Sized(segs) && n % 2 == 0 && i < |segs| && segs[i].used && Reallocate(segs, i, n, who).Done?
    ensures Leads(Bytes(segs), 8 * HEADER, edits, Bytes(Reallocate(segs, i, n, who).segs))
  {
    hide Leads, Bytes, FillAt, MergeAt, Move;
    assert segs[i] in segs;
    if n == segs[i].size {
      NoEdit(Bytes(segs), 8 * HEADER);
      edits := [];
    } else if n < segs[i].size {
      FillIs(segs, i, n);
      edits := FillEdits(segs, i, n, FillMid(segs[i], n));
    } else if CanGrow(segs, i, n) {
      edits := GrowEdits(segs, i, n);
    } else {
      edits := MoveEdits(segs, i, n, who);
    }
  }

  /** The sizes calls ask for, in words, after rounding. */
  predicate Rounded(c: Call) {
    c.Alloc? || c.Realloc? ==> (8 * c.n) % ALIGNMENT == 0
  }

  lemma StepEdits(segs: seq<Segment>, c: Call) returns (edits: seq<Edit>)
    requires Sized(segs) && Rounded(c) && Step(segs, c).Done?
    ensures Leads(Bytes(segs), 8 * HEADER, edits, Bytes(Step(segs, c).segs))
  {
    hide Leads, Bytes, AllocAt, FreeAt, Reallocate, IndexOf;
    NoEdit(Bytes(segs), 8 * HEADER);
    edits := [];
    match c
    case Alloc(n) => edits := AllocateEdits(segs, n);
    case Free(p, who) =>
      if IndexOf(segs, p) < |segs| {
        edits := FreeEdits(segs, IndexOf(segs, p), who);
      }
    case Realloc(p, n, who) =>
      if n == 0 {
        if IndexOf(segs, p) < |segs| {
          edits := FreeEdits(segs, IndexOf(segs, p), who);
        }
      } else if p == 0 {
        edits := AllocateEdits(segs, n);
      } else {
        edits := ReallocateEdits(segs, IndexOf(segs, p), n, who);
      }
    case Store(p, off, v) =>
      var i := IndexOf(segs, p);
      if i < |segs| && off < |segs[i].data| {
        StoredBytes(segs, i, off, v);
      }
  }

  lemma StoredBytes(segs: seq<Segment>, i: nat, off: nat, v: int)
    requires i < |segs| && off < |segs[i].data|
    ensures Bytes(StoreAt(segs, i, off, v)) == Bytes(segs)
  {
    hide Bytes;
    var d := segs[i].data[..off] + [v];
    SameBytes(segs, i, segs[i].(data := d + segs[i].data[|d|..]));
  }

  /** Every run of calls with rounded sizes is a run of edits. */
  lemma {:induction false} RunEdits(segs: seq<Segment>, base: nat, brk: nat, calls: seq<Call>) returns (edits: seq<Edit>)
    requires WellFormed(segs, base, brk) && Run(segs, base, brk, calls).Final?
    requires forall c :: c in calls ==> Rounded(c)
    ensures Leads(Bytes(segs), 8 * HEADER, edits, Bytes(Run(segs, base, brk, calls).segs))
    decreases |calls|
  {
    hide Leads, Bytes, Rounded, WellFormed;
    NoEdit(Bytes(segs), 8 * HEADER);
    edits := [];
    if calls != [] {
      Sizes(segs, base, brk);
      StepWellFormed(segs, base, brk, calls[0]);
      var next := Step(segs, calls[0]).segs;
      hide Step;
      var first := StepEdits(segs, calls[0]);
      var rest := RunEdits(next, base, brk, calls[1..]);
      LeadsOn(Bytes(segs), 8 * HEADER, first, Bytes(next), rest, Bytes(Run(segs, base, brk, calls).segs));
      edits := first + rest;
    }
  }

  /** An offset is the distance between the addresses of two segments. */
  lemma {:induction false} OffsetIs(segs: seq<Segment>, base: nat, brk: nat, k: nat)
    requires WellFormed(segs, base, brk) && k < |segs|
    ensures Offset(Bytes(segs), 8 * HEADER, k) == 8 * (Payload(segs[k]) - Payload(segs[0]))
  {
    if k > 0 {
      OffsetIs(segs, base, brk, k - 1);
    }
  }

  /** So in every run from the initial heap all payloads are a multiple of each common divisor apart. */
  lemma PayloadsAligned(base: nat, words: nat, calls: seq<Call>, m: nat)
    requires words > HEADER && m > 0 && (8 * HEADER) % m == 0 && ALIGNMENT % m == 0
    requires WellFormed(Initial(base, words), base, base + words)
    requires forall c :: c in calls ==> Rounded(c)
    ensures var f := Run(Initial(base, words), base, base + words, calls);
            f.Final? ==> forall k :: 0 <= k < |f.segs| ==> (8 * (Payload(f.segs[k]) - (base + HEADER))) % m == 0
  {
    hide Run, Leads, Offset, Bytes, Rounded;
    var s := Initial(base, words);
    var f := Run(s, base, base + words, calls);
    if f.Final? {
      var edits := RunEdits(s, base, base + words, calls);
      EditsKeepEven(Bytes(s), 8 * HEADER, m, edits, Bytes(f.segs));
      forall k | 0 <= k < |f.segs| ensures (8 * (Payload(f.segs[k]) - (base + HEADER))) % m == 0 {
        OffsetIs(f.segs, base, base + words, k);
        assert Offset(Bytes(f.segs), 8 * HEADER, k) % m == 0;
      }
    }
  }
}
