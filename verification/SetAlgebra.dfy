/** The set operations on sorted ranges, and includes. */
module SetAlgebra {
  import opened Ordering
  import StableAlgorithms

  /** Which elements an operation keeps: unmatched ones of the first range, matched ones (of the
      first range), unmatched ones of the second. */
  datatype Keep = Keep(first: bool, both: bool, second: bool)

  const UNION := Keep(true, true, true)
  const INTERSECTION := Keep(false, true, false)
  const DIFFERENCE := Keep(true, false, false)
  const SYMMETRIC_DIFFERENCE := Keep(true, false, true)
  const EXCESS := Keep(false, false, true)

  function When<T>(c: bool, s: seq<T>): seq<T> {
    if c then s else []
  }

  /** One pass over both ranges; equivalent heads are matched with each other. */
  function Merge<T>(lt: (T, T) -> bool, a: seq<T>, b: seq<T>, k: Keep): seq<T>
    decreases |a| + |b|
  {
    if a == [] || b == [] then When(k.first, a) + When(k.second, b)
    else if lt(b[0], a[0]) then When(k.second, [b[0]]) + Merge(lt, a, b[1..], k)
    else if lt(a[0], b[0]) then When(k.first, [a[0]]) + Merge(lt, a[1..], b, k)
    else When(k.both, [a[0]]) + Merge(lt, a[1..], b[1..], k)
  }

  // ---------------------------------------------------------------------
  // Multiplicities and order
  // ---------------------------------------------------------------------

  lemma {:induction false} NoneBelow<T(!new)>(lt: (T, T) -> bool, x: T, s: seq<T>)
    requires StrictWeak(lt) && Sorted(lt, s) && (s != [] ==> lt(x, s[0]))
    ensures Count(lt, x, s) == 0
  {
    if s != [] {
      assert s[1..] != [] ==> !lt(s[1], s[0]);
      NoneBelow(lt, x, s[1..]);
    }
  }

  function Surplus(n: nat, m: nat): nat {
    if n > m then n - m else 0
  }

  function Max(n: nat, m: nat): nat {
    if n > m then n else m
  }

  function Min(n: nat, m: nat): nat {
    if n < m then n else m
  }

  /** How many elements equivalent to x an operation leaves of n in the first range and m in the
      second. */
  function Kept(k: Keep, n: nat, m: nat): nat {
    (if k.first then Surplus(n, m) else 0) + (if k.both then Min(n, m) else 0) + (if k.second then Surplus(m, n) else 0)
  }

  lemma KeptStep(k: Keep, n: nat, m: nat)
    ensures Kept(k, n + 1, m + 1) == (if k.both then 1 else 0) + Kept(k, n, m)
    ensures Kept(k, n + 1, 0) == (if k.first then 1 else 0) + Kept(k, n, 0)
    ensures Kept(k, 0, m + 1) == (if k.second then 1 else 0) + Kept(k, 0, m)
  {
  }

  lemma CountWhen<T(!new)>(lt: (T, T) -> bool, x: T, c: bool, y: T, rest: seq<T>)
    ensures Count(lt, x, When(c, [y]) + rest) == (if c && Equiv(lt, x, y) then 1 else 0) + Count(lt, x, rest)
  {
    if c {
      assert ([y] + rest)[1..] == rest;
    } else {
      assert [] + rest == rest;
    }
  }

  lemma CountHead<T>(lt: (T, T) -> bool, x: T, s: seq<T>)
    requires s != []
    ensures Count(lt, x, s) == (if Equiv(lt, x, s[0]) then 1 else 0) + Count(lt, x, s[1..])
  {
  }

  lemma MultiplicityAtEnd<T>(lt: (T, T) -> bool, a: seq<T>, b: seq<T>, k: Keep, x: T)
    requires a == [] || b == []
    ensures Count(lt, x, Merge(lt, a, b, k)) == Kept(k, Count(lt, x, a), Count(lt, x, b))
  {
    CountAppend(lt, x, When(k.first, a), When(k.second, b));
  }

  /** With n and m elements equivalent to x in two sorted ranges, min(n, m) are matched and the rest
      is surplus. */
  lemma {:induction false} Multiplicity<T(!new)>(lt: (T, T) -> bool, a: seq<T>, b: seq<T>, k: Keep, x: T)
    requires StrictWeak(lt) && Sorted(lt, a) && Sorted(lt, b)
    ensures Count(lt, x, Merge(lt, a, b, k)) == Kept(k, Count(lt, x, a), Count(lt, x, b))
    decreases |a| + |b|
  {
    hide Count, Kept, When;
    if a == [] || b == [] {
      MultiplicityAtEnd(lt, a, b, k, x);
    } else if lt(b[0], a[0]) {
      Multiplicity(lt, a, b[1..], k, x);
      CountWhen(lt, x, k.second, b[0], Merge(lt, a, b[1..], k));
      CountHead(lt, x, b);
      if Equiv(lt, x, b[0]) {
        NoneBelow(lt, x, a);
        KeptStep(k, 0, Count(lt, x, b[1..]));
      }
    } else if lt(a[0], b[0]) {
      Multiplicity(lt, a[1..], b, k, x);
      CountWhen(lt, x, k.first, a[0], Merge(lt, a[1..], b, k));
      CountHead(lt, x, a);
      if Equiv(lt, x, a[0]) {
        NoneBelow(lt, x, b);
        KeptStep(k, Count(lt, x, a[1..]), 0);
      }
    } else {
      Multiplicity(lt, a[1..], b[1..], k, x);
      CountWhen(lt, x, k.both, a[0], Merge(lt, a[1..], b[1..], k));
      CountHead(lt, x, a);
      CountHead(lt, x, b);
      KeptStep(k, Count(lt, x, a[1..]), Count(lt, x, b[1..]));
    }
  }

  // ---------------------------------------------------------------------
  // Which of several equivalent elements
  // ---------------------------------------------------------------------

  /** The elements of s equivalent to x, in their order. */
  function Class<T>(lt: (T, T) -> bool, x: T, s: seq<T>): seq<T> {
    StableAlgorithms.Class(lt, x, s)
  }

  lemma ClassHead<T>(lt: (T, T) -> bool, x: T, s: seq<T>)
    requires s != []
    ensures Class(lt, x, s) == When(Equiv(lt, x, s[0]), [s[0]]) + Class(lt, x, s[1..])
  {
  }

  lemma ClassWhen<T>(lt: (T, T) -> bool, x: T, c: bool, y: T, rest: seq<T>)
    ensures Class(lt, x, When(c, [y]) + rest) == When(c && Equiv(lt, x, y), [y]) + Class(lt, x, rest)
  {
    if c {
      ClassHead(lt, x, [y] + rest);
      assert ([y] + rest)[1..] == rest;
    } else {
      assert [] + rest == rest;
    }
  }

  lemma {:induction false} ClassSize<T>(lt: (T, T) -> bool, x: T, s: seq<T>)
    ensures |Class(lt, x, s)| == Count(lt, x, s)
  {
    if s != [] {
      ClassHead(lt, x, s);
      ClassSize(lt, x, s[1..]);
    }
  }

  lemma NoClassBelow<T(!new)>(lt: (T, T) -> bool, x: T, s: seq<T>)
    requires StrictWeak(lt) && Sorted(lt, s) && (s != [] ==> lt(x, s[0]))
    ensures Class(lt, x, s) == []
  {
    NoneBelow(lt, x, s);
    ClassSize(lt, x, s);
  }

  /** The first elements of both ranges are matched, and those of the first range stand for them; the
      others of the longer one follow. */
  function MergedClass<T>(a: seq<T>, b: seq<T>, k: Keep): seq<T> {
    var n := Min(|a|, |b|);
    When(k.both, a[..n]) + When(k.first, a[n..]) + When(k.second, b[n..])
  }

  lemma MergedClassEnd<T>(s: seq<T>, k: Keep)
    ensures MergedClass(s, [], k) == When(k.first, s) && MergedClass([], s, k) == When(k.second, s)
  {
    assert s[..0] == [] && s[0..] == s;
  }

  lemma WhenConcat<T>(c: bool, a: seq<T>, b: seq<T>)
    ensures When(c, a + b) == When(c, a) + When(c, b)
  {
  }

  lemma MergedClassOne<T>(s: seq<T>, k: Keep, x: T)
    ensures MergedClass([x] + s, [], k) == When(k.first, [x]) + MergedClass(s, [], k)
    ensures MergedClass([], [x] + s, k) == When(k.second, [x]) + MergedClass([], s, k)
  {
    hide MergedClass, When;
    MergedClassEnd(s, k);
    MergedClassEnd([x] + s, k);
    WhenConcat(k.first, [x], s);
    WhenConcat(k.second, [x], s);
  }

  lemma MergedClassBoth<T>(a: seq<T>, b: seq<T>, k: Keep, x: T, y: T)
    ensures MergedClass([x] + a, [y] + b, k) == When(k.both, [x]) + MergedClass(a, b, k)
  {
    hide When;
    var n := Min(|a|, |b|);
    HeadSlices(a, x, n);
    HeadSlices(b, y, n);
    WhenConcat(k.both, [x], a[..n]);
    StableAlgorithms.Associative(When(k.both, [x]), When(k.both, a[..n]), When(k.first, a[n..]));
    StableAlgorithms.Associative(When(k.both, [x]), When(k.both, a[..n]) + When(k.first, a[n..]), When(k.second, b[n..]));
  }

  lemma HeadSlices<T>(a: seq<T>, x: T, n: nat)
    requires n <= |a|
    ensures ([x] + a)[..n + 1] == [x] + a[..n] && ([x] + a)[n + 1..] == a[n..]
  {
  }

  lemma MergeWithNothing<T>(lt: (T, T) -> bool, s: seq<T>, k: Keep)
    ensures Merge(lt, s, [], k) == When(k.first, s) && Merge(lt, [], s, k) == When(k.second, s)
  {
  }

  lemma ClassOfWhen<T>(lt: (T, T) -> bool, x: T, c: bool, s: seq<T>)
    ensures Class(lt, x, When(c, s)) == When(c, Class(lt, x, s)) && Class(lt, x, []) == []
  {
  }

  lemma ClassAtEnd<T>(lt: (T, T) -> bool, a: seq<T>, b: seq<T>, k: Keep, x: T)
    requires a == [] || b == []
    ensures Class(lt, x, Merge(lt, a, b, k)) == MergedClass(Class(lt, x, a), Class(lt, x, b), k)
  {
    hide Class, Merge, MergedClass, When;
    if b == [] {
      MergeWithNothing(lt, a, k);
      ClassOfWhen(lt, x, k.first, a);
      MergedClassEnd(Class(lt, x, a), k);
    } else {
      MergeWithNothing(lt, b, k);
      ClassOfWhen(lt, x, k.second, b);
      MergedClassEnd(Class(lt, x, b), k);
    }
  }

  /** Of equivalent elements a set operation keeps those of the first range where some are matched, and
      the last ones of the range that has more; all in their order. */
  lemma {:induction false} ClassOfMerge<T(!new)>(lt: (T, T) -> bool, a: seq<T>, b: seq<T>, k: Keep, x: T)
    requires StrictWeak(lt) && Sorted(lt, a) && Sorted(lt, b)
    ensures Class(lt, x, Merge(lt, a, b, k)) == MergedClass(Class(lt, x, a), Class(lt, x, b), k)
    decreases |a| + |b|
  {
    hide Class, MergedClass, When;
    if a == [] || b == [] {
      ClassAtEnd(lt, a, b, k, x);
    } else if lt(b[0], a[0]) {
      ClassOfMerge(lt, a, b[1..], k, x);
      ClassWhen(lt, x, k.second, b[0], Merge(lt, a, b[1..], k));
      ClassHead(lt, x, b);
      if Equiv(lt, x, b[0]) {
        NoClassBelow(lt, x, a);
      }
      SecondClassStep(Class(lt, x, a), Class(lt, x, b[1..]), k, b[0], Equiv(lt, x, b[0]));
    } else if lt(a[0], b[0]) {
      ClassOfMerge(lt, a[1..], b, k, x);
      ClassWhen(lt, x, k.first, a[0], Merge(lt, a[1..], b, k));
      ClassHead(lt, x, a);
      if Equiv(lt, x, a[0]) {
        NoClassBelow(lt, x, b);
      }
      FirstClassStep(Class(lt, x, a[1..]), Class(lt, x, b), k, a[0], Equiv(lt, x, a[0]));
    } else {
      ClassOfMerge(lt, a[1..], b[1..], k, x);
      ClassWhen(lt, x, k.both, a[0], Merge(lt, a[1..], b[1..], k));
      ClassHead(lt, x, a);
      ClassHead(lt, x, b);
      BothClassStep(Class(lt, x, a[1..]), Class(lt, x, b[1..]), k, a[0], b[0], Equiv(lt, x, a[0]));
    }
  }

  lemma SecondClassStep<T>(a: seq<T>, b: seq<T>, k: Keep, y: T, c: bool)
    requires c ==> a == []
    ensures MergedClass(a, When(c, [y]) + b, k) == When(k.second && c, [y]) + MergedClass(a, b, k)
  {
    hide MergedClass;
    if c {
      MergedClassOne(b, k, y);
    } else {
      assert [] + b == b && [] + MergedClass(a, b, k) == MergedClass(a, b, k);
    }
  }

  lemma FirstClassStep<T>(a: seq<T>, b: seq<T>, k: Keep, x: T, c: bool)
    requires c ==> b == []
    ensures MergedClass(When(c, [x]) + a, b, k) == When(k.first && c, [x]) + MergedClass(a, b, k)
  {
    hide MergedClass;
    if c {
      MergedClassOne(a, k, x);
    } else {
      assert [] + a == a && [] + MergedClass(a, b, k) == MergedClass(a, b, k);
    }
  }

  lemma BothClassStep<T>(a: seq<T>, b: seq<T>, k: Keep, x: T, y: T, c: bool)
    ensures MergedClass(When(c, [x]) + a, When(c, [y]) + b, k) == When(k.both && c, [x]) + MergedClass(a, b, k)
  {
    hide MergedClass;
    if c {
      MergedClassBoth(a, b, k, x, y);
    } else {
      assert [] + a == a && [] + b == b && [] + MergedClass(a, b, k) == MergedClass(a, b, k);
    }
  }

  /** Nothing in s is less than x. */
  ghost predicate AtLeast<T>(lt: (T, T) -> bool, x: T, s: seq<T>) {
    forall i :: 0 <= i < |s| ==> !lt(s[i], x)
  }

  lemma {:induction false} MergeAtLeast<T>(lt: (T, T) -> bool, x: T, a: seq<T>, b: seq<T>, k: Keep)
    requires AtLeast(lt, x, a) && AtLeast(lt, x, b)
    ensures AtLeast(lt, x, Merge(lt, a, b, k))
    decreases |a| + |b|
  {
    if a == [] || b == [] {
    } else if lt(b[0], a[0]) {
      MergeAtLeast(lt, x, a, b[1..], k);
    } else if lt(a[0], b[0]) {
      MergeAtLeast(lt, x, a[1..], b, k);
    } else {
      MergeAtLeast(lt, x, a[1..], b[1..], k);
    }
  }

  lemma SortedFrom<T>(lt: (T, T) -> bool, x: T, s: seq<T>)
    requires Sorted(lt, s) && AtLeast(lt, x, s)
    ensures Sorted(lt, [x] + s)
  {
  }

  lemma HeadAtLeast<T(!new)>(lt: (T, T) -> bool, x: T, s: seq<T>)
    requires StrictWeak(lt) && Sorted(lt, s) && (s != [] ==> !lt(s[0], x))
    ensures AtLeast(lt, x, s)
  {
    forall i | 0 <= i < |s| ensures !lt(s[i], x) {
      if i > 0 {
        assert !lt(s[i], s[0]);
      }
    }
  }

  lemma {:induction false} MergeSorted<T(!new)>(lt: (T, T) -> bool, a: seq<T>, b: seq<T>, k: Keep)
    requires StrictWeak(lt) && Sorted(lt, a) && Sorted(lt, b)
    ensures Sorted(lt, Merge(lt, a, b, k))
    decreases |a| + |b|
  {
    if a == [] || b == [] {
    } else {
      var x := if lt(b[0], a[0]) then b[0] else a[0];
      HeadAtLeast(lt, x, a);
      HeadAtLeast(lt, x, b);
      var a' := if lt(b[0], a[0]) then a else a[1..];
      var b' := if lt(a[0], b[0]) then b else b[1..];
      MergeSorted(lt, a', b', k);
      MergeAtLeast(lt, x, a', b', k);
      SortedFrom(lt, x, Merge(lt, a', b', k));
    }
  }

  // ---------------------------------------------------------------------
  // The loops
  // ---------------------------------------------------------------------

  /** What a set operation promises of its result, for every equivalence class. */
  ghost predicate IsResult<T(!new)>(lt: (T, T) -> bool, a: seq<T>, b: seq<T>, k: Keep, r: seq<T>) {
    Sorted(lt, r) && forall x :: Count(lt, x, r) == Kept(k, Count(lt, x, a), Count(lt, x, b))
  }

  lemma MergeIsResult<T(!new)>(lt: (T, T) -> bool, a: seq<T>, b: seq<T>, k: Keep)
    requires StrictWeak(lt) && Sorted(lt, a) && Sorted(lt, b)
    ensures IsResult(lt, a, b, k, Merge(lt, a, b, k))
  {
    MergeSorted(lt, a, b, k);
    forall x ensures Count(lt, x, Merge(lt, a, b, k)) == Kept(k, Count(lt, x, a), Count(lt, x, b)) {
      Multiplicity(lt, a, b, k, x);
    }
  }

  function Put<T>(r: seq<T>, c: bool, x: T): seq<T> {
    if c then r + [x] else r
  }

  lemma PutWhen<T>(r: seq<T>, c: bool, x: T, rest: seq<T>)
    ensures r + (When(c, [x]) + rest) == Put(r, c, x) + rest
  {
  }

  lemma MergeHeads<T>(lt: (T, T) -> bool, a: seq<T>, b: seq<T>, k: Keep, i: nat, j: nat)
    requires i < |a| && j < |b|
    ensures Merge(lt, a[i..], b[j..], k) ==
            if lt(b[j], a[i]) then When(k.second, [b[j]]) + Merge(lt, a[i..], b[j + 1..], k)
            else if lt(a[i], b[j]) then When(k.first, [a[i]]) + Merge(lt, a[i + 1..], b[j..], k)
            else When(k.both, [a[i]]) + Merge(lt, a[i + 1..], b[j + 1..], k)
  {
    assert a[i..][1..] == a[i + 1..] && b[j..][1..] == b[j + 1..];
  }

  /** One turn of a loop that has written r and stands at i and j. */
  lemma MergeStep<T(!new)>(lt: (T, T) -> bool, a: seq<T>, b: seq<T>, k: Keep, r: seq<T>, i: nat, j: nat)
    requires StrictWeak(lt) && i < |a| && j < |b|
    ensures !lt(b[j], a[i]) || !lt(a[i], b[j])
    ensures var rest := r + Merge(lt, a[i..], b[j..], k);
            && (lt(b[j], a[i]) ==> rest == Put(r, k.second, b[j]) + Merge(lt, a[i..], b[j + 1..], k))
            && (!lt(b[j], a[i]) && lt(a[i], b[j]) ==> rest == Put(r, k.first, a[i]) + Merge(lt, a[i + 1..], b[j..], k))
            && (Equiv(lt, a[i], b[j]) ==> rest == Put(r, k.both, a[i]) + Merge(lt, a[i + 1..], b[j + 1..], k))
  {
    hide Merge, Put, When;
    MergeHeads(lt, a, b, k, i, j);
    PutWhen(r, k.second, b[j], Merge(lt, a[i..], b[j + 1..], k));
    PutWhen(r, k.first, a[i], Merge(lt, a[i + 1..], b[j..], k));
    PutWhen(r, k.both, a[i], Merge(lt, a[i + 1..], b[j + 1..], k));
  }

  /** The end of a loop that has written r, with one range used up. */
  lemma MergeEnd<T>(lt: (T, T) -> bool, a: seq<T>, b: seq<T>, k: Keep, r: seq<T>, i: nat, j: nat)
    requires i <= |a| && j <= |b| && (i == |a| || j == |b|)
    ensures r + Merge(lt, a[i..], b[j..], k) ==
            (if k.first then r + a[i..] else r) + When(k.second, b[j..])
  {
  }

  lemma UnionCounts<T(!new)>(comp: (T, T) -> bool, a: seq<T>, b: seq<T>)
    requires StrictWeak(comp) && Sorted(comp, a) && Sorted(comp, b)
    ensures Sorted(comp, Merge(comp, a, b, UNION))
    ensures forall x :: Count(comp, x, Merge(comp, a, b, UNION)) == Max(Count(comp, x, a), Count(comp, x, b))
  {
    MergeIsResult(comp, a, b, UNION);
    hide Merge, Sorted, StrictWeak, Count;
  }

  /** The union holds every element the greater number of times. */
  method SetUnion<T(!new)>(a: seq<T>, b: seq<T>, comp: (T, T) -> bool) returns (r: seq<T>)
    requires StrictWeak(comp) && Sorted(comp, a) && Sorted(comp, b)
    ensures r == Merge(comp, a, b, UNION)
    ensures Sorted(comp, r)
    ensures forall x :: Count(comp, x, r) == Max(Count(comp, x, a), Count(comp, x, b))
  {
    UnionCounts(comp, a, b);
    hide Merge, Sorted, StrictWeak, Count, Max, Min, Surplus;
    assert a[0..] == a && b[0..] == b;
    var i, j := 0, 0;
    r := [];
    while i != |a| && j != |b|
      invariant i <= |a| && j <= |b|
      invariant r + Merge(comp, a[i..], b[j..], UNION) == Merge(comp, a, b, UNION)
      decreases |a| - i + |b| - j
    {
      MergeStep(comp, a, b, UNION, r, i, j);
      if comp(b[j], a[i]) {
        r, j := r + [b[j]], j + 1;
      } else {
        var matched := !comp(a[i], b[j]);
        r, i := r + [a[i]], i + 1;
        j := if matched then j + 1 else j;
      }
    }
    MergeEnd(comp, a, b, UNION, r, i, j);
    r := r + a[i..] + b[j..];
  }

  lemma IntersectionCounts<T(!new)>(comp: (T, T) -> bool, a: seq<T>, b: seq<T>)
    requires StrictWeak(comp) && Sorted(comp, a) && Sorted(comp, b)
    ensures Sorted(comp, Merge(comp, a, b, INTERSECTION))
    ensures forall x :: Count(comp, x, Merge(comp, a, b, INTERSECTION)) == Min(Count(comp, x, a), Count(comp, x, b))
  {
    MergeIsResult(comp, a, b, INTERSECTION);
    hide Merge, Sorted, StrictWeak, Count;
  }

  /** The intersection, the smaller number of times. */
  method SetIntersection<T(!new)>(a: seq<T>, b: seq<T>, comp: (T, T) -> bool) returns (r: seq<T>)
    requires StrictWeak(comp) && Sorted(comp, a) && Sorted(comp, b)
    ensures r == Merge(comp, a, b, INTERSECTION)
    ensures Sorted(comp, r)
    ensures forall x :: Count(comp, x, r) == Min(Count(comp, x, a), Count(comp, x, b))
  {
    IntersectionCounts(comp, a, b);
    hide Merge, Sorted, StrictWeak, Count, Max, Min, Surplus;
    assert a[0..] == a && b[0..] == b;
    var i, j := 0, 0;
    r := [];
    while i != |a| && j != |b|
      invariant i <= |a| && j <= |b|
      invariant r + Merge(comp, a[i..], b[j..], INTERSECTION) == Merge(comp, a, b, INTERSECTION)
      decreases |a| - i + |b| - j
    {
      MergeStep(comp, a, b, INTERSECTION, r, i, j);
      var b1ge2, b2ge1 := !comp(a[i], b[j]), !comp(b[j], a[i]);
      if b1ge2 && b2ge1 {
        r := r + [a[i]];
      }
      if b2ge1 { i := i + 1; }
      if b1ge2 { j := j + 1; }
    }
    MergeEnd(comp, a, b, INTERSECTION, r, i, j);
  }

  lemma DifferenceCounts<T(!new)>(comp: (T, T) -> bool, a: seq<T>, b: seq<T>)
    requires StrictWeak(comp) && Sorted(comp, a) && Sorted(comp, b)
    ensures Sorted(comp, Merge(comp, a, b, DIFFERENCE))
    ensures forall x :: Count(comp, x, Merge(comp, a, b, DIFFERENCE)) == Surplus(Count(comp, x, a), Count(comp, x, b))
  {
    MergeIsResult(comp, a, b, DIFFERENCE);
    hide Merge, Sorted, StrictWeak, Count;
  }

  /** The difference, the surplus of the first range. */
  method SetDifference<T(!new)>(a: seq<T>, b: seq<T>, comp: (T, T) -> bool) returns (r: seq<T>)
    requires StrictWeak(comp) && Sorted(comp, a) && Sorted(comp, b)
    ensures r == Merge(comp, a, b, DIFFERENCE)
    ensures Sorted(comp, r)
    ensures forall x :: Count(comp, x, r) == Surplus(Count(comp, x, a), Count(comp, x, b))
  {
    DifferenceCounts(comp, a, b);
    hide Merge, Sorted, StrictWeak, Count, Max, Min, Surplus;
    assert a[0..] == a && b[0..] == b;
    var i, j := 0, 0;
    r := [];
    while i != |a| && j != |b|
      invariant i <= |a| && j <= |b|
      invariant r + Merge(comp, a[i..], b[j..], DIFFERENCE) == Merge(comp, a, b, DIFFERENCE)
      decreases |a| - i + |b| - j
    {
      MergeStep(comp, a, b, DIFFERENCE, r, i, j);
      var b1ge2, b2ge1 := !comp(a[i], b[j]), !comp(b[j], a[i]);
      if !b1ge2 {
        r := r + [a[i]];
      }
      if b2ge1 { i := i + 1; }
      if b1ge2 { j := j + 1; }
    }
    MergeEnd(comp, a, b, DIFFERENCE, r, i, j);
    r := r + a[i..];
  }

  lemma SymmetricDifferenceCounts<T(!new)>(comp: (T, T) -> bool, a: seq<T>, b: seq<T>)
    requires StrictWeak(comp) && Sorted(comp, a) && Sorted(comp, b)
    ensures Sorted(comp, Merge(comp, a, b, SYMMETRIC_DIFFERENCE))
    ensures forall x :: Count(comp, x, Merge(comp, a, b, SYMMETRIC_DIFFERENCE)) == Max(Count(comp, x, a), Count(comp, x, b)) - Min(Count(comp, x, a), Count(comp, x, b))
  {
    MergeIsResult(comp, a, b, SYMMETRIC_DIFFERENCE);
    hide Merge, Sorted, StrictWeak, Count;
  }

  /** The symmetric difference, the difference of the two numbers. */
  method SetSymmetricDifference<T(!new)>(a: seq<T>, b: seq<T>, comp: (T, T) -> bool) returns (r: seq<T>)
    requires StrictWeak(comp) && Sorted(comp, a) && Sorted(comp, b)
    ensures r == Merge(comp, a, b, SYMMETRIC_DIFFERENCE)
    ensures Sorted(comp, r)
    ensures forall x :: Count(comp, x, r) == Max(Count(comp, x, a), Count(comp, x, b)) - Min(Count(comp, x, a), Count(comp, x, b))
  {
    SymmetricDifferenceCounts(comp, a, b);
    hide Merge, Sorted, StrictWeak, Count, Max, Min, Surplus;
    assert a[0..] == a && b[0..] == b;
    var i, j := 0, 0;
    r := [];
    while i != |a| && j != |b|
      invariant i <= |a| && j <= |b|
      invariant r + Merge(comp, a[i..], b[j..], SYMMETRIC_DIFFERENCE) == Merge(comp, a, b, SYMMETRIC_DIFFERENCE)
      decreases |a| - i + |b| - j
    {
      MergeStep(comp, a, b, SYMMETRIC_DIFFERENCE, r, i, j);
      var b1l2, b2l1 := comp(a[i], b[j]), comp(b[j], a[i]);
      if b1l2 {
        r := r + [a[i]];
      } else if b2l1 {
        r := r + [b[j]];
      }
      if !b2l1 { i := i + 1; }
      if !b1l2 { j := j + 1; }
    }
    MergeEnd(comp, a, b, SYMMETRIC_DIFFERENCE, r, i, j);
    r := r + a[i..] + b[j..];
  }

  /** Nothing of the second range is left over exactly if it is included. */
  lemma NoExcess<T(!new)>(lt: (T, T) -> bool, a: seq<T>, b: seq<T>)
    requires StrictWeak(lt) && Sorted(lt, a) && Sorted(lt, b)
    ensures Merge(lt, a, b, EXCESS) == [] <==> forall x :: Count(lt, x, b) <= Count(lt, x, a)
  {
    var r := Merge(lt, a, b, EXCESS);
    MergeIsResult(lt, a, b, EXCESS);
    if r != [] {
      var x := r[0];
      assert Equiv(lt, x, x) && Count(lt, x, r) > 0;
      assert Count(lt, x, r) == Kept(EXCESS, Count(lt, x, a), Count(lt, x, b));
      assert Count(lt, x, b) > Count(lt, x, a);
    } else {
      forall x ensures Count(lt, x, b) <= Count(lt, x, a) {
        assert Count(lt, x, r) == Kept(EXCESS, Count(lt, x, a), Count(lt, x, b));
      }
    }
  }

  lemma ExcessStep<T>(lt: (T, T) -> bool, a: seq<T>, b: seq<T>, i: nat, j: nat)
    requires i < |a| && j < |b|
    ensures var rest := Merge(lt, a[i..], b[j..], EXCESS);
            if lt(b[j], a[i]) then rest != []
            else if lt(a[i], b[j]) then rest == Merge(lt, a[i + 1..], b[j..], EXCESS)
            else rest == Merge(lt, a[i + 1..], b[j + 1..], EXCESS)
  {
    hide Merge;
    MergeHeads(lt, a, b, EXCESS, i, j);
  }

  /** Whether the second range is a sub-multiset of the first, by equivalence. */
  method Includes<T(!new)>(a: seq<T>, b: seq<T>, comp: (T, T) -> bool) returns (included: bool)
    requires StrictWeak(comp) && Sorted(comp, a) && Sorted(comp, b)
    ensures included <==> forall x :: Count(comp, x, b) <= Count(comp, x, a)
  {
    NoExcess(comp, a, b);
    hide Merge, Sorted, StrictWeak, Count;
    assert a[0..] == a && b[0..] == b;
    var i, j := 0, 0;
    while i != |a| && j != |b|
      invariant i <= |a| && j <= |b|
      invariant Merge(comp, a[i..], b[j..], EXCESS) == Merge(comp, a, b, EXCESS)
      decreases |a| - i
    {
      ExcessStep(comp, a, b, i, j);
      if comp(b[j], a[i]) {
        return false;
      }
      if !comp(a[i], b[j]) { j := j + 1; }
      i := i + 1;
    }
    MergeEnd(comp, a, b, EXCESS, [], i, j);
    return j == |b|;
  }
}
