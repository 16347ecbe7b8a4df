/** stable_partition and stable_sort, both on top of rotate. */
module StableAlgorithms {
  import opened Basics
  import opened Ordering
  import opened Ranges

  /** The elements with a property, in their order. */
  function Filter<T>(s: seq<T>, p: T -> bool): seq<T> {
    if s == [] then [] else (if p(s[0]) then [s[0]] else []) + Filter(s[1..], p)
  }

  function Not<T>(p: T -> bool): T -> bool {
    x => !p(x)
  }

  lemma {:induction false} FilterAppend<T>(a: seq<T>, b: seq<T>, p: T -> bool)
    ensures Filter(a + b, p) == Filter(a, p) + Filter(b, p)
  {
    if a == [] {
      assert a + b == b;
    } else {
      FilterAppend(a[1..], b, p);
      var head := if p(a[0]) then [a[0]] else [];
      assert (a + b)[0] == a[0] && (a + b)[1..] == a[1..] + b;
      assert head + (Filter(a[1..], p) + Filter(b, p)) == (head + Filter(a[1..], p)) + Filter(b, p);
    }
  }

  lemma {:induction false} FilterNone<T>(s: seq<T>, p: T -> bool)
    requires forall i :: 0 <= i < |s| ==> !p(s[i])
    ensures Filter(s, p) == []
  {
    if s != [] {
      FilterNone(s[1..], p);
    }
  }

  /** The elements with the property, each once for every place it has, and in order. */
  lemma {:induction false} FilterInOrder<T>(s: seq<T>, p: T -> bool) returns (at: seq<nat>)
    ensures Selects(s, Filter(s, p), at)
    ensures forall i :: 0 <= i < |s| ==> (i in at <==> p(s[i]))
  {
    at := [];
    if s != [] {
      hide Selects, Indices;
      var rest := FilterInOrder(s[1..], p);
      SelectsMore(s, Filter(s[1..], p), rest, p(s[0]));
      IndicesIn(p(s[0]), rest);
      at := Indices(p(s[0]), rest);
    }
  }

  /** The elements that satisfy pred, then the rest, each in their order. */
  function Partitioned<T>(s: seq<T>, pred: T -> bool): seq<T> {
    Filter(s, pred) + Filter(s, Not(pred))
  }

  lemma {:induction false} PartitionedElements<T>(s: seq<T>, pred: T -> bool)
    ensures multiset(Partitioned(s, pred)) == multiset(s)
  {
    if s != [] {
      PartitionedElements(s[1..], pred);
      assert s == [s[0]] + s[1..];
    }
  }

  /** Before the boundary everything satisfies pred, behind it nothing does. */
  lemma PartitionedAt<T>(s: seq<T>, pred: T -> bool, k: nat)
    requires k < |Partitioned(s, pred)|
    ensures pred(Partitioned(s, pred)[k]) <==> k < |Filter(s, pred)|
  {
    var yes := FilterInOrder(s, pred);
    var no := FilterInOrder(s, Not(pred));
    if k < |yes| {
      assert yes[k] in yes;
    } else {
      assert no[k - |yes|] in no;
    }
  }

  lemma PartitionedLength<T>(s: seq<T>, pred: T -> bool)
    ensures |Partitioned(s, pred)| == |s|
  {
    PartitionedElements(s, pred);
    assert |multiset(Partitioned(s, pred))| == |multiset(s)|;
  }

  lemma MiddleParts<T>(a: seq<T>, x: seq<T>, y: seq<T>, b: seq<T>)
    ensures var t, l, mid, r := a + x + y + b, |a|, |a| + |x|, |a| + |x| + |y|;
            Patch(t, l, r, t[mid..r] + t[l..mid]) == a + y + x + b
  {
    var t, l, mid, r := a + x + y + b, |a|, |a| + |x|, |a| + |x| + |y|;
    assert t[..l] == a && t[l..mid] == x && t[mid..r] == y && t[r..] == b;
  }

  /** Swapping the middle parts of two halves that are in two parts each. */
  lemma SwapMiddle<T>(p: seq<T>, at: seq<T>, af: seq<T>, bt: seq<T>, bf: seq<T>, d: seq<T>)
    ensures var t := p + (at + af) + (bt + bf) + d;
            var l, mid, r := |p| + |at|, |p| + |at| + |af|, |p| + |at| + |af| + |bt|;
            Patch(t, l, r, t[mid..r] + t[l..mid]) == p + ((at + bt) + (af + bf)) + d
  {
    hide Patch;
    MiddleParts(p + at, af, bt, bf + d);
    Regroup(p, at, af, bt, bf, d);
    Regroup(p, at, bt, af, bf, d);
    Associative(p, at + bt, af + bf);
  }

  lemma Associative<T>(a: seq<T>, b: seq<T>, c: seq<T>)
    ensures a + b + c == a + (b + c)
  {
  }

  lemma Regroup<T>(a: seq<T>, b: seq<T>, c: seq<T>, d: seq<T>, e: seq<T>, f: seq<T>)
    ensures a + (b + c) + (d + e) + f == a + b + c + d + (e + f)
  {
    Associative(a, b, c);
    Associative(a + b + c, d, e);
    Associative(a + b + c + d, e, f);
  }

  lemma PartsJoin<T>(s: seq<T>, lo: nat, mid: nat, hi: nat, at: seq<T>, af: seq<T>, bt: seq<T>, bf: seq<T>)
    requires lo <= mid <= hi <= |s| && |at| + |af| == mid - lo && |bt| + |bf| == hi - mid
    ensures |Patch(s, lo, mid, at + af)| == |s|
    ensures var t := Patch(Patch(s, lo, mid, at + af), mid, hi, bt + bf);
            var l, r := lo + |at|, mid + |bt|;
            |t| == |s| && Patch(t, l, r, t[mid..r] + t[l..mid]) == Patch(s, lo, hi, (at + bt) + (af + bf))
  {
    PatchPatch(s, lo, mid, hi, at + af, bt + bf);
    var t := Patch(s, lo, hi, (at + af) + (bt + bf));
    assert t == s[..lo] + (at + af) + (bt + bf) + s[hi..];
    SwapMiddle(s[..lo], at, af, bt, bf, s[hi..]);
  }

  lemma FilterHalves<T>(s: seq<T>, lo: nat, mid: nat, hi: nat, p: T -> bool)
    requires lo <= mid <= hi <= |s|
    ensures Filter(s[lo..hi], p) == Filter(s[lo..mid], p) + Filter(s[mid..hi], p)
  {
    assert s[lo..hi] == s[lo..mid] + s[mid..hi];
    FilterAppend(s[lo..mid], s[mid..hi], p);
  }

  /** Two partitioned halves, the middle parts swapped. */
  lemma HalvesJoin<T>(s: seq<T>, lo: nat, mid: nat, hi: nat, pred: T -> bool, t: seq<T>)
    requires lo <= mid <= hi <= |s|
    requires |Partitioned(s[lo..mid], pred)| == mid - lo && |Partitioned(s[mid..hi], pred)| == hi - mid
    requires t == Patch(Patch(s, lo, mid, Partitioned(s[lo..mid], pred)), mid, hi, Partitioned(s[mid..hi], pred))
    ensures var l, r := lo + |Filter(s[lo..mid], pred)|, mid + |Filter(s[mid..hi], pred)|;
            && lo <= l <= mid <= r <= hi <= |t|
            && Patch(t, l, r, t[mid..r] + t[l..mid]) == Patch(s, lo, hi, Partitioned(s[lo..hi], pred))
            && l + (r - mid) == lo + |Filter(s[lo..hi], pred)|
  {
    hide Filter, Not, Patch;
    var a, b := s[lo..mid], s[mid..hi];
    FilterHalves(s, lo, mid, hi, pred);
    FilterHalves(s, lo, mid, hi, Not(pred));
    PartsJoin(s, lo, mid, hi, Filter(a, pred), Filter(a, Not(pred)), Filter(b, pred), Filter(b, Not(pred)));
  }

  lemma NonePartitioned<T>(s: seq<T>, lo: nat, pred: T -> bool)
    requires lo <= |s|
    ensures Patch(s, lo, lo, Partitioned(s[lo..lo], pred)) == s && Filter(s[lo..lo], pred) == []
  {
  }

  lemma OnePartitioned<T>(s: seq<T>, lo: nat, pred: T -> bool)
    requires lo < |s|
    ensures Patch(s, lo, lo + 1, Partitioned(s[lo..lo + 1], pred)) == s
    ensures |Filter(s[lo..lo + 1], pred)| == if pred(s[lo]) then 1 else 0
  {
    var one := s[lo..lo + 1];
    assert one == [s[lo]] && one[1..] == [];
    assert Filter(one, pred) == if pred(s[lo]) then [s[lo]] else [];
    assert Filter(one, Not(pred)) == if pred(s[lo]) then [] else [s[lo]];
  }

  /** Partitions both halves, then rotates the middle. */
  method StablePartition<T>(a: array<T>, first: nat, last: nat, pred: T -> bool) returns (boundary: nat)
    requires first <= last <= a.Length
    modifies a
    ensures var s := old(a[..]);
            && a[..] == Patch(s, first, last, Partitioned(s[first..last], pred))
            && boundary == first + |Filter(s[first..last], pred)|
    decreases last - first
  {
    ghost var s := a[..];
    hide Filter, Partitioned, Patch;
    if first == last {
      NonePartitioned(s, first, pred);
      return first;
    }
    var m := first + (last - first) / 2;
    if first == m {
      OnePartitioned(s, first, pred);
      return if pred(a[first]) then last else first;
    }
    HalvesFit(s, first, m, last, pred);
    var l := StablePartition(a, first, m, pred);
    var r := StablePartition(a, m, last, pred);
    boundary := JoinHalves(a, first, m, last, l, r, pred, s);
  }

  lemma HalvesFit<T>(s: seq<T>, lo: nat, mid: nat, hi: nat, pred: T -> bool)
    requires lo <= mid <= hi <= |s|
    ensures |Partitioned(s[lo..mid], pred)| == mid - lo && |Partitioned(s[mid..hi], pred)| == hi - mid
    ensures Patch(s, lo, mid, Partitioned(s[lo..mid], pred))[mid..hi] == s[mid..hi]
    ensures |Patch(s, lo, mid, Partitioned(s[lo..mid], pred))| == |s|
  {
    PartitionedLength(s[lo..mid], pred);
    PartitionedLength(s[mid..hi], pred);
  }

  /** The rotation that brings the first parts of two partitioned halves together. */
  method JoinHalves<T>(a: array<T>, first: nat, m: nat, last: nat, l: nat, r: nat, pred: T -> bool, ghost s: seq<T>)
    returns (boundary: nat)
    requires first <= m <= last <= |s| == a.Length
    requires |Partitioned(s[first..m], pred)| == m - first && |Partitioned(s[m..last], pred)| == last - m
    requires a[..] == Patch(Patch(s, first, m, Partitioned(s[first..m], pred)), m, last, Partitioned(s[m..last], pred))
    requires l == first + |Filter(s[first..m], pred)| && r == m + |Filter(s[m..last], pred)|
    modifies a
    ensures a[..] == Patch(s, first, last, Partitioned(s[first..last], pred))
    ensures boundary == first + |Filter(s[first..last], pred)|
  {
    hide Filter, Partitioned, Patch;
    HalvesJoin(s, first, m, last, pred, a[..]);
    var moved := Rotate(a, l, m, r);
    return l + (r - m);
  }

  /** The elements equivalent to x, in their order. */
  function Class<T>(lt: (T, T) -> bool, x: T, s: seq<T>): seq<T> {
    Filter(s, y => Equiv(lt, x, y))
  }

  /** No two equivalent elements have changed their order. */
  ghost predicate SameClasses<T(!new)>(lt: (T, T) -> bool, a: seq<T>, b: seq<T>) {
    forall x :: Class(lt, x, a) == Class(lt, x, b)
  }

  /** s with the element at i moved to j. */
  function Moved<T>(s: seq<T>, j: nat, i: nat): seq<T>
    requires j <= i < |s|
  {
    s[..j] + [s[i]] + s[j..i] + s[i + 1..]
  }

  /** Moving an element before greater ones keeps every class. */
  lemma MovedClass<T(!new)>(lt: (T, T) -> bool, s: seq<T>, j: nat, i: nat, x: T)
    requires StrictWeak(lt) && j <= i < |s| && forall k :: j <= k < i ==> lt(s[i], s[k])
    ensures Class(lt, x, Moved(s, j, i)) == Class(lt, x, s)
  {
    var p := y => Equiv(lt, x, y);
    var a, b, c, d := s[..j], s[j..i], [s[i]], s[i + 1..];
    if p(s[i]) {
      FilterNone(b, p);
    } else {
      FilterNone(c, p);
    }
    MovedParts(s, j, i);
    hide Filter, Moved, StrictWeak;
    FilterFour(a, b, c, d, p);
    FilterFour(a, c, b, d, p);
  }

  lemma MovedParts<T>(s: seq<T>, j: nat, i: nat)
    requires j <= i < |s|
    ensures s == s[..j] + s[j..i] + [s[i]] + s[i + 1..] && Moved(s, j, i) == s[..j] + [s[i]] + s[j..i] + s[i + 1..]
  {
  }

  lemma FilterFour<T>(a: seq<T>, b: seq<T>, c: seq<T>, d: seq<T>, p: T -> bool)
    ensures Filter(a + b + c + d, p) == Filter(a, p) + Filter(b, p) + Filter(c, p) + Filter(d, p)
  {
    FilterAppend(a, b, p);
    FilterAppend(a + b, c, p);
    FilterAppend(a + b + c, d, p);
  }

  lemma MovedElements<T>(s: seq<T>, j: nat, i: nat)
    requires j <= i < |s|
    ensures |Moved(s, j, i)| == |s| && multiset(Moved(s, j, i)) == multiset(s)
  {
    assert s == s[..j] + s[j..i] + [s[i]] + s[i + 1..];
  }

  /** The first i elements are in order. */
  ghost predicate SortedTo<T>(lt: (T, T) -> bool, s: seq<T>, i: nat) {
    forall k, m :: 0 <= k < m < i && m < |s| ==> !lt(s[m], s[k])
  }

  lemma MovedSorted<T(!new)>(lt: (T, T) -> bool, s: seq<T>, j: nat, i: nat)
    requires StrictWeak(lt) && j <= i < |s| && SortedTo(lt, s, i)
    requires forall k :: j <= k < i ==> lt(s[i], s[k])
    requires j > 0 ==> !lt(s[i], s[j - 1])
    ensures SortedTo(lt, Moved(s, j, i), i + 1)
  {
    var r := Moved(s, j, i);
    assert forall k :: 0 <= k <= i ==> r[k] == if k < j then s[k] else if k == j then s[i] else s[k - 1];
    hide Moved;
    forall k | 0 <= k < j ensures !lt(s[i], s[k]) {
      if k < j - 1 {
        assert !lt(s[j - 1], s[k]);
      }
    }
  }

  /** The inner loop: back over the elements greater than the one at i. */
  method FindPlace<T>(a: array<T>, i: nat, comp: (T, T) -> bool) returns (j: nat)
    requires 0 < i < a.Length
    ensures j <= i && (forall k :: j <= k < i ==> comp(a[i], a[k])) && (j > 0 ==> !comp(a[i], a[j - 1]))
  {
    var back := i - 1;
    while 0 <= back && comp(a[i], a[back])
      invariant -1 <= back < i
      invariant forall k :: back < k < i ==> comp(a[i], a[k])
    {
      back := back - 1;
    }
    j := back + 1;
  }

  /** Insertion sort: looks back for the place of the element at i and rotates it there. */
  method StableSort<T(!new)>(a: array<T>, comp: (T, T) -> bool)
    requires StrictWeak(comp)
    modifies a
    ensures Sorted(comp, a[..])
    ensures multiset(a[..]) == multiset(old(a[..])) && SameClasses(comp, a[..], old(a[..]))
  {
    ghost var s := a[..];
    SortedStart(comp, s);
    hide SortedTo, SameClasses, Moved, Class, Progress, StrictWeak, Sorted;
    var i := 1;
    while i < a.Length
      invariant 0 < i && (i <= a.Length || a.Length == 0)
      invariant Progress(comp, s, a[..], i)
    {
      var j := FindPlace(a, i, comp);
      Inserted(comp, s, a[..], j, i);
      Insert(a, j, i);
      i := i + 1;
    }
    SortedEnd(comp, s, a[..], i);
  }

  /** s rearranged into r, its first i elements in order, every class in its old order. */
  ghost predicate Progress<T(!new)>(lt: (T, T) -> bool, s: seq<T>, r: seq<T>, i: nat) {
    SortedTo(lt, r, i) && multiset(r) == multiset(s) && SameClasses(lt, r, s)
  }

  lemma SortedStart<T(!new)>(lt: (T, T) -> bool, s: seq<T>)
    ensures Progress(lt, s, s, 1)
  {
    hide Class;
  }

  lemma SortedEnd<T(!new)>(lt: (T, T) -> bool, s: seq<T>, r: seq<T>, i: nat)
    requires Progress(lt, s, r, i) && |r| <= i
    ensures Sorted(lt, r) && multiset(r) == multiset(s) && SameClasses(lt, r, s)
  {
    hide Class;
  }

  /** The rotation that puts the element at i in its place, if it is not there. */
  method Insert<T>(a: array<T>, j: nat, i: nat)
    requires j <= i < a.Length
    modifies a
    ensures a[..] == Moved(old(a[..]), j, i)
  {
    ghost var s := a[..];
    if j != i {
      assert s[i..i + 1] + s[j..i] == [s[i]] + s[j..i];
      var moved := Rotate(a, j, i, i + 1);
    } else {
      assert s == s[..i] + [s[i]] + s[i + 1..];
    }
  }

  lemma Inserted<T(!new)>(lt: (T, T) -> bool, s: seq<T>, r: seq<T>, j: nat, i: nat)
    requires StrictWeak(lt) && j <= i < |r| && Progress(lt, s, r, i)
    requires forall k :: j <= k < i ==> lt(r[i], r[k])
    requires j > 0 ==> !lt(r[i], r[j - 1])
    ensures Progress(lt, s, Moved(r, j, i), i + 1)
  {
    MovedSorted(lt, r, j, i);
    MovedElements(r, j, i);
    hide Moved, Class, SortedTo;
    forall x ensures Class(lt, x, Moved(r, j, i)) == Class(lt, x, s) {
      MovedClass(lt, r, j, i, x);
    }
  }

  /** Sorted and stable leaves no choice: there is one such arrangement. */
  lemma {:induction false} StableSortIsUnique<T(!new)>(lt: (T, T) -> bool, a: seq<T>, b: seq<T>)
    requires StrictWeak(lt) && Sorted(lt, a) && Sorted(lt, b) && SameClasses(lt, a, b)
    ensures a == b
    decreases |a|
  {
    if a == [] {
      if b != [] {
        OwnClass(lt, b);
      }
    } else {
      SameHead(lt, a, b);
      var x := a[0];
      forall z ensures Class(lt, z, a[1..]) == Class(lt, z, b[1..]) {
        var head := if Equiv(lt, z, x) then [x] else [];
        assert Class(lt, z, a) == head + Class(lt, z, a[1..]);
        assert Class(lt, z, b) == head + Class(lt, z, b[1..]);
        assert Class(lt, z, a)[|head|..] == Class(lt, z, a[1..]);
        assert Class(lt, z, b)[|head|..] == Class(lt, z, b[1..]);
      }
      StableSortIsUnique(lt, a[1..], b[1..]);
      assert a == [x] + a[1..] && b == [x] + b[1..];
    }
  }

  lemma OwnClass<T(!new)>(lt: (T, T) -> bool, s: seq<T>)
    requires StrictWeak(lt) && s != []
    ensures Class(lt, s[0], s) != [] && Class(lt, s[0], s)[0] == s[0]
  {
  }

  lemma SameHead<T(!new)>(lt: (T, T) -> bool, a: seq<T>, b: seq<T>)
    requires StrictWeak(lt) && Sorted(lt, a) && Sorted(lt, b) && SameClasses(lt, a, b) && a != []
    ensures b != [] && b[0] == a[0]
  {
    var x := a[0];
    assert Class(lt, x, a)[0] == x;
    assert Class(lt, x, b) != [];
    var m := ClassInhabited(lt, x, b);
    var y := b[0];
    assert Class(lt, y, b)[0] == y;
    assert Class(lt, y, a) != [];
    var k := ClassInhabited(lt, y, a);
    assert !lt(b[m], y) && !lt(a[k], x);
    assert Equiv(lt, x, y);
    assert Class(lt, x, b)[0] == y;
  }

  lemma {:induction false} ClassInhabited<T>(lt: (T, T) -> bool, x: T, s: seq<T>) returns (m: nat)
    requires Class(lt, x, s) != []
    ensures m < |s| && Equiv(lt, x, s[m])
  {
    if Equiv(lt, x, s[0]) {
      m := 0;
    } else {
      m := ClassInhabited(lt, x, s[1..]);
      m := m + 1;
    }
  }
}
