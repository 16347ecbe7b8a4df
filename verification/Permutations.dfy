/** next_permutation and prev_permutation. */
module Permutations {
  import opened Ordering
  import opened Ranges

  /** The last place where the sequence ascends. */
  ghost predicate IsPivot<T>(lt: (T, T) -> bool, s: seq<T>, i: nat) {
    && i + 1 < |s| && lt(s[i], s[i + 1])
    && forall k, m :: i < k && m == k + 1 && m < |s| ==> !lt(s[k], s[m])
  }

  /** The last element greater than the one at i. */
  ghost predicate IsSuccessor<T>(lt: (T, T) -> bool, s: seq<T>, i: nat, j: nat) {
    i < j < |s| && lt(s[i], s[j]) && forall k :: j < k < |s| ==> !lt(s[i], s[k])
  }

  ghost predicate Descends<T>(lt: (T, T) -> bool, s: seq<T>) {
    forall k, m :: 0 <= k && m == k + 1 && m < |s| ==> !lt(s[k], s[m])
  }

  /** s with i and j swapped and everything behind i reversed. */
  function Stepped<T>(s: seq<T>, i: nat, j: nat): seq<T>
    requires i < j < |s|
  {
    s[..i] + [s[j]] + Reversed(s[i + 1..j] + [s[i]] + s[j + 1..])
  }

  /** What one call does: `ok` is its result, r what it leaves. */
  ghost predicate IsStep<T>(lt: (T, T) -> bool, s: seq<T>, ok: bool, r: seq<T>) {
    if |s| < 2 then !ok && r == s
    else if ok then exists i, j :: IsPivot(lt, s, i) && IsSuccessor(lt, s, i, j) && r == Stepped(s, i, j)
    else Descends(lt, s) && r == Reversed(s)
  }

  ghost predicate Arrangement<T>(a: seq<T>, b: seq<T>) {
    |a| == |b| && multiset(a) == multiset(b)
  }

  /** What one call is for. */
  ghost predicate IsNextArrangement<T(!new)>(lt: (T, T) -> bool, s: seq<T>, ok: bool, r: seq<T>) {
    && Arrangement(r, s)
    && (ok <==> exists c :: Arrangement(c, s) && LexLess(lt, s, c))
    && (ok ==> LexLess(lt, s, r) && forall c :: Arrangement(c, s) && LexLess(lt, s, c) ==> !LexLess(lt, c, r))
    && (!ok ==> Sorted(lt, r))
  }

  // ---------------------------------------------------------------------
  // A descending rest
  // ---------------------------------------------------------------------

  /** What descends from neighbour to neighbour descends. */
  lemma {:induction false} DescendsFar<T(!new)>(lt: (T, T) -> bool, s: seq<T>, k: nat, m: nat)
    requires StrictWeak(lt) && Descends(lt, s) && k < m < |s|
    ensures !lt(s[k], s[m])
    decreases m - k
  {
    if k + 1 < m {
      DescendsFar(lt, s, k + 1, m);
      assert !lt(s[k], s[k + 1]);
    }
  }

  lemma PivotRest<T(!new)>(lt: (T, T) -> bool, s: seq<T>, i: nat, k: nat, m: nat)
    requires StrictWeak(lt) && IsPivot(lt, s, i) && i < k < m < |s|
    ensures !lt(s[k], s[m])
  {
    var rest := s[i + 1..];
    assert Descends(lt, rest) by {
      forall x, y | 0 <= x && y == x + 1 && y < |rest| ensures !lt(rest[x], rest[y]) {
        assert rest[x] == s[x + i + 1] && rest[y] == s[y + i + 1];
      }
    }
    DescendsFar(lt, rest, k - i - 1, m - i - 1);
  }

  /** What stands where after a step. */
  lemma SteppedAt<T>(s: seq<T>, i: nat, j: nat)
    requires i < j < |s|
    ensures var r := Stepped(s, i, j);
            && |r| == |s| && r[..i] == s[..i] && r[i] == s[j]
            && forall k :: i < k < |s| ==> r[k] == if k == |s| + i - j then s[i] else s[|s| + i - k]
  {
    ReversedIs(s[i + 1..j] + [s[i]] + s[j + 1..]);
  }

  lemma SteppedElements<T>(s: seq<T>, i: nat, j: nat)
    requires i < j < |s|
    ensures Arrangement(Stepped(s, i, j), s)
  {
    var rest := s[i + 1..j] + [s[i]] + s[j + 1..];
    ReversedElements(rest);
    assert s == s[..i] + [s[i]] + s[i + 1..j] + [s[j]] + s[j + 1..];
  }

  /** Behind the pivot the result ascends. */
  lemma SteppedSorted<T(!new)>(lt: (T, T) -> bool, s: seq<T>, i: nat, j: nat, k: nat, m: nat)
    requires StrictWeak(lt) && IsPivot(lt, s, i) && IsSuccessor(lt, s, i, j) && i < k < m < |s|
    ensures !lt(Stepped(s, i, j)[m], Stepped(s, i, j)[k])
  {
    SteppedAt(s, i, j);
    var n := |s| + i;
    if m == n - j {
      // the element from the pivot, and one from behind j
      assert !lt(s[i], s[n - k]);
    } else if k == n - j {
      // one from before j, and the element from the pivot
      if n - m < j {
        PivotRest(lt, s, i, n - m, j);
      }
    } else {
      PivotRest(lt, s, i, n - m, n - k);
    }
  }

  // ---------------------------------------------------------------------
  // Least among the greater ones
  // ---------------------------------------------------------------------

  lemma StepIsGreater<T(!new)>(lt: (T, T) -> bool, s: seq<T>, i: nat, j: nat)
    requires StrictWeak(lt) && IsPivot(lt, s, i) && IsSuccessor(lt, s, i, j)
    ensures LexLess(lt, s, Stepped(s, i, j))
  {
    SteppedAt(s, i, j);
    assert AllEquiv(lt, s[..i], Stepped(s, i, j)[..i]);
  }

  /** An arrangement greater than s differs at the pivot or before. */
  lemma GreaterByPivot<T(!new)>(lt: (T, T) -> bool, s: seq<T>, i: int, c: seq<T>, k: nat)
    requires StrictWeak(lt) && Arrangement(c, s)
    requires if i >= 0 then IsPivot(lt, s, i) else Descends(lt, s)
    requires k < |s| && AllEquiv(lt, s[..k], c[..k]) && lt(s[k], c[k])
    ensures k <= i
  {
    if k > i {
      forall m | k <= m < |s| ensures !lt(s[k], s[m]) {
        if k < m {
          if i >= 0 { PivotRest(lt, s, i, k, m); } else { DescendsFar(lt, s, k, m); }
        }
      }
      TopAt(lt, s, c, k);
    }
  }

  /** c cannot fall below the result at the pivot: the successor is least among the greater ones. */
  lemma LeastAtPivot<T(!new)>(lt: (T, T) -> bool, s: seq<T>, i: nat, j: nat, c: seq<T>)
    requires StrictWeak(lt) && IsPivot(lt, s, i) && IsSuccessor(lt, s, i, j)
    requires Arrangement(c, s) && AllEquiv(lt, c[..i], s[..i]) && lt(s[i], c[i])
    ensures !lt(c[i], s[j])
  {
    var m := EquivInTail(lt, c, s, i);
    assert m != i && lt(s[i], s[m]);
    if m < j {
      PivotRest(lt, s, i, m, j);
    }
  }

  /** Nor behind it: there the result ascends. */
  lemma LeastBehindPivot<T(!new)>(lt: (T, T) -> bool, s: seq<T>, i: nat, j: nat, c: seq<T>, q: nat)
    requires StrictWeak(lt) && IsPivot(lt, s, i) && IsSuccessor(lt, s, i, j)
    requires Arrangement(c, s) && i < q < |s| == |Stepped(s, i, j)| && AllEquiv(lt, c[..q], Stepped(s, i, j)[..q])
    ensures !lt(c[q], Stepped(s, i, j)[q])
  {
    var r := Stepped(s, i, j);
    SteppedElements(s, i, j);
    var m := EquivInTail(lt, c, r, q);
    if q < m {
      SteppedSorted(lt, s, i, j, q, m);
    }
  }

  /** So an arrangement greater than s is not smaller than what the step leaves. */
  lemma StepIsLeast<T(!new)>(lt: (T, T) -> bool, s: seq<T>, i: nat, j: nat, c: seq<T>)
    requires StrictWeak(lt) && IsPivot(lt, s, i) && IsSuccessor(lt, s, i, j)
    requires Arrangement(c, s) && LexLess(lt, s, c)
    ensures !LexLess(lt, c, Stepped(s, i, j))
  {
    SteppedAt(s, i, j);
    hide Stepped, IsSuccessor, IsPivot;
    var k :| 0 <= k < |s| && AllEquiv(lt, s[..k], c[..k]) && lt(s[k], c[k]);
    GreaterByPivot(lt, s, i, c, k);
    forall q | 0 <= q < |c| && AllEquiv(lt, c[..q], Stepped(s, i, j)[..q]) ensures !lt(c[q], Stepped(s, i, j)[q]) {
      StepNotBeyond(lt, s, i, j, c, k, q);
    }
  }

  lemma StepNotBeyond<T(!new)>(lt: (T, T) -> bool, s: seq<T>, i: nat, j: nat, c: seq<T>, k: nat, q: nat)
    requires StrictWeak(lt) && IsPivot(lt, s, i) && IsSuccessor(lt, s, i, j) && |Stepped(s, i, j)| == |s|
    requires Arrangement(c, s) && k <= i && AllEquiv(lt, s[..k], c[..k]) && lt(s[k], c[k])
    requires q < |s| && AllEquiv(lt, c[..q], Stepped(s, i, j)[..q])
    ensures !lt(c[q], Stepped(s, i, j)[q])
  {
    var r := Stepped(s, i, j);
    SteppedAt(s, i, j);
    hide Stepped, IsSuccessor, IsPivot;
    assert forall x :: 0 <= x < i ==> r[x] == r[..i][x] == s[..i][x] == s[x];
    if k < q {
      if k == i {
        LeastBehindPivot(lt, s, i, j, c, q);
      }
    } else if q < k {
      assert Equiv(lt, s[..k][q], c[..k][q]);
    } else if k == i {
      assert AllEquiv(lt, c[..i], s[..i]);
      LeastAtPivot(lt, s, i, j, c);
    }
  }

  // ---------------------------------------------------------------------
  // One call
  // ---------------------------------------------------------------------

  lemma StepIsNext<T(!new)>(lt: (T, T) -> bool, s: seq<T>, ok: bool, r: seq<T>)
    requires StrictWeak(lt) && IsStep(lt, s, ok, r)
    ensures IsNextArrangement(lt, s, ok, r)
  {
    if ok {
      var i, j :| IsPivot(lt, s, i) && IsSuccessor(lt, s, i, j) && r == Stepped(s, i, j);
      SteppedElements(s, i, j);
      StepIsGreater(lt, s, i, j);
      forall c | Arrangement(c, s) && LexLess(lt, s, c) ensures !LexLess(lt, c, r) {
        StepIsLeast(lt, s, i, j, c);
      }
    } else {
      LastArrangement(lt, s, r);
    }
  }

  lemma LastArrangement<T(!new)>(lt: (T, T) -> bool, s: seq<T>, r: seq<T>)
    requires StrictWeak(lt) && IsStep(lt, s, false, r)
    ensures Arrangement(r, s) && Sorted(lt, r) && !exists c :: Arrangement(c, s) && LexLess(lt, s, c)
  {
    if |s| >= 2 {
      ReversedIs(s);
      ReversedElements(s);
      forall k, m | 0 <= k < m < |r| ensures !lt(r[m], r[k]) {
        DescendsFar(lt, s, |s| - 1 - m, |s| - 1 - k);
      }
    }
    forall c | Arrangement(c, s) ensures !LexLess(lt, s, c) {
      forall k | 0 <= k < |s| && AllEquiv(lt, s[..k], c[..k]) ensures !lt(s[k], c[k]) {
        if lt(s[k], c[k]) {
          GreaterByPivot(lt, s, -1, c, k);
        }
      }
    }
  }

  /** A step in the flipped order undoes a step, exactly: it leaves the very sequence. */
  lemma PreviousUndoesNext<T(!new)>(lt: (T, T) -> bool, s: seq<T>, ok: bool, r: seq<T>)
    requires StrictWeak(lt) && IsStep(lt, s, ok, r)
    ensures IsStep(Flip(lt), r, ok, s)
  {
    if ok {
      var i, j :| IsPivot(lt, s, i) && IsSuccessor(lt, s, i, j) && r == Stepped(s, i, j);
      var j' := |s| + i - j;
      SteppedAt(s, i, j);
      UndoPivot(lt, s, i, j);
      UndoSuccessor(lt, s, i, j);
      UndoStep(s, i, j);
    } else if |s| >= 2 {
      ReversedIs(s);
      ReversedTwice(s);
    }
  }

  /** A step has one outcome. */
  lemma StepIsUnique<T(!new)>(lt: (T, T) -> bool, s: seq<T>, ok: bool, r: seq<T>, ok': bool, r': seq<T>)
    requires IsStep(lt, s, ok, r) && IsStep(lt, s, ok', r')
    ensures ok' == ok && r' == r
  {
    hide Stepped;
    if ok && ok' {
      var i, j :| IsPivot(lt, s, i) && IsSuccessor(lt, s, i, j) && r == Stepped(s, i, j);
      var i', j' :| IsPivot(lt, s, i') && IsSuccessor(lt, s, i', j') && r' == Stepped(s, i', j');
      assert i == i' && j == j';
    }
  }

  /** So prev_permutation after next_permutation gives the same result and leaves the sequence as it
      was. */
  lemma NextThenPrevious<T(!new)>(lt: (T, T) -> bool, s: seq<T>, ok: bool, r: seq<T>, ok': bool, r': seq<T>)
    requires StrictWeak(lt) && IsStep(lt, s, ok, r) && IsStep(Flip(lt), r, ok', r')
    ensures ok' == ok && r' == s
  {
    PreviousUndoesNext(lt, s, ok, r);
    StepIsUnique(Flip(lt), r, ok, s, ok', r');
  }

  lemma UndoPivot<T(!new)>(lt: (T, T) -> bool, s: seq<T>, i: nat, j: nat)
    requires StrictWeak(lt) && IsPivot(lt, s, i) && IsSuccessor(lt, s, i, j)
    ensures IsPivot(Flip(lt), Stepped(s, i, j), i)
  {
    var r := Stepped(s, i, j);
    SteppedAt(s, i, j);
    assert lt(r[i + 1], r[i]) by {
      if j < |s| - 1 {
        assert r[i + 1] == s[|s| - 1];
      }
    }
    forall k, m | i < k && m == k + 1 && m < |r| ensures !lt(r[m], r[k]) {
      SteppedSorted(lt, s, i, j, k, m);
    }
  }

  lemma UndoSuccessor<T(!new)>(lt: (T, T) -> bool, s: seq<T>, i: nat, j: nat)
    requires StrictWeak(lt) && IsPivot(lt, s, i) && IsSuccessor(lt, s, i, j)
    ensures IsSuccessor(Flip(lt), Stepped(s, i, j), i, |s| + i - j)
  {
    var r, j' := Stepped(s, i, j), |s| + i - j;
    SteppedAt(s, i, j);
    forall k | j' < k < |r| ensures !lt(r[k], r[i]) {
      PivotRest(lt, s, i, |s| + i - k, j);
    }
  }

  lemma UndoStep<T>(s: seq<T>, i: nat, j: nat)
    requires i < j < |s|
    ensures |Stepped(s, i, j)| == |s| && Stepped(Stepped(s, i, j), i, |s| + i - j) == s
  {
    SteppedAt(s, i, j);
    SteppedAt(Stepped(s, i, j), i, |s| + i - j);
  }

  method SwapAndReverse<T>(a: array<T>, i: nat, j: nat)
    requires i < j < a.Length
    modifies a
    ensures a[..] == Stepped(old(a[..]), i, j)
  {
    hide Stepped, Reversed;
    ghost var s := a[..];
    a[i], a[j] := a[j], a[i];
    ghost var t := a[..];
    assert t == s[i := s[j]][j := s[i]] && t[i + 1..a.Length] == t[i + 1..];
    Reverse(a, i + 1, a.Length);
    SwappedIs(s, i, j, a[..]);
  }

  /** Leaves the next arrangement in lexicographic order, or the first one after the last. */
  method NextPermutation<T(!new)>(a: array<T>, comp: (T, T) -> bool) returns (ok: bool)
    requires StrictWeak(comp)
    modifies a
    ensures IsStep(comp, old(a[..]), ok, a[..])
    ensures IsNextArrangement(comp, old(a[..]), ok, a[..])
  {
    hide IsNextArrangement, Stepped, StrictWeak, Reversed;
    ghost var s := a[..];
    if a.Length < 2 {
      StepIsNext(comp, s, false, s);
      return false;
    }
    var i := a.Length - 1;
    while i != 0
      invariant 0 <= i < a.Length && a[..] == s
      invariant forall k, m :: i <= k && m == k + 1 && m < |s| ==> !comp(s[k], s[m])
    {
      i := i - 1;
      if comp(a[i], a[i + 1]) {
        var j := a.Length - 1;
        while !comp(a[i], a[j])
          invariant i < j < a.Length && forall k :: j < k < |s| ==> !comp(s[i], s[k])
          decreases j
        {
          j := j - 1;
        }
        assert IsPivot(comp, s, i) && IsSuccessor(comp, s, i, j);
        SwapAndReverse(a, i, j);
        StepIsNext(comp, s, true, a[..]);
        return true;
      }
    }
    assert s[0..a.Length] == s;
    Reverse(a, 0, a.Length);
    StepIsNext(comp, s, false, a[..]);
    return false;
  }

  lemma SwappedIs<T>(s: seq<T>, i: nat, j: nat, r: seq<T>)
    requires i < j < |s|
    requires var t := s[i := s[j]][j := s[i]]; r == Patch(t, i + 1, |s|, Reversed(t[i + 1..]))
    ensures r == Stepped(s, i, j)
  {
    var t := s[i := s[j]][j := s[i]];
    assert t[i + 1..] == s[i + 1..j] + [s[i]] + s[j + 1..];
  }

  lemma FlipIsWeak<T(!new)>(lt: (T, T) -> bool)
    requires StrictWeak(lt)
    ensures StrictWeak(Flip(lt))
  {
  }

  /** The same with the order flipped: the greatest arrangement below. */
  method PrevPermutation<T(!new)>(a: array<T>, comp: (T, T) -> bool) returns (ok: bool)
    requires StrictWeak(comp)
    modifies a
    ensures IsStep(Flip(comp), old(a[..]), ok, a[..])
    ensures IsNextArrangement(Flip(comp), old(a[..]), ok, a[..])
  {
    ghost var s := a[..];
    ghost var up := Flip(comp);
    hide IsNextArrangement, Stepped, StrictWeak, Reversed;
    FlipIsWeak(comp);
    if a.Length < 2 {
      StepIsNext(up, s, false, s);
      return false;
    }
    var i := a.Length - 1;
    while i != 0
      invariant 0 <= i < a.Length && a[..] == s
      invariant forall k, m :: i <= k && m == k + 1 && m < |s| ==> !comp(s[m], s[k])
    {
      i := i - 1;
      if comp(a[i + 1], a[i]) {
        var j := a.Length - 1;
        while !comp(a[j], a[i])
          invariant i < j < a.Length && forall k :: j < k < |s| ==> !comp(s[k], s[i])
          decreases j
        {
          j := j - 1;
        }
        assert IsPivot(up, s, i) && IsSuccessor(up, s, i, j);
        SwapAndReverse(a, i, j);
        StepIsNext(up, s, true, a[..]);
        return true;
      }
    }
    assert s[0..a.Length] == s;
    Reverse(a, 0, a.Length);
    StepIsNext(up, s, false, a[..]);
    return false;
  }
}
