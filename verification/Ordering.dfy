/** What the sequence algorithms need to know about a strict weak order. */
module Ordering {

  ghost predicate StrictWeak<T(!new)>(lt: (T, T) -> bool) {
    && (forall x :: !lt(x, x))
    && (forall x, y, z :: lt(x, y) && lt(y, z) ==> lt(x, z))
    && (forall x, y, z :: lt(x, z) ==> lt(x, y) || lt(y, z))
  }

  predicate Equiv<T>(lt: (T, T) -> bool, x: T, y: T) {
    !lt(x, y) && !lt(y, x)
  }

  /** The order read from above. */
  function Flip<T>(lt: (T, T) -> bool): (T, T) -> bool {
    (x, y) => lt(y, x)
  }

  ghost predicate Sorted<T>(lt: (T, T) -> bool, s: seq<T>) {
    forall i, j :: 0 <= i < j < |s| ==> !lt(s[j], s[i])
  }

  /** How many elements of s are equivalent to x. */
  ghost function Count<T>(lt: (T, T) -> bool, x: T, s: seq<T>): nat {
    if s == [] then 0 else (if Equiv(lt, x, s[0]) then 1 else 0) + Count(lt, x, s[1..])
  }

  lemma {:induction false} CountAppend<T>(lt: (T, T) -> bool, x: T, a: seq<T>, b: seq<T>)
    ensures Count(lt, x, a + b) == Count(lt, x, a) + Count(lt, x, b)
  {
    if a == [] {
      assert a + b == b;
    } else {
      CountAppend(lt, x, a[1..], b);
      assert (a + b)[1..] == a[1..] + b;
    }
  }

  lemma CountSplit<T>(lt: (T, T) -> bool, x: T, s: seq<T>, k: nat)
    requires k <= |s|
    ensures Count(lt, x, s) == Count(lt, x, s[..k]) + Count(lt, x, s[k..])
  {
    assert s == s[..k] + s[k..];
    CountAppend(lt, x, s[..k], s[k..]);
  }

  function RemoveAt<T>(s: seq<T>, p: nat): seq<T>
    requires p < |s|
  {
    s[..p] + s[p + 1..]
  }

  lemma RemoveAtElements<T>(s: seq<T>, p: nat)
    requires p < |s|
    ensures multiset(RemoveAt(s, p)) == multiset(s) - multiset{s[p]}
  {
    assert s == s[..p] + [s[p]] + s[p + 1..];
  }

  lemma CountRemoved<T>(lt: (T, T) -> bool, x: T, s: seq<T>, p: nat)
    requires p < |s|
    ensures Count(lt, x, s) == (if Equiv(lt, x, s[p]) then 1 else 0) + Count(lt, x, RemoveAt(s, p))
  {
    CountSplit(lt, x, s, p);
    CountAppend(lt, x, s[..p], s[p + 1..]);
    assert s[p..][1..] == s[p + 1..];
  }

  /** The count depends on the elements, not on their order. */
  lemma {:induction false} CountOfArrangement<T>(lt: (T, T) -> bool, x: T, a: seq<T>, b: seq<T>)
    requires multiset(a) == multiset(b)
    ensures Count(lt, x, a) == Count(lt, x, b)
    decreases |a|
  {
    assert |a| == |multiset(a)| == |multiset(b)| == |b|;
    if a != [] {
      assert a[0] in multiset(b);
      var p :| 0 <= p < |b| && b[p] == a[0];
      RemoveAtElements(a, 0);
      RemoveAtElements(b, p);
      assert RemoveAt(a, 0) == a[1..];
      CountOfArrangement(lt, x, a[1..], RemoveAt(b, p));
      CountRemoved(lt, x, b, p);
    }
  }

  lemma {:induction false} CountPositive<T>(lt: (T, T) -> bool, x: T, s: seq<T>) returns (m: nat)
    requires Count(lt, x, s) > 0
    ensures m < |s| && Equiv(lt, x, s[m])
  {
    if Equiv(lt, x, s[0]) {
      m := 0;
    } else {
      m := CountPositive(lt, x, s[1..]);
      m := m + 1;
    }
  }

  /** Element by element equivalent. */
  ghost predicate AllEquiv<T>(lt: (T, T) -> bool, a: seq<T>, b: seq<T>) {
    |a| == |b| && forall i :: 0 <= i < |a| ==> Equiv(lt, a[i], b[i])
  }

  lemma {:induction false} CountOfEquiv<T(!new)>(lt: (T, T) -> bool, x: T, a: seq<T>, b: seq<T>)
    requires StrictWeak(lt) && AllEquiv(lt, a, b)
    ensures Count(lt, x, a) == Count(lt, x, b)
    decreases |a|
  {
    if a != [] {
      CountOfEquiv(lt, x, a[1..], b[1..]);
    }
  }

  /** Two arrangements that agree before k: each element from k on of one has an equivalent from k on
      in the other. */
  lemma EquivInTail<T(!new)>(lt: (T, T) -> bool, a: seq<T>, b: seq<T>, k: nat) returns (m: nat)
    requires StrictWeak(lt) && multiset(a) == multiset(b) && k < |a|
    requires |a| == |b| && AllEquiv(lt, a[..k], b[..k])
    ensures k <= m < |b| && Equiv(lt, a[k], b[m])
  {
    var x := a[k];
    CountOfArrangement(lt, x, a, b);
    CountSplit(lt, x, a, k);
    CountSplit(lt, x, b, k);
    CountOfEquiv(lt, x, a[..k], b[..k]);
    assert a[k..][0] == x;
    m := CountPositive(lt, x, b[k..]);
    m := m + k;
  }

  /** a comes before b in the lexicographic order. */
  ghost predicate LexLess<T>(lt: (T, T) -> bool, a: seq<T>, b: seq<T>) {
    |a| == |b| && exists k :: 0 <= k < |a| && AllEquiv(lt, a[..k], b[..k]) && lt(a[k], b[k])
  }

  /** Nothing from k on is greater than what stands at k: no arrangement that agrees before k is
      greater at k. */
  lemma TopAt<T(!new)>(lt: (T, T) -> bool, s: seq<T>, c: seq<T>, k: nat)
    requires StrictWeak(lt) && multiset(s) == multiset(c) && |s| == |c| && k < |s|
    requires AllEquiv(lt, c[..k], s[..k])
    requires forall m :: k <= m < |s| ==> !lt(s[k], s[m])
    ensures !lt(s[k], c[k])
  {
    var m := EquivInTail(lt, c, s, k);
  }
}
