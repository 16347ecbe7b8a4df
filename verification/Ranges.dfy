/** The in-place algorithms of ualgo.h on a range [first, last) of an array. */
module Ranges {
  import opened Ordering

  function Reversed<T>(s: seq<T>): (r: seq<T>)
    ensures |r| == |s|
  {
    if s == [] then [] else Reversed(s[1..]) + [s[0]]
  }

  lemma {:induction false} ReversedAt<T>(s: seq<T>, k: nat)
    requires k < |s|
    ensures Reversed(s)[k] == s[|s| - 1 - k]
  {
    if k < |s| - 1 {
      ReversedAt(s[1..], k);
    }
  }

  lemma ReversedIs<T>(s: seq<T>)
    ensures forall k :: 0 <= k < |s| ==> Reversed(s)[k] == s[|s| - 1 - k]
  {
    forall k | 0 <= k < |s| ensures Reversed(s)[k] == s[|s| - 1 - k] {
      ReversedAt(s, k);
    }
  }

  lemma ReversedTwice<T>(s: seq<T>)
    ensures Reversed(Reversed(s)) == s
  {
    ReversedIs(s);
    ReversedIs(Reversed(s));
  }

  lemma {:induction false} ReversedElements<T>(s: seq<T>)
    ensures multiset(Reversed(s)) == multiset(s)
  {
    if s != [] {
      ReversedElements(s[1..]);
      assert s == [s[0]] + s[1..];
    }
  }

  lemma ReversedAppend<T>(a: seq<T>, b: seq<T>)
    ensures Reversed(a + b) == Reversed(b) + Reversed(a)
  {
    ReversedIs(a);
    ReversedIs(b);
    ReversedIs(a + b);
  }

  /** s with the range [lo, hi) replaced. */
  function Patch<T>(s: seq<T>, lo: nat, hi: nat, r: seq<T>): seq<T>
    requires lo <= hi <= |s|
  {
    s[..lo] + r + s[hi..]
  }

  /** Where index k of [lo, hi) comes from when the parts outside [f, l] have been mirrored. */
  function Mirror(lo: nat, hi: nat, f: int, l: int, k: int): int {
    if lo <= k < hi && (k < f || l < k) then lo + hi - 1 - k else k
  }

  lemma MirroredIs<T>(s: seq<T>, r: seq<T>, lo: nat, hi: nat, f: int, l: int)
    requires lo <= hi <= |s| == |r| && l <= f && f - lo == hi - 1 - l
    requires forall k :: 0 <= k < |s| ==> r[k] == s[Mirror(lo, hi, f, l, k)]
    ensures r == Patch(s, lo, hi, Reversed(s[lo..hi]))
  {
    ReversedIs(s[lo..hi]);
  }

  /** Swaps from both ends; the loop decrements `last` before it compares. */
  method Reverse<T>(a: array<T>, first: nat, last: nat)
    requires first <= last <= a.Length
    modifies a
    ensures var s := old(a[..]); a[..] == Patch(s, first, last, Reversed(s[first..last]))
  {
    ghost var was := a[..];
    var f, l := first, last - 1;
    while l - f > 0
      invariant first <= f && l < last && f - first == last - 1 - l && f <= l + 1
      invariant forall k :: 0 <= k < a.Length ==> a[k] == was[Mirror(first, last, f, l, k)]
    {
      a[f], a[l] := a[l], a[f];
      f := f + 1;
      l := l - 1;
    }
    MirroredIs(was, a[..], first, last, f, l);
  }

  lemma PatchPatch<T>(s: seq<T>, lo: nat, mid: nat, hi: nat, a: seq<T>, b: seq<T>)
    requires lo <= mid <= hi <= |s| && |a| == mid - lo
    ensures |Patch(s, lo, mid, a)| == |s| && Patch(s, lo, mid, a)[mid..hi] == s[mid..hi]
    ensures Patch(Patch(s, lo, mid, a), mid, hi, b) == Patch(s, lo, hi, a + b)
  {
  }

  lemma PatchReversedAt<T>(s: seq<T>, lo: nat, hi: nat)
    requires lo <= hi <= |s|
    ensures var r := Patch(s, lo, hi, Reversed(s[lo..hi]));
            |r| == |s| && forall k :: 0 <= k < |s| ==> r[k] == s[if lo <= k < hi then lo + hi - 1 - k else k]
  {
    ReversedIs(s[lo..hi]);
  }

  lemma MirrorAll<T>(s: seq<T>, r: seq<T>, lo: nat, hi: nat, f: nat, l: nat)
    requires lo <= f <= l <= hi <= |s| == |r| && f - lo == hi - l
    requires forall k :: 0 <= k < |s| ==> r[k] == s[Mirror(lo, hi, f, l - 1, k)]
    ensures Patch(r, f, l, Reversed(r[f..l])) == Patch(s, lo, hi, Reversed(s[lo..hi]))
  {
    PatchReversedAt(r, f, l);
    PatchReversedAt(s, lo, hi);
    hide Patch, Reversed;
    var z, y := Patch(r, f, l, Reversed(r[f..l])), Patch(s, lo, hi, Reversed(s[lo..hi]));
    assert forall k :: 0 <= k < |s| ==> z[k] == y[k];
  }

  lemma ReversedParts<T>(s: seq<T>, lo: nat, mid: nat, hi: nat)
    requires lo <= mid <= hi <= |s|
    ensures Reversed(Reversed(s[lo..mid]) + Reversed(s[mid..hi])) == s[mid..hi] + s[lo..mid]
  {
    ReversedAppend(Reversed(s[lo..mid]), Reversed(s[mid..hi]));
    ReversedTwice(s[lo..mid]);
    ReversedTwice(s[mid..hi]);
  }

  /** Swaps inwards from both ends until one of the ends meets `middle`. */
  method SwapEnds<T>(a: array<T>, first: nat, middle: nat, last: nat) returns (f: nat, l: nat)
    requires first <= middle <= last <= a.Length
    modifies a
    ensures first <= f <= middle <= l <= last && f - first == last - l && (f == middle || l == middle)
    ensures forall k :: 0 <= k < a.Length ==> a[k] == old(a[Mirror(first, last, f, l - 1, k)])
  {
    f, l := first, last;
    while f != middle && middle != l
      invariant first <= f <= middle <= l <= last && f - first == last - l
      invariant forall k :: 0 <= k < a.Length ==> a[k] == old(a[Mirror(first, last, f, l - 1, k)])
      decreases l - f
    {
      l := l - 1;
      a[f], a[l] := a[l], a[f];
      f := f + 1;
    }
  }

  lemma PatchAgain<T>(s: seq<T>, lo: nat, hi: nat, a: seq<T>, b: seq<T>)
    requires lo <= hi <= |s| && |a| == |b| == hi - lo
    ensures |Patch(s, lo, hi, a)| == |s| && Patch(s, lo, hi, a)[lo..hi] == a
    ensures Patch(Patch(s, lo, hi, a), lo, hi, b) == Patch(s, lo, hi, b)
  {
  }

  lemma RotatedIs<T>(s: seq<T>, now: seq<T>, r: seq<T>, lo: nat, mid: nat, hi: nat, f: nat, l: nat)
    requires lo <= f <= l <= hi <= |s| == |r| && lo <= mid <= hi && f - lo == hi - l
    requires now == Patch(Patch(s, lo, mid, Reversed(s[lo..mid])), mid, hi, Reversed(s[mid..hi]))
    requires forall k :: 0 <= k < |s| ==> r[k] == now[Mirror(lo, hi, f, l - 1, k)]
    ensures Patch(r, f, l, Reversed(r[f..l])) == Patch(s, lo, hi, s[mid..hi] + s[lo..mid])
  {
    hide Patch, Reversed;
    var halves := Reversed(s[lo..mid]) + Reversed(s[mid..hi]);
    PatchPatch(s, lo, mid, hi, Reversed(s[lo..mid]), Reversed(s[mid..hi]));
    PatchAgain(s, lo, hi, halves, Reversed(halves));
    MirrorAll(now, r, lo, hi, f, l);
    ReversedParts(s, lo, mid, hi);
  }

  lemma NothingToRotate<T>(s: seq<T>, lo: nat, mid: nat, hi: nat)
    requires lo <= mid <= hi <= |s| && (lo == mid || mid == hi)
    ensures Patch(s, lo, hi, s[mid..hi] + s[lo..mid]) == s
  {
    assert s[mid..hi] + s[lo..mid] == s[lo..hi];
  }

  /** Turns A B into B A: reverses both, swaps from the ends until one is used up, and reverses what
      is left.  Returns how far the swaps went. */
  method Rotate<T>(a: array<T>, first: nat, middle: nat, last: nat) returns (r: nat)
    requires first <= middle <= last <= a.Length
    modifies a
    ensures var s := old(a[..]); a[..] == Patch(s, first, last, s[middle..last] + s[first..middle])
    ensures r - first == if middle - first < last - middle then middle - first else last - middle
  {
    hide Reversed, Patch;
    ghost var was := a[..];
    if first == middle || middle == last {
      NothingToRotate(was, first, middle, last);
      return first;
    }
    ReverseBoth(a, first, middle, last);
    ghost var now := a[..];
    var f, l := SwapEnds(a, first, middle, last);
    ghost var r' := a[..];
    RotatedIs(was, now, r', first, middle, last, f, l);
    var end := if f == middle then l else middle;
    assert end == l;
    Reverse(a, f, end);
    return f;
  }

  method ReverseBoth<T>(a: array<T>, first: nat, middle: nat, last: nat)
    requires first <= middle <= last <= a.Length
    modifies a
    ensures var s := old(a[..]);
            a[..] == Patch(Patch(s, first, middle, Reversed(s[first..middle])), middle, last, Reversed(s[middle..last]))
  {
    ghost var was := a[..];
    Reverse(a, first, middle);
    PatchPatch(was, first, middle, last, Reversed(was[first..middle]), []);
    hide Reversed, Patch;
    Reverse(a, middle, last);
  }
}
