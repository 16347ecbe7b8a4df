/** Small things that several modules use. */
module Basics {

  datatype Option<+T> = None | Some(value: T)

  ghost predicate Distinct<T>(list: seq<T>) {
    forall i, j :: 0 <= i < j < |list| ==> list[i] != list[j]
  }

  lemma OthersDiffer<T>(list: seq<T>, i: nat)
    requires Distinct(list) && i < |list|
    ensures forall k :: 0 <= k < |list| && k != i ==> list[k] != list[i]
  {
  }

  /** The list without the first occurrence of x, the others in their order. */
  function Without<T(==)>(list: seq<T>, x: T): seq<T> {
    if list == [] then [] else if list[0] == x then list[1..] else [list[0]] + Without(list[1..], x)
  }

  lemma {:induction false} WithoutNone<T>(list: seq<T>, x: T)
    requires x !in list
    ensures Without(list, x) == list
  {
    if list != [] {
      WithoutNone(list[1..], x);
    }
  }

  /** Where the element stands, exactly that place is cut out. */
  lemma {:induction false} WithoutCuts<T>(list: seq<T>, i: nat, x: T)
    requires Distinct(list) && i < |list| && list[i] == x
    ensures Without(list, x) == list[..i] + list[i + 1..]
  {
    if i > 0 {
      WithoutCuts(list[1..], i - 1, x);
      CutBehind(list, i);
    }
  }

  lemma CutBehind<T>(list: seq<T>, i: nat)
    requires 0 < i < |list|
    ensures [list[0]] + (list[1..][..i - 1] + list[1..][i..]) == list[..i] + list[i + 1..]
  {
    assert list[..i] == [list[0]] + list[1..][..i - 1] && list[i + 1..] == list[1..][i..];
  }

  /** What stands where afterwards. */
  lemma WithoutAt<T>(list: seq<T>, i: nat, x: T, r: seq<T>)
    requires Distinct(list) && i < |list| && list[i] == x && r == Without(list, x)
    ensures |r| == |list| - 1 && Distinct(r) && x !in r
    ensures forall k :: 0 <= k < |r| ==> r[k] == list[if k < i then k else k + 1]
  {
    hide Without;
    WithoutCuts(list, i, x);
  }

  lemma {:induction false} WithoutIs<T>(list: seq<T>, x: T)
    requires Distinct(list)
    ensures Distinct(Without(list, x))
    ensures forall y :: y in Without(list, x) <==> y in list && y != x
  {
    if list != [] {
      WithoutIs(list[1..], x);
      assert list[0] !in list[1..];
      assert forall y :: y in list <==> y == list[0] || y in list[1..];
    }
  }

  /** Increasing indices into the rest of a sequence, as indices into the whole: each is one more, and
      the head may come first. */
  function Indices(head: bool, rest: seq<nat>): seq<nat> {
    (if head then [0] else []) + seq(|rest|, k requires 0 <= k < |rest| => rest[k] + 1)
  }

  /** r is what s has at these increasing indices. */
  ghost predicate Selects<T>(s: seq<T>, r: seq<T>, at: seq<nat>) {
    && |at| == |r|
    && (forall k :: 0 <= k < |at| ==> at[k] < |s| && r[k] == s[at[k]])
    && (forall k, l :: 0 <= k < l < |at| ==> at[k] < at[l])
  }

  lemma SelectsMore<T>(s: seq<T>, r: seq<T>, rest: seq<nat>, head: bool)
    requires s != [] && Selects(s[1..], r, rest)
    ensures Selects(s, (if head then [s[0]] else []) + r, Indices(head, rest))
  {
    var at := Indices(head, rest);
    if head {
      assert forall k :: 0 < k < |at| ==> at[k] == rest[k - 1] + 1;
    } else {
      assert forall k :: 0 <= k < |at| ==> at[k] == rest[k] + 1;
    }
  }

  lemma IndicesIn(head: bool, rest: seq<nat>)
    ensures forall i :: i in Indices(head, rest) <==> (i == 0 && head) || (i > 0 && i - 1 in rest)
  {
    var at := Indices(head, rest);
    var h := if head then 1 else 0;
    forall i | i > 0 && i - 1 in rest ensures i in at {
      var k :| 0 <= k < |rest| && rest[k] == i - 1;
      assert at[k + h] == i;
    }
    assert head ==> at[0] == 0;
  }

  /** Conservation in one step and in the rest of a run is conservation over the run. */
  lemma Chain<T>(a: seq<T>, b: seq<T>, c: seq<T>, d: seq<T>, e: seq<T>, f: seq<T>, g: seq<T>)
    requires a + b == c + d && d + e == f + g
    ensures a + (b + e) == (c + f) + g
  {
    assert a + (b + e) == (a + b) + e == (c + d) + e == c + (d + e) == c + (f + g) == (c + f) + g;
  }
}
