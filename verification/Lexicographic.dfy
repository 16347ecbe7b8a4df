/** lexicographical_compare, and the order it decides. */
module Lexicographic {
  import opened Ordering

  /** a and b agree before k, and there a ends first or has the lesser element. */
  ghost predicate PrecedesAt<T>(lt: (T, T) -> bool, a: seq<T>, b: seq<T>, k: nat) {
    && k <= |a| && k < |b| && AllEquiv(lt, a[..k], b[..k])
    && (k < |a| ==> lt(a[k], b[k]))
  }

  ghost predicate Precedes<T>(lt: (T, T) -> bool, a: seq<T>, b: seq<T>) {
    exists k :: PrecedesAt(lt, a, b, k)
  }

  method LexicographicalCompare<T(!new)>(a: seq<T>, b: seq<T>, comp: (T, T) -> bool) returns (less: bool)
    requires StrictWeak(comp)
    ensures less <==> Precedes(comp, a, b)
  {
    var i := 0;
    while i != |a| && i != |b|
      invariant i <= |a| && i <= |b| && AllEquiv(comp, a[..i], b[..i])
      decreases |a| - i
    {
      if comp(a[i], b[i]) {
        assert PrecedesAt(comp, a, b, i);
        return true;
      }
      if comp(b[i], a[i]) {
        NotPast(comp, a, b, i);
        return false;
      }
      i := i + 1;
    }
    less := i == |a| && i != |b|;
    if less {
      assert PrecedesAt(comp, a, b, i);
    } else {
      NotPast(comp, a, b, i);
    }
  }

  /** Where b ends or has the lesser element, a does not precede it. */
  lemma NotPast<T(!new)>(lt: (T, T) -> bool, a: seq<T>, b: seq<T>, i: nat)
    requires StrictWeak(lt) && i <= |a| && i <= |b| && AllEquiv(lt, a[..i], b[..i])
    requires i == |b| || (i < |a| && lt(b[i], a[i]))
    ensures !Precedes(lt, a, b)
  {
    forall k: nat ensures !PrecedesAt(lt, a, b, k) {
      if k < i {
        assert Equiv(lt, a[..i][k], b[..i][k]);
      } else if i < k && PrecedesAt(lt, a, b, k) {
        Shorter(lt, a, b, i, k);
      }
    }
  }

  /** Over a strict weak order the lexicographic order is one too, so it can serve as a comparison
      again. */
  lemma IsStrictWeak<T(!new)>(lt: (T, T) -> bool)
    requires StrictWeak(lt)
    ensures forall a :: !Precedes(lt, a, a)
    ensures forall a, b, c :: Precedes(lt, a, b) && Precedes(lt, b, c) ==> Precedes(lt, a, c)
    ensures forall a, b, c :: Precedes(lt, a, c) ==> Precedes(lt, a, b) || Precedes(lt, b, c)
  {
    forall a ensures !Precedes(lt, a, a) {
      NotPast(lt, a, a, |a|);
    }
    forall a, b, c | Precedes(lt, a, b) && Precedes(lt, b, c) ensures Precedes(lt, a, c) {
      Transitive(lt, a, b, c);
    }
    forall a, b, c | Precedes(lt, a, c) ensures Precedes(lt, a, b) || Precedes(lt, b, c) {
      Between(lt, a, b, c);
    }
  }

  lemma EquivTogether<T(!new)>(lt: (T, T) -> bool, a: seq<T>, b: seq<T>, c: seq<T>)
    requires StrictWeak(lt) && AllEquiv(lt, a, b) && AllEquiv(lt, b, c)
    ensures AllEquiv(lt, a, c)
  {
  }

  lemma Shorter<T>(lt: (T, T) -> bool, a: seq<T>, b: seq<T>, j: nat, k: nat)
    requires j <= k <= |a| && k <= |b| && AllEquiv(lt, a[..k], b[..k])
    ensures AllEquiv(lt, a[..j], b[..j])
    ensures j < k ==> Equiv(lt, a[j], b[j])
  {
    forall i | 0 <= i < j ensures Equiv(lt, a[..j][i], b[..j][i]) {
      assert Equiv(lt, a[..k][i], b[..k][i]);
    }
    if j < k {
      assert Equiv(lt, a[..k][j], b[..k][j]);
    }
  }

  lemma Transitive<T(!new)>(lt: (T, T) -> bool, a: seq<T>, b: seq<T>, c: seq<T>)
    requires StrictWeak(lt) && Precedes(lt, a, b) && Precedes(lt, b, c)
    ensures Precedes(lt, a, c)
  {
    var j: nat :| PrecedesAt(lt, a, b, j);
    var k: nat :| PrecedesAt(lt, b, c, k);
    var m := if j < k then j else k;
    Shorter(lt, a, b, m, j);
    Shorter(lt, b, c, m, k);
    EquivTogether(lt, a[..m], b[..m], c[..m]);
    assert PrecedesAt(lt, a, c, m);
  }

  /** The first place up to n where a and b differ, or n. */
  lemma {:induction false} FirstDifference<T>(lt: (T, T) -> bool, a: seq<T>, b: seq<T>, n: nat) returns (j: nat)
    requires n <= |a|
    ensures j <= n && j <= |b| && AllEquiv(lt, a[..j], b[..j])
    ensures j == n || j == |b| || !Equiv(lt, a[j], b[j])
  {
    if n == 0 {
      j := 0;
    } else {
      j := FirstDifference(lt, a, b, n - 1);
      if j == n - 1 && j < |b| && Equiv(lt, a[j], b[j]) {
        j := n;
      }
    }
  }

  lemma Between<T(!new)>(lt: (T, T) -> bool, a: seq<T>, b: seq<T>, c: seq<T>)
    requires StrictWeak(lt) && Precedes(lt, a, c)
    ensures Precedes(lt, a, b) || Precedes(lt, b, c)
  {
    var k: nat :| PrecedesAt(lt, a, c, k);
    var j := FirstDifference(lt, a, b, k);
    Shorter(lt, a, c, j, k);
    assert AllEquiv(lt, b[..j], a[..j]);
    EquivTogether(lt, b[..j], a[..j], c[..j]);
    if j == |b| {
      assert PrecedesAt(lt, b, c, j);
    } else if j < k {
      if lt(a[j], b[j]) {
        assert PrecedesAt(lt, a, b, j);
      } else {
        assert PrecedesAt(lt, b, c, j);
      }
    } else if k == |a| || lt(a[k], b[k]) {
      assert PrecedesAt(lt, a, b, k);
    } else {
      assert PrecedesAt(lt, b, c, k);
    }
  }

  /** Among sequences of one length this is the order of the permutations. */
  lemma SameLength<T>(lt: (T, T) -> bool, a: seq<T>, b: seq<T>)
    requires |a| == |b|
    ensures Precedes(lt, a, b) <==> LexLess(lt, a, b)
  {
    if LexLess(lt, a, b) {
      var k :| 0 <= k < |a| && AllEquiv(lt, a[..k], b[..k]) && lt(a[k], b[k]);
      assert PrecedesAt(lt, a, b, k);
    }
  }
}
