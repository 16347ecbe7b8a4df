/** Graphs in which every node has at most one successor: who waits for whom. */
module WaitGraph {
  import opened Basics

  /** n steps from a node. */
  ghost function Follow<T>(next: map<T, T>, t: T, n: nat): Option<T> {
    if n == 0 then Some(t)
    else match Follow(next, t, n - 1)
      case None => None
      case Some(u) => if u in next then Some(next[u]) else None
  }

  /** No way leads from a node back to it. */
  ghost predicate Acyclic<T>(next: map<T, T>) {
    forall t: T, n: nat :: t in next && n > 0 ==> Follow(next, t, n) != Some(t)
  }

  ghost predicate Reaches<T>(next: map<T, T>, t: T, u: T) {
    exists n: nat :: Follow(next, t, n) == Some(u)
  }

  lemma {:induction false} FollowAdds<T>(next: map<T, T>, t: T, m: nat, u: T, n: nat)
    requires Follow(next, t, m) == Some(u)
    ensures Follow(next, t, m + n) == Follow(next, u, n)
  {
    if n > 0 {
      FollowAdds(next, t, m, u, n - 1);
    }
  }

  lemma ReachesSelf<T>(next: map<T, T>, t: T)
    ensures Reaches(next, t, t)
  {
    assert Follow(next, t, 0) == Some(t);
  }

  lemma ReachesNext<T>(next: map<T, T>, t: T, u: T)
    requires Reaches(next, t, u) && u in next
    ensures Reaches(next, t, next[u])
  {
    var n: nat :| Follow(next, t, n) == Some(u);
    assert Follow(next, t, n + 1) == Some(next[u]);
  }

  /** What a node reaches, it reaches through its successor, unless it is the node itself. */
  lemma ReachesFromNext<T>(next: map<T, T>, t: T, u: T)
    requires t in next
    ensures Reaches(next, t, u) <==> t == u || Reaches(next, next[t], u)
  {
    assert Follow(next, t, 0) == Some(t) && Follow(next, t, 1) == Some(next[t]);
    if Reaches(next, t, u) && t != u {
      var n: nat :| Follow(next, t, n) == Some(u);
      FollowAdds(next, t, 1, next[t], n - 1);
    }
    if Reaches(next, next[t], u) {
      var n: nat :| Follow(next, next[t], n) == Some(u);
      FollowAdds(next, t, 1, next[t], n);
    }
  }

  lemma ReachesNothing<T>(next: map<T, T>, t: T, u: T)
    requires t !in next && Reaches(next, t, u)
    ensures t == u
  {
    var n: nat :| Follow(next, t, n) == Some(u);
    if n > 0 {
      NoEdgeNoWalk(next, t, n);
    }
  }

  lemma {:induction false} NoEdgeNoWalk<T>(next: map<T, T>, t: T, n: nat)
    requires n > 0 && t !in next
    ensures Follow(next, t, n) == None
  {
    if n > 1 {
      NoEdgeNoWalk(next, t, n - 1);
    } else {
      assert Follow(next, t, 0) == Some(t);
    }
  }

  /** In an acyclic graph a successor never leads back. */
  lemma NoWayBack<T>(next: map<T, T>, t: T)
    requires Acyclic(next) && t in next
    ensures !Reaches(next, next[t], t)
  {
    assert Follow(next, t, 0) == Some(t) && Follow(next, t, 1) == Some(next[t]);
    if Reaches(next, next[t], t) {
      var n: nat :| Follow(next, next[t], n) == Some(t);
      FollowAdds(next, t, 1, next[t], n);
    }
  }

  /** Without some edges there are no more cycles. */
  lemma {:induction false} FewerEdges<T>(small: map<T, T>, big: map<T, T>, t: T, n: nat)
    requires forall u :: u in small ==> u in big && big[u] == small[u]
    requires Follow(small, t, n).Some?
    ensures Follow(big, t, n) == Follow(small, t, n)
  {
    if n > 0 {
      FewerEdges(small, big, t, n - 1);
    }
  }

  lemma FewerEdgesAcyclic<T>(small: map<T, T>, big: map<T, T>)
    requires forall u :: u in small ==> u in big && big[u] == small[u]
    requires Acyclic(big)
    ensures Acyclic(small)
  {
    forall t: T, n: nat | t in small && n > 0 ensures Follow(small, t, n) != Some(t) {
      if Follow(small, t, n) == Some(t) {
        FewerEdges(small, big, t, n);
      }
    }
  }

  /** A walk that uses a new edge passes its source before. */
  lemma {:induction false} WalkOrPass<T>(next: map<T, T>, from: T, to: T, t: T, n: nat)
    requires from !in next
    ensures Follow(next[from := to], t, n) == Follow(next, t, n) || exists k: nat :: k < n && Follow(next, t, k) == Some(from)
  {
    if n > 0 {
      WalkOrPass(next, from, to, t, n - 1);
    }
  }

  /** A new edge closes a cycle exactly when its target already leads to its source. */
  lemma NewEdgeClosesCycle<T>(next: map<T, T>, from: T, to: T)
    requires Acyclic(next) && from !in next
    ensures !Acyclic(next[from := to]) <==> Reaches(next, to, from)
  {
    var z := next[from := to];
    assert Follow(z, from, 0) == Some(from) && Follow(z, from, 1) == Some(to);
    if Reaches(next, to, from) {
      var n: nat :| Follow(next, to, n) == Some(from);
      FewerEdges(next, z, to, n);
      FollowAdds(z, from, 1, to, n);
      assert Follow(z, from, 1 + n) == Some(from);
    }
    if !Acyclic(z) {
      var t, n: nat :| t in z && n > 0 && Follow(z, t, n) == Some(t);
      CycleThroughNewEdge(next, from, to, t, n);
    }
  }

  lemma CycleThroughNewEdge<T>(next: map<T, T>, from: T, to: T, t: T, n: nat)
    requires Acyclic(next) && from !in next && n > 0
    requires Follow(next[from := to], t, n) == Some(t)
    ensures Reaches(next, to, from)
  {
    var z := next[from := to];
    WalkOrPass(next, from, to, t, n);
    if Follow(next, t, n) == Some(t) {
      if t !in next {
        NoEdgeNoWalk(next, t, n);
      }
    }
    var k: nat :| k < n && Follow(next, t, k) == Some(from);
    FewerEdges(next, z, t, k);
    FollowAdds(z, t, n, t, k);
    FollowAdds(z, t, k, from, n);
    assert Follow(z, from, 0) == Some(from) && Follow(z, from, 1) == Some(to);
    FollowAdds(z, from, 1, to, n - 1);
    WalkOrPass(next, from, to, to, n - 1);
  }
}
