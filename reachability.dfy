/** Graph theory behind `refresh_graph`: Warshall's rounds, reachability by paths,
    the closure without its diagonal and its transitive reduction. A relation is a
    predicate on vertex indices; the vertices of an n-vertex graph are 0..n-1. */
module Reachability {

  /** A binary relation on vertex indices. */
  type Rel = (nat, nat) -> bool

  /** p is a walk of E-edges over the vertices 0..n-1, of one edge or more,
      whose interior vertices are all below k. */
  ghost predicate IsPath(E: Rel, n: nat, k: nat, p: seq<nat>)
  {
    && |p| >= 2
    && (forall i :: 0 <= i < |p| ==> p[i] < n)
    && (forall i :: 0 <= i < |p| - 1 ==> E(p[i], p[i + 1]))
    && (forall i :: 0 < i < |p| - 1 ==> p[i] < k)
  }

  /** y is reachable from x by one or more E-edges among the vertices 0..n-1. */
  ghost predicate Reach(E: Rel, n: nat, x: nat, y: nat)
  {
    exists p :: IsPath(E, n, n, p) && p[0] == x && p[|p| - 1] == y
  }

  /** The value of the cell x -> y after the first k rounds of Warshall's triple loop
      (rounds 0..k-1 of the outer index vk), started from the relation E. */
  ghost predicate Via(E: Rel, k: nat, x: nat, y: nat)
    decreases k
  {
    if k == 0 then E(x, y)
    else Via(E, k - 1, x, y) || (Via(E, k - 1, x, k - 1) && Via(E, k - 1, k - 1, y))
  }

  /** Every edge of E goes from a vertex to itself or to a later vertex. */
  ghost predicate Forward(E: Rel)
  {
    forall x: nat, y: nat :: E(x, y) ==> x <= y
  }

  /** The transitive closure with its diagonal cleared. */
  ghost predicate Closed(E: Rel, n: nat, x: nat, y: nat)
  {
    x != y && Reach(E, n, x, y)
  }

  /** An edge of the transitive reduction: a closure edge that no two-edge detour
      through the closure implies. */
  ghost predicate ReducedEdge(E: Rel, n: nat, x: nat, y: nat)
  {
    Closed(E, n, x, y) && !exists m: nat :: m < n && Closed(E, n, x, m) && Closed(E, n, m, y)
  }

  /** The transitive reduction as a relation. */
  ghost function Reduced(E: Rel, n: nat): Rel
  {
    (x: nat, y: nat) => ReducedEdge(E, n, x, y)
  }

  /** The first position at or after `from` that holds v. */
  ghost function FirstAt(p: seq<nat>, v: nat, from: nat): (f: nat)
    requires from <= |p|
    requires exists i :: from <= i < |p| && p[i] == v
    ensures from <= f < |p| && p[f] == v
    ensures forall i :: from <= i < f ==> p[i] != v
    decreases |p| - from
  {
    if p[from] == v then from else FirstAt(p, v, from + 1)
  }

  lemma PathWiden(E: Rel, n: nat, k: nat, k': nat, p: seq<nat>)
    requires IsPath(E, n, k, p) && k <= k'
    ensures IsPath(E, n, k', p)
  {
  }

  /** Two walks that meet at a vertex below k join into one walk. */
  lemma PathJoin(E: Rel, n: nat, k: nat, p: seq<nat>, q: seq<nat>)
    requires IsPath(E, n, k, p) && IsPath(E, n, k, q)
    requires p[|p| - 1] == q[0] && q[0] < k
    ensures IsPath(E, n, k, p + q[1..])
    ensures (p + q[1..])[0] == p[0] && (p + q[1..])[|p + q[1..]| - 1] == q[|q| - 1]
  {
    var r := p + q[1..];
    assert forall i :: |p| <= i < |r| ==> r[i] == q[i - |p| + 1];
    assert forall i :: 0 <= i < |r| ==> r[i] < n;
    forall i | 0 <= i < |r| - 1
      ensures E(r[i], r[i + 1])
    {
      if i < |p| - 1 {
        assert r[i] == p[i] && r[i + 1] == p[i + 1];
      } else {
        assert r[i] == q[i - |p| + 1] && r[i + 1] == q[i - |p| + 2];
      }
    }
    forall i | 0 < i < |r| - 1
      ensures r[i] < k
    {
      if i >= |p| - 1 {
        assert r[i] == q[i - |p| + 1];
      }
    }
  }

  lemma {:induction false} ViaToPath(E: Rel, n: nat, k: nat, x: nat, y: nat)
    requires k <= n && x < n && y < n && Via(E, k, x, y)
    ensures exists p :: IsPath(E, n, k, p) && p[0] == x && p[|p| - 1] == y
    decreases k
  {
    if k == 0 {
      assert IsPath(E, n, k, [x, y]);
    } else if Via(E, k - 1, x, y) {
      ViaToPath(E, n, k - 1, x, y);
      var p :| IsPath(E, n, k - 1, p) && p[0] == x && p[|p| - 1] == y;
      PathWiden(E, n, k - 1, k, p);
    } else {
      ViaToPath(E, n, k - 1, x, k - 1);
      ViaToPath(E, n, k - 1, k - 1, y);
      var p :| IsPath(E, n, k - 1, p) && p[0] == x && p[|p| - 1] == k - 1;
      var q :| IsPath(E, n, k - 1, q) && q[0] == k - 1 && q[|q| - 1] == y;
      PathWiden(E, n, k - 1, k, p);
      PathWiden(E, n, k - 1, k, q);
      PathJoin(E, n, k, p, q);
    }
  }

  lemma {:induction false} PathToVia(E: Rel, n: nat, k: nat, p: seq<nat>)
    requires k <= n && IsPath(E, n, k, p)
    ensures Via(E, k, p[0], p[|p| - 1])
    decreases k, |p|
  {
    if k == 0 {
      if |p| > 2 {
        assert false;
      }
    } else if forall i :: 0 < i < |p| - 1 ==> p[i] != k - 1 {
      assert IsPath(E, n, k - 1, p);
      PathToVia(E, n, k - 1, p);
    } else {
      var f := FirstAt(p, k - 1, 1);
      PathSplit(E, n, k, p, f);
      PathToVia(E, n, k - 1, p[..f + 1]);
      PathToVia(E, n, k, p[f..]);
    }
  }

  /** Cutting a walk at the first interior visit of k - 1 leaves a walk below k - 1
      before the cut and a walk below k after it. */
  lemma PathSplit(E: Rel, n: nat, k: nat, p: seq<nat>, f: nat)
    requires k > 0 && IsPath(E, n, k, p)
    requires 0 < f < |p| - 1 && p[f] == k - 1
    requires forall i :: 0 < i < f ==> p[i] != k - 1
    ensures IsPath(E, n, k - 1, p[..f + 1]) && p[..f + 1][0] == p[0] && p[..f + 1][f] == k - 1
    ensures IsPath(E, n, k, p[f..]) && p[f..][0] == k - 1 && p[f..][|p[f..]| - 1] == p[|p| - 1]
  {
    var pre, post := p[..f + 1], p[f..];
    assert forall i :: 0 <= i < |pre| ==> pre[i] == p[i];
    assert forall i :: 0 <= i < |post| ==> post[i] == p[f + i];
  }

  /** Warshall's n rounds compute exactly reachability by paths. */
  lemma ViaIsReach(E: Rel, n: nat, x: nat, y: nat)
    requires x < n && y < n
    ensures Via(E, n, x, y) <==> Reach(E, n, x, y)
  {
    if Via(E, n, x, y) {
      ViaToPath(E, n, n, x, y);
    }
    if Reach(E, n, x, y) {
      var p :| IsPath(E, n, n, p) && p[0] == x && p[|p| - 1] == y;
      PathToVia(E, n, n, p);
    }
  }

  /** In round k the row and the column of k do not change. */
  lemma ViaRoundPivot(E: Rel, k: nat, x: nat, y: nat)
    ensures Via(E, k + 1, x, k) == Via(E, k, x, k)
    ensures Via(E, k + 1, k, y) == Via(E, k, k, y)
  {
  }

  lemma ReachEnds(E: Rel, n: nat, x: nat, y: nat)
    requires Reach(E, n, x, y)
    ensures x < n && y < n
  {
  }

  /** Reachability is transitive. */
  lemma ReachTrans(E: Rel, n: nat, x: nat, y: nat, z: nat)
    requires Reach(E, n, x, y) && Reach(E, n, y, z)
    ensures Reach(E, n, x, z)
  {
    var p :| IsPath(E, n, n, p) && p[0] == x && p[|p| - 1] == y;
    var q :| IsPath(E, n, n, q) && q[0] == y && q[|q| - 1] == z;
    PathJoin(E, n, n, p, q);
  }

  lemma {:induction false} PathAscends(E: Rel, n: nat, k: nat, p: seq<nat>, i: nat)
    requires Forward(E) && IsPath(E, n, k, p) && i < |p|
    ensures p[0] <= p[i]
    decreases i
  {
    if i > 0 {
      PathAscends(E, n, k, p, i - 1);
      assert E(p[i - 1], p[i]);
    }
  }

  /** Along forward edges reachability never goes back. */
  lemma ReachForward(E: Rel, n: nat, x: nat, y: nat)
    requires Forward(E) && Reach(E, n, x, y)
    ensures x <= y
  {
    var p :| IsPath(E, n, n, p) && p[0] == x && p[|p| - 1] == y;
    PathAscends(E, n, n, p, |p| - 1);
  }

  /** Over forward edges the closure without its diagonal is a strict order:
      it only goes up (so it has no cycle) and it is transitive. */
  lemma ClosedStrictOrder(E: Rel, n: nat)
    requires Forward(E)
    ensures forall x: nat, y: nat :: Closed(E, n, x, y) ==> x < y < n
    ensures forall x: nat, y: nat, z: nat :: Closed(E, n, x, y) && Closed(E, n, y, z) ==> Closed(E, n, x, z)
  {
    forall x: nat, y: nat | Closed(E, n, x, y)
      ensures x < y < n
    {
      ReachForward(E, n, x, y);
      ReachEnds(E, n, x, y);
    }
    forall x: nat, y: nat, z: nat | Closed(E, n, x, y) && Closed(E, n, y, z)
      ensures Closed(E, n, x, z)
    {
      ReachForward(E, n, x, y);
      ReachForward(E, n, y, z);
      ReachTrans(E, n, x, y, z);
    }
  }

  lemma {:induction false} ReducedPathClosed(E: Rel, n: nat, p: seq<nat>)
    requires Forward(E) && IsPath(Reduced(E, n), n, n, p)
    ensures Closed(E, n, p[0], p[|p| - 1])
    decreases |p|
  {
    assert ReducedEdge(E, n, p[0], p[1]);
    if |p| > 2 {
      var rest := p[1..];
      assert IsPath(Reduced(E, n), n, n, rest) by {
        assert forall i :: 0 <= i < |rest| ==> rest[i] == p[i + 1];
      }
      ReducedPathClosed(E, n, rest);
      ClosedStrictOrder(E, n);
    }
  }

  lemma {:induction false} ClosedReducedPath(E: Rel, n: nat, x: nat, y: nat)
    requires Forward(E) && Closed(E, n, x, y)
    ensures Reach(Reduced(E, n), n, x, y)
    decreases y - x
  {
    ClosedStrictOrder(E, n);
    if ReducedEdge(E, n, x, y) {
      assert IsPath(Reduced(E, n), n, n, [x, y]);
    } else {
      var m: nat :| m < n && Closed(E, n, x, m) && Closed(E, n, m, y);
      ClosedReducedPath(E, n, x, m);
      ClosedReducedPath(E, n, m, y);
      ReachTrans(Reduced(E, n), n, x, m, y);
    }
  }

  /** The transitive reduction keeps reachability: a vertex is reachable from another
      in the reduced graph exactly when it is in the closure without its diagonal. */
  lemma ReducedSameReach(E: Rel, n: nat, x: nat, y: nat)
    requires Forward(E)
    ensures Reach(Reduced(E, n), n, x, y) <==> Closed(E, n, x, y)
  {
    if Reach(Reduced(E, n), n, x, y) {
      var p :| IsPath(Reduced(E, n), n, n, p) && p[0] == x && p[|p| - 1] == y;
      ReducedPathClosed(E, n, p);
    }
    if Closed(E, n, x, y) {
      ClosedReducedPath(E, n, x, y);
    }
  }

  /** The transitive reduction is minimal: the only walk of reduced edges along a
      reduced edge is that edge itself, so removing it loses reachability. */
  lemma ReducedMinimal(E: Rel, n: nat, p: seq<nat>)
    requires Forward(E) && IsPath(Reduced(E, n), n, n, p)
    requires ReducedEdge(E, n, p[0], p[|p| - 1])
    ensures |p| == 2
  {
    if |p| > 2 {
      var rest := p[1..];
      assert IsPath(Reduced(E, n), n, n, rest) by {
        assert forall i :: 0 <= i < |rest| ==> rest[i] == p[i + 1];
      }
      ReducedPathClosed(E, n, rest);
      assert false;
    }
  }

  /** A walk that ends somewhere else than it starts enters its end from another vertex. */
  lemma {:induction false} PathEntersEnd(E: Rel, n: nat, k: nat, p: seq<nat>, y: nat)
    requires IsPath(E, n, k, p) && p[|p| - 1] == y && p[0] != y
    ensures exists m: nat :: m < n && m != y && E(m, y)
    decreases |p|
  {
    var j := |p| - 2;
    if p[j] != y {
      assert E(p[j], p[j + 1]);
    } else {
      var pre := p[..j + 1];
      assert IsPath(E, n, k, pre) by {
        assert forall i :: 0 <= i < |pre| ==> pre[i] == p[i];
      }
      PathEntersEnd(E, n, k, pre, y);
    }
  }

  /** A vertex has no incoming reduced edge exactly when no other vertex has a
      direct edge into it. */
  lemma NoReducedPredecessor(E: Rel, n: nat, v: nat)
    requires Forward(E) && v < n
    ensures (forall k: nat :: k < n ==> !ReducedEdge(E, n, k, v)) <==> (forall k: nat :: k < n && k != v ==> !E(k, v))
  {
    if k: nat :| k < n && ReducedEdge(E, n, k, v) {
      var p :| IsPath(E, n, n, p) && p[0] == k && p[|p| - 1] == v;
      PathEntersEnd(E, n, n, p, v);
    }
    if k: nat :| k < n && k != v && E(k, v) {
      assert IsPath(E, n, n, [k, v]);
      ClosedReducedPath(E, n, k, v);
      var q :| IsPath(Reduced(E, n), n, n, q) && q[0] == k && q[|q| - 1] == v;
      PathEntersEnd(Reduced(E, n), n, n, q, v);
    }
  }
}
