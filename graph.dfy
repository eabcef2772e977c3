/** The passes of `refresh_graph`, each run in place on the flat n*n matrix: the
    direct edges of every resource list, Warshall's transitive closure, the cleared
    diagonal and the transitive reduction. */
module Graph {
  import opened Matrix
  import opened Reachability
  import opened Resource
  import opened Dependencies

  /** Sets the edge x -> y (`edges[x * length + y] = true`). */
  method SetEdge(a: array<bool>, n: nat, x: nat, y: nat)
    requires a.Length == n * n && x < n && y < n
    modifies a
    ensures forall x': nat, y': nat :: At(a[..], n, x', y') == (At(old(a[..]), n, x', y') || (x' == x && y' == y))
  {
    CellBound(n, x, y);
    a[Cell(n, x, y)] := true;
    AtUpdate(old(a[..]), a[..], n, x, y, true);
  }

  /** The scan of one resource list (the `while(it != last)` loop): adds to the
      matrix exactly the edges the list's rule gives. */
  method MarkResource(a: array<bool>, n: nat, l: seq<Access>)
    requires a.Length == n * n
    requires forall i :: 0 <= i < |l| ==> l[i].job < n
    modifies a
    ensures forall x: nat, y: nat :: At(a[..], n, x, y) == (At(old(a[..]), n, x, y) || ListEdge(l, x, y))
  {
    ghost var base := a[..];
    var it := 0;
    while it < |l|
      invariant it <= |l|
      // the scan stops only at the start, at a writer or at the end
      invariant it == 0 || it == |l| || l[it].write
      invariant forall x: nat, y: nat :: At(a[..], n, x, y) == (At(base, n, x, y) || EdgeIn(l, 0, it, x, y))
      decreases |l| - it
    {
      var curr := it;
      ghost var before := a[..];
      if l[it].write {
        it := MarkWriter(a, n, l, curr);
      } else {
        // a reader is met only on the first iteration
        assert curr == 0;
        it := MarkReaders(a, n, l, curr);
      }
      EdgeInSplit(l, 0, curr, it);
      forall x: nat, y: nat
        ensures At(a[..], n, x, y) == (At(base, n, x, y) || EdgeIn(l, 0, it, x, y))
      {
        assert At(a[..], n, x, y) == (At(before, n, x, y) || EdgeIn(l, curr, it, x, y));
        assert EdgeIn(l, 0, it, x, y) == (EdgeIn(l, 0, curr, x, y) || EdgeIn(l, curr, it, x, y));
      }
    }
  }

  /** The writer at position curr: an edge to the writer right after it, or to each
      reader up to the next writer, with each of those readers also joined to that
      writer. Returns the position the scan resumes at. */
  method MarkWriter(a: array<bool>, n: nat, l: seq<Access>, curr: nat) returns (it: nat)
    requires a.Length == n * n
    requires forall i :: 0 <= i < |l| ==> l[i].job < n
    requires curr < |l| && l[curr].write
    modifies a
    ensures curr < it <= |l| && it == FindWriter(l, curr + 1)
    ensures forall x: nat, y: nat :: At(a[..], n, x, y) == (At(old(a[..]), n, x, y) || EdgeIn(l, curr, it, x, y))
  {
    it := curr + 1;
    EdgeInOne(l, curr);
    if it < |l| {
      if l[it].write {
        SetEdge(a, n, l[curr].job, l[it].job);
        WriterBeforeWriter(l, curr);
        forall x: nat, y: nat
          ensures At(a[..], n, x, y) == (At(old(a[..]), n, x, y) || EdgeIn(l, curr, it, x, y))
        {
          assert EdgeIn(l, curr, it, x, y) == EdgeFrom(l, curr, x, y);
        }
      } else {
        var next := FindWriter(l, it);
        WriterBeforeReaders(l, curr, next);
        if next < |l| {
          LinkReaders(a, n, l, curr, next);
        } else {
          LinkTrailing(a, n, l, curr);
          NoWriterLeft(l, curr + 1);
        }
        EdgeInSplit(l, curr, curr + 1, next);
        it := next;
        forall x: nat, y: nat
          ensures At(a[..], n, x, y) == (At(old(a[..]), n, x, y) || EdgeIn(l, curr, it, x, y))
        {
          assert EdgeIn(l, curr, it, x, y) == (EdgeIn(l, curr, curr + 1, x, y) || EdgeIn(l, curr + 1, it, x, y));
          assert EdgeIn(l, curr, curr + 1, x, y) == EdgeFrom(l, curr, x, y);
        }
      }
    } else {
      LastRecord(l, curr);
    }
  }

  /** A writer followed by readers and then another writer at next: the writer gets
      an edge to each reader, each reader an edge to the next writer. */
  method LinkReaders(a: array<bool>, n: nat, l: seq<Access>, curr: nat, next: nat)
    requires a.Length == n * n
    requires forall i :: 0 <= i < |l| ==> l[i].job < n
    requires curr < next < |l| && l[next].write && forall m :: curr < m < next ==> !l[m].write
    modifies a
    ensures forall x: nat, y: nat ::
      At(a[..], n, x, y) ==
      (|| At(old(a[..]), n, x, y)
       || (x == l[curr].job && exists q :: curr < q < next && l[q].job == y)
       || EdgeIn(l, curr + 1, next, x, y))
  {
    ghost var mid := a[..];
    var it := curr + 1;
    while it < next
      invariant curr < it <= next
      invariant forall x: nat, y: nat ::
        At(a[..], n, x, y) ==
        (|| At(mid, n, x, y)
         || (x == l[curr].job && exists q :: curr < q < it && l[q].job == y)
         || EdgeIn(l, curr + 1, it, x, y))
    {
      SetEdge(a, n, l[curr].job, l[it].job);
      SetEdge(a, n, l[it].job, l[next].job);
      ReaderTargets(l, it, next);
      EdgeInSplit(l, curr + 1, it, it + 1);
      EdgeInOne(l, it);
      forall x: nat, y: nat
        ensures At(a[..], n, x, y) ==
          (|| At(mid, n, x, y)
           || (x == l[curr].job && exists q :: curr < q < it + 1 && l[q].job == y)
           || EdgeIn(l, curr + 1, it + 1, x, y))
      {
        assert EdgeIn(l, curr + 1, it + 1, x, y) == (EdgeIn(l, curr + 1, it, x, y) || EdgeIn(l, it, it + 1, x, y));
        assert EdgeIn(l, it, it + 1, x, y) == EdgeFrom(l, it, x, y);
        assert (exists q :: curr < q < it + 1 && l[q].job == y) == ((exists q :: curr < q < it && l[q].job == y) || l[it].job == y);
      }
      it := it + 1;
    }
  }

  /** A writer followed only by readers: the writer gets an edge to each of them. */
  method LinkTrailing(a: array<bool>, n: nat, l: seq<Access>, curr: nat)
    requires a.Length == n * n
    requires forall i :: 0 <= i < |l| ==> l[i].job < n
    requires curr < |l|
    modifies a
    ensures forall x: nat, y: nat ::
      At(a[..], n, x, y) == (At(old(a[..]), n, x, y) || (x == l[curr].job && exists q :: curr < q < |l| && l[q].job == y))
  {
    ghost var mid := a[..];
    var it := curr + 1;
    while it < |l|
      invariant curr < it <= |l|
      invariant forall x: nat, y: nat ::
        At(a[..], n, x, y) == (At(mid, n, x, y) || (x == l[curr].job && exists q :: curr < q < it && l[q].job == y))
    {
      SetEdge(a, n, l[curr].job, l[it].job);
      forall x: nat, y: nat
        ensures At(a[..], n, x, y) ==
          (At(mid, n, x, y) || (x == l[curr].job && exists q :: curr < q < it + 1 && l[q].job == y))
      {
        assert (exists q :: curr < q < it + 1 && l[q].job == y) == ((exists q :: curr < q < it && l[q].job == y) || l[it].job == y);
      }
      it := it + 1;
    }
  }

  /** The readers at the head of the list, before its first writer: each gets an edge
      to that writer, or none when no writer follows. Returns the writer's position. */
  method MarkReaders(a: array<bool>, n: nat, l: seq<Access>, from: nat) returns (it: nat)
    requires a.Length == n * n
    requires forall i :: 0 <= i < |l| ==> l[i].job < n
    requires from < |l| && !l[from].write
    modifies a
    ensures from < it <= |l| && it == FindWriter(l, from)
    ensures forall x: nat, y: nat :: At(a[..], n, x, y) == (At(old(a[..]), n, x, y) || EdgeIn(l, from, it, x, y))
  {
    ghost var base := a[..];
    var next := FindWriter(l, from);
    if next < |l| {
      it := from;
      while it < next
        invariant from <= it <= next
        invariant forall x: nat, y: nat :: At(a[..], n, x, y) == (At(base, n, x, y) || EdgeIn(l, from, it, x, y))
      {
        SetEdge(a, n, l[it].job, l[next].job);
        ReaderTargets(l, it, next);
        EdgeInSplit(l, from, it, it + 1);
        EdgeInOne(l, it);
        forall x: nat, y: nat
          ensures At(a[..], n, x, y) == (At(base, n, x, y) || EdgeIn(l, from, it + 1, x, y))
        {
          assert EdgeIn(l, from, it + 1, x, y) == (EdgeIn(l, from, it, x, y) || EdgeIn(l, it, it + 1, x, y));
          assert EdgeIn(l, it, it + 1, x, y) == EdgeFrom(l, it, x, y);
        }
        it := it + 1;
      }
    } else {
      NoWriterLeft(l, from);
      it := |l|;
    }
  }

  /** Readers with no writer after them have no edge out. */
  lemma NoWriterLeft(l: seq<Access>, from: nat)
    requires from <= |l| && forall m :: from <= m < |l| ==> !l[m].write
    ensures forall x, y :: !EdgeIn(l, from, |l|, x, y)
  {
    forall p, x, y | from <= p < |l|
      ensures !EdgeFrom(l, p, x, y)
    {
      ReaderTargets(l, p, |l|);
    }
  }

  /** The `for(const auto &deps: dependencies)` loop: scans every resource list once,
      in whatever order the map yields them, and leaves exactly the direct edges set. */
  method MarkDependencies(a: array<bool>, n: nat, deps: Tracker)
    requires a.Length == n * n && WellFormed(deps, n)
    requires forall c :: 0 <= c < a.Length ==> !a[c]
    modifies a
    ensures forall x: nat, y: nat :: At(a[..], n, x, y) == DirectEdge(deps, x, y)
  {
    var todo := deps.Keys;
    ghost var done: set<ResourceId> := {};
    while todo != {}
      invariant todo <= deps.Keys && done == deps.Keys - todo
      invariant forall x: nat, y: nat :: At(a[..], n, x, y) == exists r :: r in done && ListEdge(deps[r], x, y)
      decreases todo
    {
      var r :| r in todo;
      MarkResource(a, n, deps[r]);
      todo := todo - {r};
      done := done + {r};
    }
    DirectForward(deps, n);
  }

  /** Warshall's triple loop, in place: afterwards the matrix holds reachability by
      one or more edges of the relation it held before. */
  method Close(a: array<bool>, n: nat, ghost E: Rel)
    requires a.Length == n * n
    requires forall x: nat, y: nat :: x < n && y < n ==> At(a[..], n, x, y) == E(x, y)
    modifies a
    ensures forall x: nat, y: nat :: At(a[..], n, x, y) == (x < n && y < n && Reach(E, n, x, y))
  {
    var k := 0;
    while k < n
      invariant k <= n
      invariant forall x: nat, y: nat :: x < n && y < n ==> At(a[..], n, x, y) == Via(E, k, x, y)
    {
      var i := 0;
      while i < n
        invariant i <= n
        invariant forall x: nat, y: nat :: x < n && y < n ==>
          At(a[..], n, x, y) == Via(E, if x < i then k + 1 else k, x, y)
      {
        var j := 0;
        while j < n
          invariant j <= n
          invariant forall x: nat, y: nat :: x < n && y < n ==>
            At(a[..], n, x, y) == Via(E, if x < i || (x == i && y < j) then k + 1 else k, x, y)
        {
          ghost var prev := a[..];
          AtRead(prev, n, i, j);
          AtRead(prev, n, i, k);
          AtRead(prev, n, k, j);
          ViaRoundPivot(E, k, i, j);
          a[Cell(n, i, j)] := a[Cell(n, i, j)] || (a[Cell(n, i, k)] && a[Cell(n, k, j)]);
          AtUpdate(prev, a[..], n, i, j, a[Cell(n, i, j)]);
          j := j + 1;
        }
        i := i + 1;
      }
      k := k + 1;
    }
    forall x: nat, y: nat | x < n && y < n
      ensures Via(E, n, x, y) == Reach(E, n, x, y)
    {
      ViaIsReach(E, n, x, y);
    }
  }

  /** Clears the diagonal and leaves every other edge as it was. */
  method ClearDiagonal(a: array<bool>, n: nat)
    requires a.Length == n * n
    modifies a
    ensures forall x: nat, y: nat :: At(a[..], n, x, y) == (x != y && At(old(a[..]), n, x, y))
  {
    var vert := 0;
    while vert < n
      invariant vert <= n
      invariant forall x: nat, y: nat :: At(a[..], n, x, y) == (!(x == y && x < vert) && At(old(a[..]), n, x, y))
    {
      ghost var prev := a[..];
      CellBound(n, vert, vert);
      a[Cell(n, vert, vert)] := false;
      AtUpdate(prev, a[..], n, vert, vert, false);
      vert := vert + 1;
    }
  }

  /** The matrix is a strict order: its edges only go up, and it is transitive. */
  ghost predicate StrictOrder(s: seq<bool>, n: nat)
  {
    && (forall x: nat, y: nat :: At(s, n, x, y) ==> x < y)
    && (forall x: nat, y: nat, z: nat :: At(s, n, x, y) && At(s, n, y, z) ==> At(s, n, x, z))
  }

  /** The edge x -> y of s survives the first J rounds of the reduction: no detour
      x -> m -> y through some m < J exists in s. */
  ghost predicate Kept(s: seq<bool>, n: nat, J: nat, x: nat, y: nat)
  {
    At(s, n, x, y) && !exists m: nat :: m < J && At(s, n, x, m) && At(s, n, m, y)
  }

  /** Round J of the reduction removes x -> y exactly when x -> J and J -> y are both
      still present. */
  lemma KeptRound(s: seq<bool>, n: nat, J: nat, x: nat, y: nat)
    requires StrictOrder(s, n)
    ensures !Kept(s, n, J, J, J)
    ensures Kept(s, n, J, J, y) == At(s, n, J, y)
    ensures Kept(s, n, J + 1, x, y) == (Kept(s, n, J, x, y) && !(Kept(s, n, J, x, J) && Kept(s, n, J, J, y)))
  {
    if At(s, n, x, J) && At(s, n, J, y) && !Kept(s, n, J, x, J) {
      var m: nat :| m < J && At(s, n, x, m) && At(s, n, m, J);
      assert At(s, n, m, y);
    }
  }

  /** The closure of a forward relation with its diagonal cleared is a strict order,
      and what the reduction keeps of it is the transitive reduction. */
  lemma ClosureMatrix(s: seq<bool>, n: nat, E: Rel)
    requires Forward(E)
    requires forall x: nat, y: nat :: At(s, n, x, y) == Closed(E, n, x, y)
    ensures StrictOrder(s, n)
    ensures forall x: nat, y: nat :: Kept(s, n, n, x, y) == ReducedEdge(E, n, x, y)
  {
    ClosedStrictOrder(E, n);
  }

  /** The in-place reduction loop: on a strict order, an edge survives exactly when
      no two-edge detour through the original matrix implies it. */
  method Reduce(a: array<bool>, n: nat)
    requires a.Length == n * n && StrictOrder(a[..], n)
    modifies a
    ensures forall x: nat, y: nat :: At(a[..], n, x, y) == Kept(old(a[..]), n, n, x, y)
  {
    ghost var s := a[..];
    var j := 0;
    while j < n
      invariant j <= n
      invariant forall x: nat, y: nat :: At(a[..], n, x, y) == Kept(s, n, j, x, y)
    {
      var i := 0;
      while i < n
        invariant i <= n
        invariant forall x: nat, y: nat :: At(a[..], n, x, y) == Kept(s, n, if x < i then j + 1 else j, x, y)
      {
        AtRead(a[..], n, i, j);
        if a[Cell(n, i, j)] {
          var k := 0;
          while k < n
            invariant k <= n
            invariant forall x: nat, y: nat :: At(a[..], n, x, y) == Kept(s, n, if x < i || (x == i && y < k) then j + 1 else j, x, y)
          {
            ghost var prev := a[..];
            AtRead(prev, n, j, k);
            KeptRound(s, n, j, i, k);
            KeptRound(s, n, j, j, k);
            if a[Cell(n, j, k)] {
              AtRead(prev, n, i, k);
              a[Cell(n, i, k)] := false;
              AtUpdate(prev, a[..], n, i, k, false);
            }
            k := k + 1;
          }
        } else {
          forall y: nat
            ensures Kept(s, n, j + 1, i, y) == Kept(s, n, j, i, y)
          {
            KeptRound(s, n, j, i, y);
          }
        }
        i := i + 1;
      }
      j := j + 1;
    }
  }

  /** The body of `refresh_graph` up to the top-level flags: a fresh n*n matrix,
      the direct edges, their closure, the cleared diagonal and the reduction. It
      holds the transitive reduction of the direct edges. */
  method BuildGraph(length: nat, deps: Tracker) returns (a: array<bool>)
    requires WellFormed(deps, length)
    ensures fresh(a) && a.Length == length * length
    ensures forall x: nat, y: nat :: At(a[..], length, x, y) == ReducedEdge(Direct(deps), length, x, y)
  {
    ghost var E := Direct(deps);
    a := new bool[length * length](_ => false);
    MarkDependencies(a, length, deps);
    DirectForward(deps, length);
    Close(a, length, E);
    ClearDiagonal(a, length);
    forall x: nat, y: nat
      ensures At(a[..], length, x, y) == Closed(E, length, x, y)
    {
      if Reach(E, length, x, y) {
        ReachEnds(E, length, x, y);
      }
    }
    ClosureMatrix(a[..], length, E);
    Reduce(a, length);
  }
}
