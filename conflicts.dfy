/** What the graph guarantees about the jobs: any two jobs that touch one resource,
    one of them writing it, are ordered by the graph (registration order decides
    which runs first), and every direct edge comes from such a conflict. */
module Conflicts {
  import opened Resource
  import opened Reachability
  import opened Dependencies

  /** Job (parameter list) p accesses the resource r, reading or writing. */
  predicate Accesses(p: seq<Param>, r: ResourceId)
  {
    r in RoAll(p) || r in RwAll(p)
  }

  /** Jobs i and j both access r and at least one of them writes it. */
  predicate Conflict(ps: seq<seq<Param>>, i: nat, j: nat, r: ResourceId)
    requires i < |ps| && j < |ps|
  {
    Accesses(ps[i], r) && Accesses(ps[j], r) && (r in RwAll(ps[i]) || r in RwAll(ps[j]))
  }

  /** The resource lists after registering jobs 0..|ps|-1 in order, job i with the
      parameter list ps[i]. */
  function Registered(ps: seq<seq<Param>>): Tracker
    decreases |ps|
  {
    if ps == [] then map[]
    else Register(Registered(ps[..|ps| - 1]), |ps| - 1, RoAll(ps[|ps| - 1]), RwAll(ps[|ps| - 1]))
  }

  /** Lists built by registration are well formed. */
  lemma {:induction false} RegisteredWellFormed(ps: seq<seq<Param>>)
    ensures WellFormed(Registered(ps), |ps|)
    decreases |ps|
  {
    if ps != [] {
      var init, last := ps[..|ps| - 1], |ps| - 1;
      RegisteredWellFormed(init);
      RegisterWellFormed(Registered(init), last, RoAll(ps[last]), RwAll(ps[last]));
    }
  }

  /** Registration keeps every earlier record of a list in place. */
  lemma RecordKept(deps: Tracker, index: nat, ro: seq<ResourceId>, rw: seq<ResourceId>, r: ResourceId, p: nat)
    requires r in deps && p < |deps[r]|
    ensures r in Register(deps, index, ro, rw)
    ensures p < |Register(deps, index, ro, rw)[r]| && Register(deps, index, ro, rw)[r][p] == deps[r][p]
  {
    RegisterLists(deps, index, ro, rw, r);
    RegisterKeys(deps, index, ro, rw, r);
  }

  /** The registering job leaves a record of each way it accesses r. */
  lemma RecordAdded(deps: Tracker, index: nat, ro: seq<ResourceId>, rw: seq<ResourceId>, r: ResourceId, write: bool)
    requires r in (if write then rw else ro)
    ensures r in Register(deps, index, ro, rw)
    ensures exists p :: 0 <= p < |Register(deps, index, ro, rw)[r]| && Register(deps, index, ro, rw)[r][p] == Access(index, write)
  {
    RegisterLists(deps, index, ro, rw, r);
    RegisterKeys(deps, index, ro, rw, r);
    var l, eo, ew := Get(deps, r), Entries(ro, r, index, false), Entries(rw, r, index, true);
    assert Register(deps, index, ro, rw)[r] == l + eo + ew;
    if write {
      assert r in multiset(rw);
      assert (l + eo + ew)[|l| + |eo|] == Access(index, true);
    } else {
      assert r in multiset(ro);
      assert (l + eo + ew)[|l|] == Access(index, false);
    }
  }

  /** Every access of job i to r leaves a record in the list of r: a write record
      when r is among its read-write kinds, a read record when among its read-only
      kinds. */
  lemma {:induction false} RecordOf(ps: seq<seq<Param>>, i: nat, r: ResourceId, write: bool)
    requires i < |ps| && r in (if write then RwAll(ps[i]) else RoAll(ps[i]))
    ensures r in Registered(ps)
    ensures exists p :: 0 <= p < |Registered(ps)[r]| && Registered(ps)[r][p] == Access(i, write)
    decreases |ps|
  {
    var init, last := ps[..|ps| - 1], |ps| - 1;
    var ro, rw := RoAll(ps[last]), RwAll(ps[last]);
    var before := Registered(init);
    assert Registered(ps) == Register(before, last, ro, rw);
    if i < last {
      assert init[i] == ps[i];
      RecordOf(init, i, r, write);
      var p :| 0 <= p < |before[r]| && before[r][p] == Access(i, write);
      RecordKept(before, last, ro, rw, r, p);
    } else {
      RecordAdded(before, last, ro, rw, r, write);
    }
  }

  /** Conversely every record names a registered job that accesses r that way. */
  lemma {:induction false} RecordSource(ps: seq<seq<Param>>, r: ResourceId, p: nat)
    requires r in Registered(ps) && p < |Registered(ps)[r]|
    ensures Registered(ps)[r][p].job < |ps|
    ensures r in (if Registered(ps)[r][p].write then RwAll(ps[Registered(ps)[r][p].job]) else RoAll(ps[Registered(ps)[r][p].job]))
    decreases |ps|
  {
    var init, last := ps[..|ps| - 1], |ps| - 1;
    var ro, rw := RoAll(ps[last]), RwAll(ps[last]);
    var before := Registered(init);
    RegisterLists(before, last, ro, rw, r);
    var l, eo, ew := Get(before, r), Entries(ro, r, last, false), Entries(rw, r, last, true);
    var list := l + eo + ew;
    assert Registered(ps)[r] == list;
    if p < |l| {
      assert list[p] == before[r][p];
      RecordSource(init, r, p);
      assert init[list[p].job] == ps[list[p].job];
    } else if p < |l| + |eo| {
      assert list[p] == eo[p - |l|];
      assert r in multiset(ro);
    } else {
      assert list[p] == ew[p - |l| - |eo|];
      assert r in multiset(rw);
    }
  }

  /** One edge of a relation over registered jobs is a path. */
  lemma EdgeReach(E: Rel, n: nat, x: nat, y: nat)
    requires x < n && y < n && E(x, y)
    ensures Reach(E, n, x, y)
  {
    assert IsPath(E, n, n, [x, y]);
  }

  /** Joins two steps that may each be empty (same job). */
  lemma Chain(E: Rel, n: nat, x: nat, m: nat, y: nat)
    requires x == m || Reach(E, n, x, m)
    requires m == y || Reach(E, n, m, y)
    ensures x == y || Reach(E, n, x, y)
  {
    if x != m && m != y {
      ReachTrans(E, n, x, m, y);
    }
  }

  /** Two records of one list, one of them a write, belong to the same job or are
      joined by a chain of direct edges from the earlier to the later. */
  lemma {:induction false} ListConflictReach(deps: Tracker, n: nat, r: ResourceId, p: nat, q: nat)
    requires WellFormed(deps, n) && r in deps
    requires p < q < |deps[r]| && (deps[r][p].write || deps[r][q].write)
    ensures deps[r][p].job == deps[r][q].job || Reach(Direct(deps), n, deps[r][p].job, deps[r][q].job)
    decreases q - p
  {
    var l, E := deps[r], Direct(deps);
    if PosEdge(l, p, q) {
      assert EdgeFrom(l, p, l[p].job, l[q].job);
      assert ListEdge(l, l[p].job, l[q].job);
      EdgeReach(E, n, l[p].job, l[q].job);
    } else if m :| p < m < q && l[m].write {
      ListConflictReach(deps, n, r, p, m);
      ListConflictReach(deps, n, r, m, q);
      Chain(E, n, l[p].job, l[m].job, l[q].job);
    } else {
      // two writers with only readers, at least one, between them
      assert PosEdge(l, p, p + 1);
      assert EdgeFrom(l, p, l[p].job, l[p + 1].job);
      assert ListEdge(l, l[p].job, l[p + 1].job);
      EdgeReach(E, n, l[p].job, l[p + 1].job);
      ListConflictReach(deps, n, r, p + 1, q);
      Chain(E, n, l[p].job, l[p + 1].job, l[q].job);
    }
  }

  /** Records of two different jobs in one list, one a write, order the two jobs. */
  lemma RecordsOrdered(deps: Tracker, n: nat, r: ResourceId, p: nat, q: nat, i: nat, j: nat)
    requires WellFormed(deps, n) && r in deps && p < |deps[r]| && q < |deps[r]|
    requires deps[r][p].job == i && deps[r][q].job == j && i < j
    requires deps[r][p].write || deps[r][q].write
    ensures Closed(Direct(deps), n, i, j)
    ensures Reach(Reduced(Direct(deps), n), n, i, j)
  {
    // the list is ordered, so the earlier job's record comes first
    assert Ordered(deps[r]);
    assert p < q;
    ListConflictReach(deps, n, r, p, q);
    DirectForward(deps, n);
    ReducedSameReach(Direct(deps), n, i, j);
  }

  /** The safety property of the graph: two different jobs that access one resource,
      at least one of them writing it, are ordered by the registration order, both
      in the closure and in the reduced graph the organizer visits. */
  lemma ConflictsOrdered(ps: seq<seq<Param>>, i: nat, j: nat, r: ResourceId)
    requires i < j < |ps| && Conflict(ps, i, j, r)
    ensures Closed(Direct(Registered(ps)), |ps|, i, j)
    ensures Reach(Reduced(Direct(Registered(ps)), |ps|), |ps|, i, j)
  {
    var deps := Registered(ps);
    RegisteredWellFormed(ps);
    var wi := r in RwAll(ps[i]);
    var wj := r in RwAll(ps[j]);
    RecordOf(ps, i, r, wi);
    RecordOf(ps, j, r, wj);
    var p :| 0 <= p < |deps[r]| && deps[r][p] == Access(i, wi);
    var q :| 0 <= q < |deps[r]| && deps[r][q] == Access(j, wj);
    RecordsOrdered(deps, |ps|, r, p, q, i, j);
  }

  /** Every direct edge x -> y joins a job to itself or to a later job that it
      conflicts with on some resource. */
  lemma DirectEdgeConflict(ps: seq<seq<Param>>, x: nat, y: nat)
    requires DirectEdge(Registered(ps), x, y)
    ensures x <= y < |ps|
    ensures exists r :: Conflict(ps, x, y, r)
  {
    var deps := Registered(ps);
    RegisteredWellFormed(ps);
    var r :| r in deps && ListEdge(deps[r], x, y);
    var l := deps[r];
    ListEdgeForward(l, x, y);
    var p, q :| 0 <= p < q < |l| && l[p].job == x && l[q].job == y && (l[p].write || l[q].write);
    RecordSource(ps, r, p);
    RecordSource(ps, r, q);
    assert Conflict(ps, x, y, r);
  }
}
