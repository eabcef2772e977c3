/** The per-resource access lists that registration fills (`dependencies`) and the
    single-writer / multiple-reader rule that turns each list into direct edges. */
module Dependencies {
  import opened Resource
  import opened Reachability

  /** One access record of a resource list: the job's index and whether it writes. */
  datatype Access = Access(job: nat, write: bool)

  /** The resource lists, keyed by resource identity. */
  type Tracker = map<ResourceId, seq<Access>>

  /** The list of a resource; indexing the map creates an empty list for a new key. */
  function Get(deps: Tracker, r: ResourceId): seq<Access>
  {
    if r in deps then deps[r] else []
  }

  /** The records one registration appends to the list of r: one (index, write) per
      occurrence of r among the ids. */
  function Entries(ids: seq<ResourceId>, r: ResourceId, index: nat, write: bool): (e: seq<Access>)
    ensures |e| == multiset(ids)[r]
    ensures forall i :: 0 <= i < |e| ==> e[i] == Access(index, write)
  {
    seq(multiset(ids)[r], _ => Access(index, write))
  }

  /** Records appear in registration order, so job indices never decrease along a list. */
  predicate Ordered(l: seq<Access>)
  {
    forall i, j :: 0 <= i < j < |l| ==> l[i].job <= l[j].job
  }

  /** Every list is ordered and names only registered jobs 0..n-1. */
  predicate WellFormed(deps: Tracker, n: nat)
  {
    forall r :: r in deps ==> Ordered(deps[r]) && forall i :: 0 <= i < |deps[r]| ==> deps[r][i].job < n
  }

  /** The first writer at or after `from`, or |l| when there is none (`std::find_if`
      on `elem.second`). */
  function FindWriter(l: seq<Access>, from: nat): (r: nat)
    requires from <= |l|
    ensures from <= r <= |l|
    ensures r < |l| ==> l[r].write
    ensures forall m :: from <= m < r ==> !l[m].write
    decreases |l| - from
  {
    if from == |l| || l[from].write then from else FindWriter(l, from + 1)
  }

  /** The edge rule between the records at positions p < q of one list: one of them
      writes, no writer stands strictly between them, and two writers are joined only
      when they are adjacent. */
  predicate PosEdge(l: seq<Access>, p: nat, q: nat)
  {
    && p < q < |l|
    && (l[p].write || l[q].write)
    && (forall m :: p < m < q ==> !l[m].write)
    && (l[p].write && l[q].write ==> q == p + 1)
  }

  /** The rule gives an edge x -> y out of position p. */
  ghost predicate EdgeFrom(l: seq<Access>, p: nat, x: nat, y: nat)
  {
    p < |l| && l[p].job == x && exists q :: p < q < |l| && PosEdge(l, p, q) && l[q].job == y
  }

  /** The rule gives an edge x -> y out of some position in lo..hi-1. */
  ghost predicate EdgeIn(l: seq<Access>, lo: nat, hi: nat, x: nat, y: nat)
  {
    exists p :: lo <= p < hi && EdgeFrom(l, p, x, y)
  }

  /** The rule gives an edge x -> y somewhere in the list. */
  ghost predicate ListEdge(l: seq<Access>, x: nat, y: nat)
  {
    EdgeIn(l, 0, |l|, x, y)
  }

  /** The direct edge x -> y: some resource's list gives it. */
  ghost predicate DirectEdge(deps: Tracker, x: nat, y: nat)
  {
    exists r :: r in deps && ListEdge(deps[r], x, y)
  }

  /** The direct edges as a relation. */
  ghost function Direct(deps: Tracker): Rel
  {
    (x: nat, y: nat) => DirectEdge(deps, x, y)
  }

  lemma EdgeInSplit(l: seq<Access>, lo: nat, mid: nat, hi: nat)
    requires lo <= mid <= hi
    ensures forall x, y :: EdgeIn(l, lo, hi, x, y) <==> EdgeIn(l, lo, mid, x, y) || EdgeIn(l, mid, hi, x, y)
  {
  }

  lemma EdgeInOne(l: seq<Access>, p: nat)
    ensures forall x, y :: EdgeIn(l, p, p + 1, x, y) <==> EdgeFrom(l, p, x, y)
  {
  }

  /** A writer immediately followed by a writer has exactly one edge: to that writer. */
  lemma WriterBeforeWriter(l: seq<Access>, p: nat)
    requires p + 1 < |l| && l[p].write && l[p + 1].write
    ensures forall x, y :: EdgeFrom(l, p, x, y) <==> x == l[p].job && y == l[p + 1].job
  {
    assert PosEdge(l, p, p + 1);
  }

  /** A writer followed by readers has an edge to each reader up to the next writer, or
      to every remaining record when no writer follows, and to nothing else. */
  lemma WriterBeforeReaders(l: seq<Access>, p: nat, next: nat)
    requires p + 1 < |l| && l[p].write && !l[p + 1].write
    requires next == FindWriter(l, p + 1)
    ensures forall x, y :: EdgeFrom(l, p, x, y) <==> x == l[p].job && exists q :: p < q < next && l[q].job == y
  {
    forall x, y
      ensures EdgeFrom(l, p, x, y) <==> x == l[p].job && exists q :: p < q < next && l[q].job == y
    {
      if EdgeFrom(l, p, x, y) {
        var q :| p < q < |l| && PosEdge(l, p, q) && l[q].job == y;
      }
      if x == l[p].job && exists q :: p < q < next && l[q].job == y {
        var q :| p < q < next && l[q].job == y;
        assert PosEdge(l, p, q);
      }
    }
  }

  /** A reader has one edge, to the first writer after it, and none when no writer
      follows; in particular two readers are never joined. */
  lemma ReaderTargets(l: seq<Access>, p: nat, next: nat)
    requires p < next <= |l| && !l[p].write
    requires forall m :: p <= m < next ==> !l[m].write
    requires next < |l| ==> l[next].write
    ensures forall x, y :: EdgeFrom(l, p, x, y) <==> next < |l| && x == l[p].job && y == l[next].job
  {
    if next < |l| {
      assert PosEdge(l, p, next);
    }
    forall x, y | EdgeFrom(l, p, x, y)
      ensures next < |l| && y == l[next].job
    {
      var q :| p < q < |l| && PosEdge(l, p, q) && l[q].job == y;
    }
  }

  /** The last record has no edge out. */
  lemma LastRecord(l: seq<Access>, p: nat)
    requires p + 1 == |l|
    ensures forall x, y :: !EdgeFrom(l, p, x, y)
  {
  }

  /** The rule only joins an earlier record to a later one, so on an ordered list every
      edge goes from a job to itself or to a later job. */
  lemma ListEdgeForward(l: seq<Access>, x: nat, y: nat)
    requires Ordered(l) && ListEdge(l, x, y)
    ensures x <= y
    ensures exists p, q :: 0 <= p < q < |l| && l[p].job == x && l[q].job == y && (l[p].write || l[q].write)
  {
    var p :| 0 <= p < |l| && EdgeFrom(l, p, x, y);
    var q :| p < q < |l| && PosEdge(l, p, q) && l[q].job == y;
  }

  /** With well-formed lists every direct edge joins registered jobs and goes forward. */
  lemma DirectForward(deps: Tracker, n: nat)
    requires WellFormed(deps, n)
    ensures Forward(Direct(deps))
    ensures forall x: nat, y: nat :: DirectEdge(deps, x, y) ==> x < n && y < n && x <= y
  {
    forall x: nat, y: nat | DirectEdge(deps, x, y)
      ensures x < n && y < n && x <= y
    {
      var r :| r in deps && ListEdge(deps[r], x, y);
      ListEdgeForward(deps[r], x, y);
    }
  }

  /** One `emplace_back` on the list of r, creating the list when r is new. */
  function Add(deps: Tracker, r: ResourceId, a: Access): Tracker
  {
    deps[r := Get(deps, r) + [a]]
  }

  /** The resource lists after job `index` registers its read-only kinds `ro` and its
      read-write kinds `rw`, one record per kind, the read records first. */
  function Register(deps: Tracker, index: nat, ro: seq<ResourceId>, rw: seq<ResourceId>): Tracker
    decreases |ro| + |rw|
  {
    if rw != [] then Add(Register(deps, index, ro, rw[..|rw| - 1]), rw[|rw| - 1], Access(index, true))
    else if ro != [] then Add(Register(deps, index, ro[..|ro| - 1], []), ro[|ro| - 1], Access(index, false))
    else deps
  }

  /** One more occurrence of x adds one record to the list of x and none elsewhere. */
  lemma EntriesSnoc(ids: seq<ResourceId>, x: ResourceId, r: ResourceId, index: nat, write: bool)
    ensures Entries(ids + [x], r, index, write) == Entries(ids, r, index, write) + (if r == x then [Access(index, write)] else [])
  {
    assert multiset(ids + [x]) == multiset(ids) + multiset{x};
  }

  /** Reading a list after one `emplace_back`. */
  lemma GetAdd(deps: Tracker, x: ResourceId, a: Access, r: ResourceId)
    ensures Get(Add(deps, x, a), r) == Get(deps, r) + (if r == x then [a] else [])
    ensures r in Add(deps, x, a) <==> r in deps || r == x
  {
  }

  /** Registration appends to the list of each kind r one read record per occurrence
      of r among the read-only kinds, then one write record per occurrence among the
      read-write kinds. */
  lemma {:induction false} RegisterLists(deps: Tracker, index: nat, ro: seq<ResourceId>, rw: seq<ResourceId>, r: ResourceId)
    ensures Get(Register(deps, index, ro, rw), r) == Get(deps, r) + Entries(ro, r, index, false) + Entries(rw, r, index, true)
    decreases |ro| + |rw|
  {
    if rw != [] {
      var init, x := rw[..|rw| - 1], rw[|rw| - 1];
      assert rw == init + [x];
      var extra := if r == x then [Access(index, true)] else [];
      RegisterLists(deps, index, ro, init, r);
      GetAdd(Register(deps, index, ro, init), x, Access(index, true), r);
      EntriesSnoc(init, x, r, index, true);
      assert Get(Register(deps, index, ro, rw), r) == Get(Register(deps, index, ro, init), r) + extra;
      assert Entries(rw, r, index, true) == Entries(init, r, index, true) + extra;
    } else if ro != [] {
      var init, x := ro[..|ro| - 1], ro[|ro| - 1];
      assert ro == init + [x];
      var extra := if r == x then [Access(index, false)] else [];
      RegisterLists(deps, index, init, [], r);
      GetAdd(Register(deps, index, init, []), x, Access(index, false), r);
      EntriesSnoc(init, x, r, index, false);
      assert Get(Register(deps, index, ro, rw), r) == Get(Register(deps, index, init, []), r) + extra;
      assert Entries(ro, r, index, false) == Entries(init, r, index, false) + extra;
      assert Entries(rw, r, index, true) == [];
      assert Entries([], r, index, true) == [];
    } else {
      assert Entries(ro, r, index, false) == [] && Entries(rw, r, index, true) == [];
    }
  }

  /** Registration creates lists for exactly the kinds not seen before. */
  lemma {:induction false} RegisterKeys(deps: Tracker, index: nat, ro: seq<ResourceId>, rw: seq<ResourceId>, r: ResourceId)
    ensures r in Register(deps, index, ro, rw) <==> r in deps || r in ro || r in rw
    decreases |ro| + |rw|
  {
    if rw != [] {
      var init, x := rw[..|rw| - 1], rw[|rw| - 1];
      assert rw == init + [x];
      RegisterKeys(deps, index, ro, init, r);
      GetAdd(Register(deps, index, ro, init), x, Access(index, true), r);
    } else if ro != [] {
      var init, x := ro[..|ro| - 1], ro[|ro| - 1];
      assert ro == init + [x];
      RegisterKeys(deps, index, init, [], r);
      GetAdd(Register(deps, index, init, []), x, Access(index, false), r);
    }
  }

  /** Registration keeps the lists well formed: the new job's index is the largest. */
  lemma RegisterWellFormed(deps: Tracker, index: nat, ro: seq<ResourceId>, rw: seq<ResourceId>)
    requires WellFormed(deps, index)
    ensures WellFormed(Register(deps, index, ro, rw), index + 1)
  {
    var d := Register(deps, index, ro, rw);
    forall r | r in d
      ensures Ordered(d[r]) && forall i :: 0 <= i < |d[r]| ==> d[r][i].job < index + 1
    {
      RegisterLists(deps, index, ro, rw, r);
      var l := Get(deps, r);
      var e := Entries(ro, r, index, false) + Entries(rw, r, index, true);
      assert d[r] == l + e;
      assert forall i :: 0 <= i < |e| ==> e[i].job == index;
    }
  }

  /** Appending records of one job never removes an edge of the list and only adds
      edges that end at that job. */
  lemma AppendEdges(l: seq<Access>, e: seq<Access>, index: nat, x: nat, y: nat)
    requires forall i :: 0 <= i < |e| ==> e[i].job == index
    ensures ListEdge(l, x, y) ==> ListEdge(l + e, x, y)
    ensures ListEdge(l + e, x, y) && y != index ==> ListEdge(l, x, y)
  {
    var le := l + e;
    if ListEdge(l, x, y) {
      var p :| 0 <= p < |l| && EdgeFrom(l, p, x, y);
      var q :| p < q < |l| && PosEdge(l, p, q) && l[q].job == y;
      assert PosEdge(le, p, q);
      assert EdgeFrom(le, p, x, y);
    }
    if ListEdge(le, x, y) && y != index {
      var p :| 0 <= p < |le| && EdgeFrom(le, p, x, y);
      var q :| p < q < |le| && PosEdge(le, p, q) && le[q].job == y;
      assert q < |l|;
      assert forall m :: 0 <= m <= q ==> le[m] == l[m];
      assert PosEdge(l, p, q);
      assert EdgeFrom(l, p, x, y);
    }
  }

  /** Registering job `index` keeps every direct edge between earlier jobs and adds
      only edges into the new job. */
  lemma RegisterExtends(deps: Tracker, index: nat, ro: seq<ResourceId>, rw: seq<ResourceId>, x: nat, y: nat)
    ensures DirectEdge(deps, x, y) ==> DirectEdge(Register(deps, index, ro, rw), x, y)
    ensures DirectEdge(Register(deps, index, ro, rw), x, y) && y != index ==> DirectEdge(deps, x, y)
  {
    var d := Register(deps, index, ro, rw);
    if DirectEdge(deps, x, y) {
      var r :| r in deps && ListEdge(deps[r], x, y);
      RegisterLists(deps, index, ro, rw, r);
      var e := Entries(ro, r, index, false) + Entries(rw, r, index, true);
      assert d[r] == deps[r] + e;
      AppendEdges(deps[r], e, index, x, y);
    }
    if DirectEdge(d, x, y) && y != index {
      var r :| r in d && ListEdge(d[r], x, y);
      RegisterLists(deps, index, ro, rw, r);
      var e := Entries(ro, r, index, false) + Entries(rw, r, index, true);
      assert d[r] == Get(deps, r) + e;
      AppendEdges(Get(deps, r), e, index, x, y);
    }
  }
}
