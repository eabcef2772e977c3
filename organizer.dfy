/** The organizer itself: jobs are registered one by one with the resources their
    parameters access, and on demand the organizer turns the per-resource access
    lists into the transitively reduced dependency graph of the jobs, whose
    top-level jobs it then visits. */
module Organizer {
  import opened Matrix
  import opened Reachability
  import opened Resource
  import opened Dependencies
  import opened Graph
  import opened Conflicts

  datatype Option<T> = None | Some(value: T)

  /** A registered job (`node`): its optional name, the identity of the function it
      runs (`type_id<integral_constant<Candidate>>`), the parameters the job fetches
      from the registry when it runs, the bound instance for the second `emplace`
      overload, and the flag `refresh_graph` computes. */
  datatype Node = Node(name: Option<string>, info: nat, params: seq<Param>, payload: Option<nat>, topLevel: bool)

  /** Strictly increasing: the order in which the visiting loops report positions. */
  predicate Increasing(s: seq<nat>)
  {
    forall i, j :: 0 <= i < j < |s| ==> s[i] < s[j]
  }

  /** Two sequences with the same members are empty together. */
  lemma SameMembersEmpty(s: seq<nat>, t: seq<nat>)
    requires forall v :: v in s <==> v in t
    ensures s == [] <==> t == []
  {
    if s != [] {
      assert s[0] in t;
    }
    if t != [] {
      assert t[0] in s;
    }
  }

  /** The visiting loops report a set of positions in exactly one way. */
  lemma {:induction false} IncreasingUnique(s: seq<nat>, t: seq<nat>)
    requires Increasing(s) && Increasing(t)
    requires forall v :: v in s <==> v in t
    ensures s == t
    decreases |s|
  {
    SameMembersEmpty(s, t);
    if s != [] {
      assert s[0] in t && t[0] in s;
      assert s[0] == t[0];
      forall v
        ensures v in s[1..] <==> v in t[1..]
      {
        if v in s[1..] {
          assert v in t;
        }
        if v in t[1..] {
          assert v in s;
        }
      }
      IncreasingUnique(s[1..], t[1..]);
      assert s == [s[0]] + s[1..] && t == [t[0]] + t[1..];
    }
  }

  /** The parameter lists of the registered jobs, in registration order. */
  function Params(nodes: seq<Node>): (ps: seq<seq<Param>>)
    ensures |ps| == |nodes| && forall i :: 0 <= i < |nodes| ==> ps[i] == nodes[i].params
  {
    seq(|nodes|, i requires 0 <= i < |nodes| => nodes[i].params)
  }

  class BasicOrganizer {
    var nodes: seq<Node>
    var dependencies: Tracker
    var edges: array<bool>

    /** The implied dependency relation of the registered jobs, transitively reduced. */
    ghost predicate Edge(x: nat, y: nat)
      reads this
    {
      ReducedEdge(Direct(dependencies), |nodes|, x, y)
    }

    /** No job has a reduced edge into v. */
    ghost predicate TopLevel(v: nat)
      reads this
    {
      forall k: nat :: k < |nodes| ==> !Edge(k, v)
    }

    /** No other job shares a resource with v in a way that orders it before v. */
    ghost predicate NoPredecessor(v: nat)
      reads this
    {
      forall k: nat :: k < |nodes| && k != v ==> !DirectEdge(dependencies, k, v)
    }

    /** A job is top level in the reduced graph exactly when no other job must run
        before it: reduction keeps an incoming edge whenever there is a direct one. */
    lemma TopLevelIffNoPredecessor(v: nat)
      requires Valid() && v < |nodes|
      ensures TopLevel(v) <==> NoPredecessor(v)
    {
      DirectForward(dependencies, |nodes|);
      var E, n := Direct(dependencies), |nodes|;
      NoReducedPredecessor(E, n, v);
      assert forall k: nat :: Edge(k, v) == ReducedEdge(E, n, k, v);
      assert forall k: nat :: E(k, v) == DirectEdge(dependencies, k, v);
    }

    /** The matrix and the top-level flags are those of the current registrations. */
    ghost predicate Current()
      reads this, edges
    {
      && edges.Length == |nodes| * |nodes|
      && (forall x: nat, y: nat :: At(edges[..], |nodes|, x, y) == Edge(x, y))
      && (forall v :: 0 <= v < |nodes| ==> (nodes[v].topLevel <==> TopLevel(v)))
    }

    /** The access lists are those the registered jobs left, in registration order,
        and a matrix that is not empty is up to date. */
    ghost predicate Valid()
      reads this, edges
    {
      && dependencies == Registered(Params(nodes))
      && WellFormed(dependencies, |nodes|)
      && (edges.Length != 0 ==> Current())
    }

    constructor ()
      ensures Valid()
      ensures nodes == [] && dependencies == map[] && edges.Length == 0
    {
      nodes := [];
      dependencies := map[];
      edges := new bool[0];
    }

    /** `track_dependencies`: drops the matrix and appends the job's read and write
        records to the lists of the kinds it accesses. */
    method TrackDependencies(index: nat, ro: seq<ResourceId>, rw: seq<ResourceId>)
      modifies this
      ensures nodes == old(nodes) && edges.Length == 0
      ensures dependencies == Register(old(dependencies), index, ro, rw)
    {
      edges := new bool[0];
      ghost var start := dependencies;
      var i := 0;
      while i < |ro|
        invariant i <= |ro| && nodes == old(nodes) && edges.Length == 0
        invariant dependencies == Register(start, index, ro[..i], [])
      {
        assert ro[..i + 1] == ro[..i] + [ro[i]];
        dependencies := Add(dependencies, ro[i], Access(index, false));
        i := i + 1;
      }
      assert ro[..|ro|] == ro;
      i := 0;
      while i < |rw|
        invariant i <= |rw| && nodes == old(nodes) && edges.Length == 0
        invariant dependencies == Register(start, index, ro, rw[..i])
      {
        assert rw[..i + 1] == rw[..i] + [rw[i]];
        dependencies := Add(dependencies, rw[i], Access(index, true));
        i := i + 1;
      }
      assert rw[..|rw|] == rw;
    }

    /** `emplace<Candidate>(name)`: appends a job that is not top level and registers
        what its parameters read and write. */
    method Emplace(info: nat, params: seq<Param>, name: Option<string>)
      requires Valid()
      modifies this
      ensures Valid() && edges.Length == 0
      ensures nodes == old(nodes) + [Node(name, info, params, None, false)]
      ensures dependencies == Register(old(dependencies), |old(nodes)|, RoAll(params), RwAll(params))
    {
      var index := |nodes|;
      nodes := nodes + [Node(name, info, params, None, false)];
      TrackDependencies(index, RoAll(params), RwAll(params));
      RegisterWellFormed(old(dependencies), index, RoAll(params), RwAll(params));
      assert Params(nodes)[..index] == Params(old(nodes));
    }

    /** `emplace<Candidate>(value_or_instance, name)`: as `Emplace`, and the job
        remembers the instance it is bound to. */
    method EmplaceBound(info: nat, params: seq<Param>, instance: nat, name: Option<string>)
      requires Valid()
      modifies this
      ensures Valid() && edges.Length == 0
      ensures nodes == old(nodes) + [Node(name, info, params, Some(instance), false)]
      ensures dependencies == Register(old(dependencies), |old(nodes)|, RoAll(params), RwAll(params))
    {
      var index := |nodes|;
      nodes := nodes + [Node(name, info, params, Some(instance), false)];
      TrackDependencies(index, RoAll(params), RwAll(params));
      RegisterWellFormed(old(dependencies), index, RoAll(params), RwAll(params));
      assert Params(nodes)[..index] == Params(old(nodes));
    }

    /** The last loop of `refresh_graph`: a job is top level exactly when its column
        of the matrix is empty; the scan of a column stops at its first edge. */
    method MarkTopLevel()
      requires edges.Length == |nodes| * |nodes|
      modifies this
      ensures edges == old(edges) && dependencies == old(dependencies) && |nodes| == |old(nodes)|
      ensures forall v :: 0 <= v < |nodes| ==>
        nodes[v] == old(nodes[v]).(topLevel := forall k: nat :: k < |nodes| ==> !At(edges[..], |nodes|, k, v))
    {
      var length := |nodes|;
      var vi := 0;
      while vi < length
        invariant vi <= length && |nodes| == length
        invariant edges == old(edges) && dependencies == old(dependencies)
        invariant forall v :: 0 <= v < vi ==>
          nodes[v] == old(nodes[v]).(topLevel := forall k: nat :: k < length ==> !At(edges[..], length, k, v))
        invariant forall v :: vi <= v < length ==> nodes[v] == old(nodes[v])
      {
        nodes := nodes[vi := nodes[vi].(topLevel := true)];
        var vk := 0;
        while nodes[vi].topLevel && vk < length
          invariant vk <= length && |nodes| == length
          invariant edges == old(edges) && dependencies == old(dependencies)
          invariant nodes[vi] == old(nodes[vi]).(topLevel := nodes[vi].topLevel)
          invariant nodes[vi].topLevel <==> forall k: nat :: k < vk ==> !At(edges[..], length, k, vi)
          invariant forall v :: 0 <= v < vi ==>
            nodes[v] == old(nodes[v]).(topLevel := forall k: nat :: k < length ==> !At(edges[..], length, k, v))
          invariant forall v :: vi < v < length ==> nodes[v] == old(nodes[v])
        {
          AtRead(edges[..], length, vk, vi);
          nodes := nodes[vi := nodes[vi].(topLevel := !edges[Cell(length, vk, vi)])];
          vk := vk + 1;
        }
        vi := vi + 1;
      }
    }

    /** `refresh_graph`: when the matrix is empty, rebuilds it as the transitive
        reduction of the direct edges and recomputes the top-level flags; otherwise
        leaves everything as it is. */
    method RefreshGraph()
      requires Valid()
      modifies this
      ensures Valid() && Current()
      ensures dependencies == old(dependencies) && |nodes| == |old(nodes)|
      ensures forall v :: 0 <= v < |nodes| ==> nodes[v] == old(nodes[v]).(topLevel := nodes[v].topLevel)
      ensures old(edges.Length) != 0 ==> edges == old(edges) && nodes == old(nodes)
    {
      if edges.Length == 0 {
        edges := BuildGraph(|nodes|, dependencies);
        ghost var before := nodes;
        MarkTopLevel();
        assert Params(nodes) == Params(before);
      }
    }

    /** `visit`: refreshes the graph, then reports every top-level job in index order:
        exactly the jobs that no other job has to precede. */
    method Visit() returns (visited: seq<nat>)
      requires Valid()
      modifies this
      ensures Valid() && Current()
      ensures dependencies == old(dependencies) && |nodes| == |old(nodes)|
      ensures forall v :: 0 <= v < |nodes| ==> nodes[v] == old(nodes[v]).(topLevel := nodes[v].topLevel)
      ensures Increasing(visited)
      ensures forall v: nat :: v in visited <==> v < |nodes| && nodes[v].topLevel
      ensures forall v: nat :: v in visited <==> v < |nodes| && TopLevel(v)
      ensures forall v: nat :: v in visited <==> v < |nodes| && NoPredecessor(v)
    {
      RefreshGraph();
      visited := [];
      var pos := 0;
      var last := |nodes|;
      while pos < last
        invariant pos <= last == |nodes|
        invariant Increasing(visited) && forall i :: 0 <= i < |visited| ==> visited[i] < pos
        invariant forall v: nat :: v in visited <==> v < pos && nodes[v].topLevel
      {
        if nodes[pos].topLevel {
          visited := visited + [pos];
        }
        pos := pos + 1;
      }
      forall v: nat | v < |nodes|
        ensures TopLevel(v) <==> NoPredecessor(v)
      {
        TopLevelIffNoPredecessor(v);
      }
    }

    /** Two different jobs that access one resource, at least one of them writing it,
        are ordered in the graph the organizer visits: the later is reached from the
        earlier through `children` links. */
    lemma ConflictingJobsOrdered(i: nat, j: nat, r: ResourceId)
      requires Valid() && i < j < |nodes| && Conflict(Params(nodes), i, j, r)
      ensures Reach(Reduced(Direct(dependencies), |nodes|), |nodes|, i, j)
    {
      ConflictsOrdered(Params(nodes), i, j, r);
    }

    /** Every direct dependency joins two jobs that conflict on some resource. */
    lemma DependencyFromConflict(x: nat, y: nat)
      requires Valid() && DirectEdge(dependencies, x, y)
      ensures x <= y < |nodes|
      ensures exists r :: Conflict(Params(nodes), x, y, r)
    {
      DirectEdgeConflict(Params(nodes), x, y);
    }

    /** `task::children`: the jobs that directly follow job `index` in the reduced
        graph, in index order (its row of the matrix). */
    method Children(index: nat) returns (children: seq<nat>)
      requires Current() && index < |nodes|
      ensures Increasing(children)
      ensures forall v: nat :: v in children <==> v < |nodes| && Edge(index, v)
    {
      var length := |nodes|;
      var row := index * length;
      children := [];
      var pos := 0;
      while pos < length
        invariant pos <= length
        invariant Increasing(children) && forall i :: 0 <= i < |children| ==> children[i] < pos
        invariant forall v: nat :: v in children <==> v < pos && At(edges[..], length, index, v)
      {
        AtRead(edges[..], length, index, pos);
        assert row + pos == Cell(length, index, pos);
        if edges[row + pos] {
          children := children + [pos];
        }
        pos := pos + 1;
      }
    }

    /** `task::parent`: the jobs that job `index` directly follows in the reduced
        graph, in index order (its column of the matrix). */
    method Parent(index: nat) returns (parents: seq<nat>)
      requires Current() && index < |nodes|
      ensures Increasing(parents)
      ensures forall v: nat :: v in parents <==> v < |nodes| && Edge(v, index)
    {
      var length := |nodes|;
      parents := [];
      var pos := 0;
      while pos < length
        invariant pos <= length
        invariant Increasing(parents) && forall i :: 0 <= i < |parents| ==> parents[i] < pos
        invariant forall v: nat :: v in parents <==> v < pos && At(edges[..], length, v, index)
      {
        AtRead(edges[..], length, pos, index);
        assert pos * length + index == Cell(length, pos, index);
        if edges[pos * length + index] {
          parents := parents + [pos];
        }
        pos := pos + 1;
      }
    }
  }
}
