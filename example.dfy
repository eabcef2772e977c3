/** The organizer's own test registration: five free functions over the context
    kinds int (0), double (1) and char (2), registered as t1 .. t5 (jobs 0 .. 4):
    t1(const int &, const double &), t2(const int &, char &, const double &),
    t3(int &), t4(int &, const char &), t5(const int &, double &). */
module Example {
  import opened Resource
  import opened Reachability
  import opened Dependencies
  import opened Conflicts
  import opened Organizer

  function Jobs(): seq<seq<Param>>
  {
    [ [Plain(0, true), Plain(1, true)],
      [Plain(0, true), Plain(2, false), Plain(1, true)],
      [Plain(0, false)],
      [Plain(0, false), Plain(2, true)],
      [Plain(0, true), Plain(1, false)] ]
  }

  /** The access lists registration leaves for int, double and char. */
  function IntList(): seq<Access>
  {
    [Access(0, false), Access(1, false), Access(2, true), Access(3, true), Access(4, false)]
  }

  function DoubleList(): seq<Access>
  {
    [Access(0, false), Access(1, false), Access(4, true)]
  }

  function CharList(): seq<Access>
  {
    [Access(1, true), Access(3, false)]
  }

  /** Registering one or two read-only kinds. */
  lemma RegisterRo(deps: Tracker, index: nat, a: ResourceId, b: ResourceId)
    ensures Register(deps, index, [a], []) == Add(deps, a, Access(index, false))
    ensures Register(deps, index, [a, b], []) == Add(Add(deps, a, Access(index, false)), b, Access(index, false))
  {
    assert [a][..0] == [] && [a, b][..1] == [a];
  }

  /** Registering one read-write kind after the read-only ones. */
  lemma RegisterRw(deps: Tracker, index: nat, ro: seq<ResourceId>, w: ResourceId)
    ensures Register(deps, index, ro, [w]) == Add(Register(deps, index, ro, []), w, Access(index, true))
  {
    assert [w][..0] == [];
  }

  /** Registering the prefix of k + 1 jobs is registering job k on the prefix of k. */
  lemma RegisteredStep(ps: seq<seq<Param>>, k: nat)
    requires k < |ps|
    ensures Registered(ps[..k + 1]) == Register(Registered(ps[..k]), k, RoAll(ps[k]), RwAll(ps[k]))
  {
    assert ps[..k + 1][..k] == ps[..k];
    assert ps[..k + 1][k] == ps[k];
  }

  /** What each job reads and writes: t1 reads int and double, t2 reads int and
      double and writes char, t3 writes int, t4 reads char and writes int, t5
      reads int and writes double. */
  lemma JobKinds()
    ensures RoAll(Jobs()[0]) == [0, 1] && RwAll(Jobs()[0]) == []
    ensures RoAll(Jobs()[1]) == [0, 1] && RwAll(Jobs()[1]) == [2]
    ensures RoAll(Jobs()[2]) == [] && RwAll(Jobs()[2]) == [0]
    ensures RoAll(Jobs()[3]) == [2] && RwAll(Jobs()[3]) == [0]
    ensures RoAll(Jobs()[4]) == [0] && RwAll(Jobs()[4]) == [1]
  {
    var ps := Jobs();
    assert ps[1][1..] == [Plain(2, false), Plain(1, true)];
    assert ps[1][1..][1..] == [Plain(1, true)];
  }

  function D1(): Tracker
  {
    map[0 := [Access(0, false)], 1 := [Access(0, false)]]
  }

  function D2(): Tracker
  {
    map[0 := [Access(0, false), Access(1, false)], 1 := [Access(0, false), Access(1, false)], 2 := [Access(1, true)]]
  }

  function D3(): Tracker
  {
    map[0 := [Access(0, false), Access(1, false), Access(2, true)], 1 := [Access(0, false), Access(1, false)], 2 := [Access(1, true)]]
  }

  function D4(): Tracker
  {
    map[0 := [Access(0, false), Access(1, false), Access(2, true), Access(3, true)],
        1 := [Access(0, false), Access(1, false)],
        2 := [Access(1, true), Access(3, false)]]
  }

  lemma Step1()
    ensures Register(map[], 0, [0, 1], []) == D1()
  {
    RegisterRo(map[], 0, 0, 1);
    assert Get(map[], 0) == [] && [] + [Access(0, false)] == [Access(0, false)];
    var m := Add(map[], 0, Access(0, false));
    assert Get(m, 1) == [] && [] + [Access(0, false)] == [Access(0, false)];
    assert Add(m, 1, Access(0, false)) == D1();
  }

  lemma Step2()
    ensures Register(D1(), 1, [0, 1], [2]) == D2()
  {
    RegisterRw(D1(), 1, [0, 1], 2);
    RegisterRo(D1(), 1, 0, 1);
    assert [Access(0, false)] + [Access(1, false)] == [Access(0, false), Access(1, false)];
    var m := Add(D1(), 0, Access(1, false));
    assert m == map[0 := [Access(0, false), Access(1, false)], 1 := [Access(0, false)]];
    var m' := Add(m, 1, Access(1, false));
    assert m' == map[0 := [Access(0, false), Access(1, false)], 1 := [Access(0, false), Access(1, false)]];
    assert Get(m', 2) == [] && [] + [Access(1, true)] == [Access(1, true)];
    assert Add(m', 2, Access(1, true)) == D2();
  }

  lemma Step3()
    ensures Register(D2(), 2, [], [0]) == D3()
  {
    RegisterRw(D2(), 2, [], 0);
    assert [Access(0, false), Access(1, false)] + [Access(2, true)] == [Access(0, false), Access(1, false), Access(2, true)];
    assert Add(D2(), 0, Access(2, true)) == D3();
  }

  lemma Step4()
    ensures Register(D3(), 3, [2], [0]) == D4()
  {
    RegisterRw(D3(), 3, [2], 0);
    RegisterRo(D3(), 3, 2, 2);
    assert [Access(1, true)] + [Access(3, false)] == [Access(1, true), Access(3, false)];
    assert [Access(0, false), Access(1, false), Access(2, true)] + [Access(3, true)] == [Access(0, false), Access(1, false), Access(2, true), Access(3, true)];
    var m := Add(D3(), 2, Access(3, false));
    assert m == map[0 := [Access(0, false), Access(1, false), Access(2, true)], 1 := [Access(0, false), Access(1, false)], 2 := [Access(1, true), Access(3, false)]];
    assert Add(m, 0, Access(3, true)) == D4();
  }

  lemma Step5()
    ensures Register(D4(), 4, [0], [1]) == map[0 := IntList(), 1 := DoubleList(), 2 := CharList()]
  {
    RegisterRw(D4(), 4, [0], 1);
    RegisterRo(D4(), 4, 0, 0);
    assert [Access(0, false), Access(1, false), Access(2, true), Access(3, true)] + [Access(4, false)] == IntList();
    assert [Access(0, false), Access(1, false)] + [Access(4, true)] == DoubleList();
    var m := Add(D4(), 0, Access(4, false));
    assert m == map[0 := IntList(), 1 := [Access(0, false), Access(1, false)], 2 := CharList()];
    assert Add(m, 1, Access(4, true)) == map[0 := IntList(), 1 := DoubleList(), 2 := CharList()];
  }

  /** The lists after the five registrations. */
  lemma ExampleLists()
    ensures Registered(Jobs()) == map[0 := IntList(), 1 := DoubleList(), 2 := CharList()]
  {
    var ps := Jobs();
    JobKinds();
    assert ps[..0] == [] && ps[..5] == ps;
    RegisteredStep(ps, 0);
    Step1();
    RegisteredStep(ps, 1);
    Step2();
    RegisteredStep(ps, 2);
    Step3();
    RegisteredStep(ps, 3);
    Step4();
    RegisteredStep(ps, 4);
    Step5();
  }

  /** The lists of the test, by kind. */
  function Lists(): Tracker
  {
    map[0 := IntList(), 1 := DoubleList(), 2 := CharList()]
  }

  /** int: t1 and t2 read, then t3 and t4 write, then t5 reads. */
  lemma IntEdges(x: nat, y: nat)
    ensures ListEdge(IntList(), x, y) <==> (x == 0 && y == 2) || (x == 1 && y == 2) || (x == 2 && y == 3) || (x == 3 && y == 4)
  {
    var l := IntList();
    ReaderTargets(l, 0, 2);
    ReaderTargets(l, 1, 2);
    WriterBeforeWriter(l, 2);
    assert FindWriter(l, 4) == 5;
    WriterBeforeReaders(l, 3, 5);
    LastRecord(l, 4);
    if ListEdge(l, x, y) {
      var p :| 0 <= p < |l| && EdgeFrom(l, p, x, y);
      assert p == 0 || p == 1 || p == 2 || p == 3 || p == 4;
    }
    if x == 0 && y == 2 {
      assert EdgeFrom(l, 0, x, y);
    } else if x == 1 && y == 2 {
      assert EdgeFrom(l, 1, x, y);
    } else if x == 2 && y == 3 {
      assert EdgeFrom(l, 2, x, y);
    } else if x == 3 && y == 4 {
      assert l[4].job == y;
      assert EdgeFrom(l, 3, x, y);
    }
  }

  /** double: t1 and t2 read, then t5 writes. */
  lemma DoubleEdges(x: nat, y: nat)
    ensures ListEdge(DoubleList(), x, y) <==> (x == 0 && y == 4) || (x == 1 && y == 4)
  {
    var l := DoubleList();
    ReaderTargets(l, 0, 2);
    ReaderTargets(l, 1, 2);
    LastRecord(l, 2);
    if ListEdge(l, x, y) {
      var p :| 0 <= p < |l| && EdgeFrom(l, p, x, y);
      assert p == 0 || p == 1 || p == 2;
    }
    if x == 0 && y == 4 {
      assert EdgeFrom(l, 0, x, y);
    } else if x == 1 && y == 4 {
      assert EdgeFrom(l, 1, x, y);
    }
  }

  /** char: t2 writes, then t4 reads. */
  lemma CharEdges(x: nat, y: nat)
    ensures ListEdge(CharList(), x, y) <==> x == 1 && y == 3
  {
    var l := CharList();
    assert FindWriter(l, 1) == 2;
    WriterBeforeReaders(l, 0, 2);
    LastRecord(l, 1);
    if ListEdge(l, x, y) {
      var p :| 0 <= p < |l| && EdgeFrom(l, p, x, y);
      assert p == 0 || p == 1;
    }
    if x == 1 && y == 3 {
      assert l[1].job == y;
      assert EdgeFrom(l, 0, x, y);
    }
  }

  /** The direct edges of the test: seven of them. */
  lemma ExampleDirect(x: nat, y: nat)
    ensures DirectEdge(Lists(), x, y) <==>
      || (x == 0 && y == 2) || (x == 1 && y == 2) || (x == 2 && y == 3) || (x == 3 && y == 4)
      || (x == 0 && y == 4) || (x == 1 && y == 4) || (x == 1 && y == 3)
  {
    IntEdges(x, y);
    DoubleEdges(x, y);
    CharEdges(x, y);
    var d := Lists();
    assert d[0] == IntList() && d[1] == DoubleList() && d[2] == CharList();
    if DirectEdge(d, x, y) {
      var r :| r in d && ListEdge(d[r], x, y);
      assert r == 0 || r == 1 || r == 2;
    }
  }

  /** Every pair of different jobs is ordered in the closure except t1 and t2,
      which only share resources they both read. */
  lemma ExampleClosed(x: nat, y: nat)
    ensures Closed(Direct(Lists()), 5, x, y) <==> x < y < 5 && !(x == 0 && y == 1)
  {
    var E := Direct(Lists());
    DirectForward(Lists(), 5) by {
      assert WellFormed(Lists(), 5) by {
        assert Lists()[0] == IntList() && Lists()[1] == DoubleList() && Lists()[2] == CharList();
      }
    }
    ClosedStrictOrder(E, 5);
    if x == 0 && y == 1 && Reach(E, 5, x, y) {
      var p :| IsPath(E, 5, 5, p) && p[0] == x && p[|p| - 1] == y;
      PathEntersEnd(E, 5, 5, p, 1);
      var m: nat :| m < 5 && m != 1 && E(m, 1);
      ExampleDirect(m, 1);
    }
    if x < y < 5 && !(x == 0 && y == 1) {
      forall a: nat, b: nat | a < 5 && b < 5 && (a, b) in {(0, 2), (1, 2), (2, 3), (3, 4), (0, 4), (1, 4), (1, 3)}
        ensures Reach(E, 5, a, b)
      {
        ExampleDirect(a, b);
        EdgeReach(E, 5, a, b);
      }
      assert Reach(E, 5, 0, 2) && Reach(E, 5, 2, 3) && Reach(E, 5, 3, 4);
      ReachTrans(E, 5, 0, 2, 3);
      ReachTrans(E, 5, 2, 3, 4);
    }
  }

  /** The reduced graph the organizer builds for its test: t1 -> t3, t2 -> t3,
      t3 -> t4 and t4 -> t5. */
  lemma ExampleReduced(x: nat, y: nat)
    ensures ReducedEdge(Direct(Lists()), 5, x, y) <==> (x == 0 && y == 2) || (x == 1 && y == 2) || (x == 2 && y == 3) || (x == 3 && y == 4)
  {
    var E := Direct(Lists());
    forall a: nat, b: nat
      ensures Closed(E, 5, a, b) <==> a < b < 5 && !(a == 0 && b == 1)
    {
      ExampleClosed(a, b);
    }
    if Closed(E, 5, x, y) && !((x == 0 && y == 2) || (x == 1 && y == 2) || (x == 2 && y == 3) || (x == 3 && y == 4)) {
      // every other ordered pair has a detour through t3 or t4
      var m := if y == 4 && x == 2 then 3 else 2;
      assert Closed(E, 5, x, m) && Closed(E, 5, m, y);
    }
  }

  /** The five registrations of the test. */
  method Register5() returns (o: BasicOrganizer)
    ensures fresh(o) && o.Valid() && o.edges.Length == 0
    ensures |o.nodes| == 5 && o.dependencies == Lists()
  {
    JobKinds();
    o := new BasicOrganizer();
    o.Emplace(1, Jobs()[0], Some("t1"));
    Step1();
    assert o.dependencies == D1();
    o.Emplace(2, Jobs()[1], Some("t2"));
    Step2();
    assert o.dependencies == D2();
    o.Emplace(3, Jobs()[2], Some("t3"));
    Step3();
    assert o.dependencies == D3();
    o.Emplace(4, Jobs()[3], Some("t4"));
    Step4();
    assert o.dependencies == D4();
    o.Emplace(5, Jobs()[4], Some("t5"));
    Step5();
  }

  /** The reduced graph of an organizer holding the test's registrations. */
  lemma TestEdges(o: BasicOrganizer)
    requires |o.nodes| == 5 && o.dependencies == Lists()
    ensures forall x: nat, y: nat :: o.Edge(x, y) <==> (x == 0 && y == 2) || (x == 1 && y == 2) || (x == 2 && y == 3) || (x == 3 && y == 4)
    ensures forall v: nat :: v < 5 ==> (o.TopLevel(v) <==> v < 2)
  {
    forall x: nat, y: nat
      ensures o.Edge(x, y) <==> (x == 0 && y == 2) || (x == 1 && y == 2) || (x == 2 && y == 3) || (x == 3 && y == 4)
    {
      ExampleReduced(x, y);
    }
    assert o.Edge(1, 2) && o.Edge(2, 3) && o.Edge(3, 4);
  }

  /** The children and the parents of job i of the test. */
  method LinksOf(o: BasicOrganizer, i: nat) returns (c: seq<nat>, p: seq<nat>)
    requires o.Current() && |o.nodes| == 5 && o.dependencies == Lists() && i < 5
    ensures c == [[2], [2], [3], [4], []][i]
    ensures p == [[], [], [0, 1], [2], [3]][i]
  {
    c := o.Children(i);
    p := o.Parent(i);
    TestEdges(o);
    var ec, ep := [[2], [2], [3], [4], []][i], [[], [], [0, 1], [2], [3]][i];
    forall v: nat
      ensures (v in ec <==> v < 5 && o.Edge(i, v)) && (v in ep <==> v < 5 && o.Edge(v, i))
    {
      if i == 0 {
        assert ec == [2] && ep == [];
      } else if i == 1 {
        assert ec == [2] && ep == [];
      } else if i == 2 {
        assert ec == [3] && ep == [0, 1];
      } else if i == 3 {
        assert ec == [4] && ep == [2];
      } else {
        assert ec == [] && ep == [3];
      }
    }
    IncreasingUnique(c, ec);
    IncreasingUnique(p, ep);
  }

  /** What the test's visitor walks: the children and the parents of every job. */
  method Links(o: BasicOrganizer) returns (children: seq<seq<nat>>, parents: seq<seq<nat>>)
    requires o.Current() && |o.nodes| == 5 && o.dependencies == Lists()
    ensures children == [[2], [2], [3], [4], []]
    ensures parents == [[], [], [0, 1], [2], [3]]
  {
    children := [];
    parents := [];
    var i := 0;
    while i < 5
      invariant i <= 5
      invariant children == [[2], [2], [3], [4], []][..i] && parents == [[], [], [0, 1], [2], [3]][..i]
    {
      var c, p := LinksOf(o, i);
      children := children + [c];
      parents := parents + [p];
      i := i + 1;
    }
  }

  /** The top-level jobs of the test, reported in index order, are t1 and t2. */
  lemma TestRoots(o: BasicOrganizer, visited: seq<nat>)
    requires |o.nodes| == 5 && o.dependencies == Lists()
    requires Increasing(visited) && forall v: nat :: v in visited <==> v < |o.nodes| && o.TopLevel(v)
    ensures visited == [0, 1]
  {
    TestEdges(o);
    forall v: nat
      ensures v in visited <==> v in [0, 1]
    {
      assert v in visited <==> v < 5 && o.TopLevel(v);
    }
    IncreasingUnique(visited, [0, 1]);
  }

  /** The visit of the test's organizer reports t1 and t2 and leaves the graph built. */
  method Roots(o: BasicOrganizer) returns (visited: seq<nat>)
    requires o.Valid() && |o.nodes| == 5 && o.dependencies == Lists()
    modifies o
    ensures visited == [0, 1]
    ensures o.Current() && |o.nodes| == 5 && o.dependencies == Lists()
  {
    visited := o.Visit();
    TestRoots(o, visited);
  }

  /** The test itself: registers t1 .. t5 and visits the graph. t1 and t2 are the
      top-level jobs, the children of t1, t2, t3, t4, t5 are t3, t3, t4, t5 and
      none, and their parents none, none, t1 and t2, t3, t4. */
  method OrganizerTest() returns (visited: seq<nat>, children: seq<seq<nat>>, parents: seq<seq<nat>>)
    ensures visited == [0, 1]
    ensures children == [[2], [2], [3], [4], []]
    ensures parents == [[], [], [0, 1], [2], [3]]
  {
    var o := Register5();
    visited := Roots(o);
    children, parents := Links(o);
  }
}
