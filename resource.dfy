/** How a job's parameter list becomes its read-only and read-write resource lists,
    as the `internal::resource` templates compute at compile time. */
module Resource {

  /** Identity of a resource type (the hash of the type once const is removed). */
  type ResourceId = nat

  /** A component kind iterated by a view, with its const qualification. */
  datatype Component = Component(id: ResourceId, isConst: bool)

  /** One parameter of a job, references removed: a plain context type, or a view
      with its excluded kinds and its iterated components. */
  datatype Param =
    | Plain(id: ResourceId, isConst: bool)
    | View(excludes: seq<ResourceId>, components: seq<Component>)

  /** The kinds named by a sequence of components, in order. */
  function Ids(cs: seq<Component>): (r: seq<ResourceId>)
    ensures |r| == |cs| && forall i :: 0 <= i < |cs| ==> r[i] == cs[i].id
  {
    seq(|cs|, i requires 0 <= i < |cs| => cs[i].id)
  }

  /** The const components of a view, in declaration order. */
  function ConstComponents(cs: seq<Component>): seq<ResourceId>
  {
    if cs == [] then []
    else (if cs[0].isConst then [cs[0].id] else []) + ConstComponents(cs[1..])
  }

  /** The non-const components of a view, in declaration order. */
  function MutableComponents(cs: seq<Component>): seq<ResourceId>
  {
    if cs == [] then []
    else (if cs[0].isConst then [] else [cs[0].id]) + MutableComponents(cs[1..])
  }

  /** Read-only resources of one parameter. */
  function Ro(p: Param): seq<ResourceId>
  {
    match p
    case Plain(id, isConst) => if isConst then [id] else []
    case View(excludes, components) => excludes + ConstComponents(components)
  }

  /** Read-write resources of one parameter. */
  function Rw(p: Param): seq<ResourceId>
  {
    match p
    case Plain(id, isConst) => if isConst then [] else [id]
    case View(_, components) => MutableComponents(components)
  }

  /** Read-only resources of a parameter list: the lists of the parameters, concatenated. */
  function RoAll(ps: seq<Param>): seq<ResourceId>
  {
    if ps == [] then [] else Ro(ps[0]) + RoAll(ps[1..])
  }

  /** Read-write resources of a parameter list: the lists of the parameters, concatenated. */
  function RwAll(ps: seq<Param>): seq<ResourceId>
  {
    if ps == [] then [] else Rw(ps[0]) + RwAll(ps[1..])
  }

  /** Every resource a parameter names: a plain type, or a view's excluded kinds and components. */
  function Names(p: Param): seq<ResourceId>
  {
    match p
    case Plain(id, _) => [id]
    case View(excludes, components) => excludes + Ids(components)
  }

  /** Every resource a parameter list names, in parameter order. */
  function NamesAll(ps: seq<Param>): seq<ResourceId>
  {
    if ps == [] then [] else Names(ps[0]) + NamesAll(ps[1..])
  }

  /** Each component lands in exactly one of the two lists: the const ones among the
      read-only kinds, the others among the read-write kinds. */
  lemma {:induction false} ComponentsSplit(cs: seq<Component>)
    ensures multiset(ConstComponents(cs)) + multiset(MutableComponents(cs)) == multiset(Ids(cs))
    ensures forall x :: x in ConstComponents(cs) <==> exists i :: 0 <= i < |cs| && cs[i].isConst && cs[i].id == x
    ensures forall x :: x in MutableComponents(cs) <==> exists i :: 0 <= i < |cs| && !cs[i].isConst && cs[i].id == x
  {
    ComponentsCount(cs);
    forall x
      ensures x in ConstComponents(cs) <==> exists i :: 0 <= i < |cs| && cs[i].isConst && cs[i].id == x
      ensures x in MutableComponents(cs) <==> exists i :: 0 <= i < |cs| && !cs[i].isConst && cs[i].id == x
    {
      ComponentMember(cs, x, true);
      ComponentMember(cs, x, false);
    }
  }

  lemma {:induction false} ComponentsCount(cs: seq<Component>)
    ensures multiset(ConstComponents(cs)) + multiset(MutableComponents(cs)) == multiset(Ids(cs))
  {
    if cs != [] {
      ComponentsCount(cs[1..]);
      assert Ids(cs) == [cs[0].id] + Ids(cs[1..]);
    }
  }

  /** x is listed among the components of the given constness exactly when some such component names it. */
  lemma {:induction false} ComponentMember(cs: seq<Component>, x: ResourceId, isConst: bool)
    ensures x in (if isConst then ConstComponents(cs) else MutableComponents(cs))
            <==> exists i :: 0 <= i < |cs| && cs[i].isConst == isConst && cs[i].id == x
  {
    if cs != [] {
      ComponentMember(cs[1..], x, isConst);
      if exists i :: 0 <= i < |cs| && cs[i].isConst == isConst && cs[i].id == x {
        var i :| 0 <= i < |cs| && cs[i].isConst == isConst && cs[i].id == x;
        if i > 0 {
          assert cs[1..][i - 1] == cs[i];
        }
      }
      if exists i :: 0 <= i < |cs[1..]| && cs[1..][i].isConst == isConst && cs[1..][i].id == x {
        var i :| 0 <= i < |cs[1..]| && cs[1..][i].isConst == isConst && cs[1..][i].id == x;
        assert cs[i + 1] == cs[1..][i];
      }
    }
  }

  /** A plain parameter is read-only exactly when it is const, read-write otherwise. */
  lemma PlainClassification(id: ResourceId, isConst: bool)
    ensures id in Ro(Plain(id, isConst)) <==> isConst
    ensures id in Rw(Plain(id, isConst)) <==> !isConst
    ensures |Ro(Plain(id, isConst))| + |Rw(Plain(id, isConst))| == 1
  {
  }

  /** A view reads every excluded kind, reads each const component and writes each
      other component, and names nothing else. */
  lemma ViewClassification(excludes: seq<ResourceId>, cs: seq<Component>)
    ensures forall e :: e in excludes ==> e in Ro(View(excludes, cs))
    ensures forall i :: 0 <= i < |cs| && cs[i].isConst ==> cs[i].id in Ro(View(excludes, cs))
    ensures forall i :: 0 <= i < |cs| && !cs[i].isConst ==> cs[i].id in Rw(View(excludes, cs))
    ensures forall x :: x in Rw(View(excludes, cs)) <==> exists i :: 0 <= i < |cs| && !cs[i].isConst && cs[i].id == x
    ensures multiset(Ro(View(excludes, cs))) + multiset(Rw(View(excludes, cs))) == multiset(Names(View(excludes, cs)))
  {
    ComponentsSplit(cs);
  }

  /** Every parameter's names are split between its two lists, with multiplicity. */
  lemma ParamSplit(p: Param)
    ensures multiset(Ro(p)) + multiset(Rw(p)) == multiset(Names(p))
  {
    if p.View? {
      ViewClassification(p.excludes, p.components);
    }
  }

  /** The read-only list of a parameter list is that of its parts, concatenated in order. */
  lemma {:induction false} RoConcat(ps: seq<Param>, qs: seq<Param>)
    ensures RoAll(ps + qs) == RoAll(ps) + RoAll(qs)
  {
    if ps == [] {
      assert ps + qs == qs;
    } else {
      assert (ps + qs)[0] == ps[0] && (ps + qs)[1..] == ps[1..] + qs;
      RoConcat(ps[1..], qs);
    }
  }

  /** The read-write list of a parameter list is that of its parts, concatenated in order. */
  lemma {:induction false} RwConcat(ps: seq<Param>, qs: seq<Param>)
    ensures RwAll(ps + qs) == RwAll(ps) + RwAll(qs)
  {
    if ps == [] {
      assert ps + qs == qs;
    } else {
      assert (ps + qs)[0] == ps[0] && (ps + qs)[1..] == ps[1..] + qs;
      RwConcat(ps[1..], qs);
    }
  }

  /** The list of names of a parameter list is that of its parts, concatenated in order. */
  lemma {:induction false} NamesConcat(ps: seq<Param>, qs: seq<Param>)
    ensures NamesAll(ps + qs) == NamesAll(ps) + NamesAll(qs)
  {
    if ps == [] {
      assert ps + qs == qs;
    } else {
      assert (ps + qs)[0] == ps[0] && (ps + qs)[1..] == ps[1..] + qs;
      NamesConcat(ps[1..], qs);
    }
  }

  /** Classifying a parameter list loses and invents nothing: the read-only and
      read-write lists together hold every named resource, so their lengths add up
      to the number of names. */
  lemma {:induction false} ParamsSplit(ps: seq<Param>)
    ensures multiset(RoAll(ps)) + multiset(RwAll(ps)) == multiset(NamesAll(ps))
    ensures |RoAll(ps)| + |RwAll(ps)| == |NamesAll(ps)|
  {
    if ps != [] {
      ParamSplit(ps[0]);
      ParamsSplit(ps[1..]);
    }
    assert |multiset(RoAll(ps))| + |multiset(RwAll(ps))| == |multiset(NamesAll(ps))|;
  }
}
