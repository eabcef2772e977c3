# EnTT organizer: a verified model of the dependency-graph planner

EnTT's `basic_organizer` collects jobs ("systems"). Each job is a function whose parameters
name the resources it uses: context variables, or views over component pools. From the const
qualification of those parameters, the organizer works out which resources a job reads and
which it writes.

It keeps one ordered access list per resource. When asked to visit, it derives a dependency
graph from those lists, on a flat `n*n` boolean matrix:

1. a writer is ordered after earlier readers and writers, and readers after the writer before them;
2. it takes the transitive closure of that matrix;
3. it clears the diagonal and applies a transitive reduction;
4. it marks as top level every job with no incoming edge.

`visit` hands the top-level jobs to a callback. A task's `children` and `parent` walk its row
and its column of the matrix.

The model splits into these modules:

- `Resource` (`resource.dfy`): the compile-time classification of a parameter list into
  read-only and read-write resource lists, on a `Param` datatype. A plain parameter carries a
  type and its constness; a view carries its excluded kinds and its components.
- `Dependencies` (`dependencies.dfy`):
  - the per-resource access lists as a `map` from resource to a sequence of `(job, write)`
    records;
  - registration, modelled as a fold of `emplace_back` calls;
  - the single-writer / multiple-reader edge rule, stated declaratively on list positions.
- `Matrix` (`matrix.dfy`): the cell arithmetic `x * n + y` of the flat matrix.
- `Reachability` (`reachability.dfy`): the graph theory behind the planner:
  - paths and reachability;
  - the intermediate rounds of Warshall's algorithm;
  - the closure with its diagonal cleared, and the transitive reduction, with their
    properties proved.
- `Graph` (`graph.dfy`): each pass of `refresh_graph` as an imperative method over an
  `array<bool>`, proved against those definitions.
- `Conflicts` (`conflicts.dfy`): what the graph guarantees to the jobs. Two jobs that touch one
  resource, one of them writing it, are ordered in the graph. Every direct edge comes from such
  a conflict.
- `Organizer` (`organizer.dfy`): the class `BasicOrganizer` with the fields `nodes`,
  `dependencies` and `edges`, and the methods `emplace` (both overloads),
  `track_dependencies`, `refresh_graph`, `visit`, `task::children` and `task::parent`.
- `Example` (`example.dfy`): the five jobs of the repository's own organizer test. The model
  derives the graph that test prints (the test has no assertions):
  - the reduced edges t1→t3, t2→t3, t3→t4, t4→t5;
  - t1 and t2 top level;
  - the children and parents of each job.

Some model choices:

- Resource identities and job type identities are natural numbers, standing for the hashes
  the source computes.
- A task is the index of its node. `task::children` and `task::parent` are methods of the
  organizer that take that index.
- The visitor callback is replaced by the sequence of indices it would be called with, in the
  order it would be called.
- `refresh_graph` iterates an `unordered_map`. The model picks the next unvisited resource by
  an arbitrary choice (`:|`), so the result is proved not to depend on iteration order.
- `edges.resize(length * length, false)` on an empty vector is modelled as allocating a fresh
  all-false array.

What this version of `basic_organizer` does not have:

- It has no `clear`, no sync points for a whole-registry parameter, no resource override
  lists, no `prepare` step and no copying of resource ids into caller buffers.
- It exposes the graph only through `visit` and `task::children` / `task::parent`.

One further note:

- For a view parameter, the "argument type" list that `resource` computes is the view type
  itself, not the kinds it names. `Resource.Names` lists the kinds, and is used only to show
  that the classification loses nothing.

## Model

| member | source | states |
|---|---|---|
| Resource.PlainClassification | src/entt/entity/organizer.hpp:40-45 | a plain parameter is read-only exactly when const and read-write exactly when not, and lands in exactly one of the two lists |
| Resource.ViewClassification | src/entt/entity/organizer.hpp:47-52 | a view reads every excluded kind and every const component and writes every other component; its two lists together hold exactly its named kinds, with multiplicity |
| Resource.ComponentsSplit | src/entt/entity/organizer.hpp:50-51 | a component is among the read-only kinds exactly when const and among the read-write kinds exactly when not; the two lists partition the components as a multiset |
| Resource.ParamSplit | src/entt/entity/organizer.hpp:40-52 | for one parameter the read-only and read-write lists together are its names, as multisets |
| Resource.ParamsSplit | src/entt/entity/organizer.hpp:32-37 | for a whole parameter list the read-only and read-write lists partition the names and their lengths add up to the number of names |
| Resource.RoConcat | src/entt/entity/organizer.hpp:35 | the read-only list of a concatenation of parameters is the concatenation of their read-only lists, in order |
| Resource.RwConcat | src/entt/entity/organizer.hpp:36 | the read-write list of a concatenation of parameters is the concatenation of their read-write lists, in order |
| Resource.NamesConcat | src/entt/entity/organizer.hpp:34 | the names of a concatenation of parameters are the concatenation of their names, in order |
| Dependencies.FindWriter | src/entt/entity/organizer.hpp:120 | returns the first writer at or after the start position, or the list's end when every record from there on is a reader |
| Dependencies.RegisterLists | src/entt/entity/organizer.hpp:96-101 | registration keeps each list's old records as a prefix and appends one read record per read-only occurrence of the resource, then one write record per read-write occurrence |
| Dependencies.RegisterKeys | src/entt/entity/organizer.hpp:99-100 | registration creates a list for exactly the resources the job names that had none |
| Dependencies.RegisterWellFormed | src/entt/entity/organizer.hpp:96-101 | registering job `index` keeps every list ordered by job index, all jobs below `index + 1` |
| Dependencies.RegisterExtends | src/entt/entity/organizer.hpp:96-101 | registering a job keeps every direct edge between earlier jobs, and every new direct edge ends at the new job |
| Dependencies.WriterBeforeWriter | src/entt/entity/organizer.hpp:116-118 | a writer immediately followed by a writer has exactly one edge, to that writer |
| Dependencies.WriterBeforeReaders | src/entt/entity/organizer.hpp:119-129 | a writer followed by a reader has an edge to each reader up to the next writer, or to every later record when none follows, and no other edge |
| Dependencies.ReaderTargets | src/entt/entity/organizer.hpp:121-124 | a reader with no writer before the next writer has exactly one edge, to that writer, and none when no writer follows |
| Dependencies.LastRecord | src/entt/entity/organizer.hpp:116 | the last record of a list has no edge out |
| Dependencies.ListEdgeForward | src/entt/entity/organizer.hpp:113-142 | every edge of a list joins an earlier record to a later one, at least one of them a writer, so on an ordered list it never goes back in job order |
| Dependencies.DirectForward | src/entt/entity/organizer.hpp:109-143 | on well-formed lists every direct edge joins two registered jobs and goes from a job to itself or to a later job |
| Graph.SetEdge | src/entt/entity/organizer.hpp:118 | `edges[x * length + y] = true` sets exactly the cell x -> y and no other |
| Graph.MarkResource | src/entt/entity/organizer.hpp:110-142 | scanning one list adds exactly that list's rule edges to the matrix and changes nothing else; its loop invariant shows that the scan meets a reader only on its first iteration, and otherwise stops only at writers |
| Graph.MarkWriter | src/entt/entity/organizer.hpp:114-131 | the writer branch adds exactly the rule edges out of the writer and of the readers it skips, and resumes at the next writer after it, or at the end of the list when none follows |
| Graph.LinkReaders | src/entt/entity/organizer.hpp:120-124 | between a writer and the next writer, the writer gets an edge to each reader and each reader an edge to the next writer |
| Graph.LinkTrailing | src/entt/entity/organizer.hpp:125-129 | a writer followed only by readers gets an edge to each of them |
| Graph.MarkReaders | src/entt/entity/organizer.hpp:132-141 | the leading readers each get an edge to the first writer, or none when there is no writer, and the scan resumes at that writer, or at the end of the list when none follows |
| Graph.NoWriterLeft | src/entt/entity/organizer.hpp:138-140 | readers with no writer after them have no edge out |
| Graph.MarkDependencies | src/entt/entity/organizer.hpp:108-143 | on an all-false matrix, scanning every list in any order leaves exactly the direct edges of all lists set |
| Graph.Close | src/entt/entity/organizer.hpp:145-152 | after the in-place triple loop, a cell holds exactly when its target is reachable from its source by one or more direct edges |
| Graph.ClearDiagonal | src/entt/entity/organizer.hpp:155-157 | clears every diagonal cell and leaves every other cell as it was |
| Graph.KeptRound | src/entt/entity/organizer.hpp:159-169 | round vj of the reduction removes x -> y exactly when x -> vj and vj -> y are both still present, and never touches row vj or the pivot cell |
| Graph.ClosureMatrix | src/entt/entity/organizer.hpp:155-169 | the closure of forward edges without its diagonal is a strict order, and on it the reduction rounds keep exactly the edges with no two-edge detour |
| Graph.Reduce | src/entt/entity/organizer.hpp:159-169 | on a strict order, the in-place reduction leaves exactly the edges that survive all n rounds |
| Graph.BuildGraph | src/entt/entity/organizer.hpp:104-169 | the rebuilt matrix holds exactly the transitive reduction of the direct edges: the irreflexive closure minus every edge that a two-edge detour implies |
| Reachability.ViaIsReach | src/entt/entity/organizer.hpp:146-152 | after all n rounds of Warshall's algorithm a cell holds exactly when there is a path |
| Reachability.ReachTrans | src/entt/entity/organizer.hpp:149 | reachability is transitive |
| Reachability.ReachForward | src/entt/entity/organizer.hpp:146-152 | along forward edges reachability never goes back in job order |
| Reachability.ClosedStrictOrder | src/entt/entity/organizer.hpp:155-157 | over forward edges the closure without its diagonal only goes up and is transitive, so the graph is acyclic |
| Reachability.ReducedSameReach | src/entt/entity/organizer.hpp:159-169 | the transitive reduction reaches exactly what the irreflexive closure joins |
| Reachability.ReducedMinimal | src/entt/entity/organizer.hpp:159-169 | a reduced edge is the only path of reduced edges between its ends |
| Reachability.NoReducedPredecessor | src/entt/entity/organizer.hpp:171-178 | a job has no incoming reduced edge exactly when no other job has a direct edge into it |
| Conflicts.RegisteredWellFormed | src/entt/entity/organizer.hpp:189-200 | the lists left by registering jobs 0..n-1 in order are ordered and name only those jobs |
| Conflicts.RecordOf | src/entt/entity/organizer.hpp:99-100 | every read or write of a resource by a registered job leaves a record of that kind in the resource's list |
| Conflicts.RecordSource | src/entt/entity/organizer.hpp:99-100 | every record names a registered job that accesses the resource that way |
| Conflicts.ListConflictReach | src/entt/entity/organizer.hpp:113-142 | two records of one list, one of them a write, belong to one job or are joined by a chain of direct edges from the earlier to the later |
| Conflicts.ConflictsOrdered | src/entt/entity/organizer.hpp:103-169 | two different jobs that touch one resource, one writing it, are ordered by registration order both in the closure and in the reduced graph |
| Conflicts.DirectEdgeConflict | src/entt/entity/organizer.hpp:109-143 | every direct edge goes forward between registered jobs that touch a common resource, one of them writing it |
| Organizer.IncreasingUnique | src/entt/entity/organizer.hpp:288-292 | two strictly increasing index sequences with the same members are equal, so each visiting loop's output is its set of indices |
| Organizer.BasicOrganizer.TopLevelIffNoPredecessor | src/entt/entity/organizer.hpp:171-178 | a job is top level in the reduced graph exactly when no other job must run before it |
| Organizer.BasicOrganizer.ConflictingJobsOrdered | src/entt/entity/organizer.hpp:103-180 | in the organizer's graph, two conflicting jobs are joined by a path from the earlier to the later |
| Organizer.BasicOrganizer.DependencyFromConflict | src/entt/entity/organizer.hpp:109-143 | every direct dependency of the organizer joins two jobs that conflict on some resource |
| Organizer.BasicOrganizer.TrackDependencies | src/entt/entity/organizer.hpp:96-101 | drops the matrix, leaves the nodes alone, and leaves the lists as registration of the job's read-only then read-write kinds gives |
| Organizer.BasicOrganizer.Emplace | src/entt/entity/organizer.hpp:186-201 | appends exactly one node at index `nodes.size()` (not top level, no payload), keeps earlier nodes, registers the job's kinds and empties the matrix, keeping the organizer's invariant |
| Organizer.BasicOrganizer.EmplaceBound | src/entt/entity/organizer.hpp:203-220 | as Emplace, with the bound instance recorded as the node's payload |
| Organizer.BasicOrganizer.MarkTopLevel | src/entt/entity/organizer.hpp:171-178 | sets each job's flag exactly when its column of the matrix is all false, changing nothing else |
| Organizer.BasicOrganizer.RefreshGraph | src/entt/entity/organizer.hpp:103-180 | afterwards the matrix is the reduced graph of the registered jobs and the flags mark exactly its top-level jobs; only the flags of nodes change; a matrix already built is left as it is, so a second call changes nothing |
| Organizer.BasicOrganizer.Visit | src/entt/entity/organizer.hpp:284-293 | refreshes the graph and reports, in increasing index order, exactly the top-level jobs, which are the jobs no other job must precede |
| Organizer.BasicOrganizer.Children | src/entt/entity/organizer.hpp:269-276 | reports, in increasing order, exactly the jobs with a reduced edge from the given job |
| Organizer.BasicOrganizer.Parent | src/entt/entity/organizer.hpp:260-267 | reports, in increasing order, exactly the jobs with a reduced edge into the given job |
| Example.JobKinds | test/entt/entity/organizer.cpp:6-10 | the read-only and read-write kinds of t1..t5 |
| Example.ExampleLists | test/entt/entity/organizer.cpp:18-22 | the int, double and char lists the five registrations leave |
| Example.IntEdges | test/entt/entity/organizer.cpp:6-10 | the rule edges of the int list: t1->t3, t2->t3, t3->t4, t4->t5 |
| Example.DoubleEdges | test/entt/entity/organizer.cpp:6-10 | the rule edges of the double list: t1->t5, t2->t5 |
| Example.CharEdges | test/entt/entity/organizer.cpp:7-9 | the rule edge of the char list: t2->t4 |
| Example.ExampleDirect | test/entt/entity/organizer.cpp:18-22 | the seven direct edges of the test |
| Example.ExampleClosed | test/entt/entity/organizer.cpp:18-22 | in the closure, every earlier job precedes every later one except t1 and t2 |
| Example.ExampleReduced | test/entt/entity/organizer.cpp:18-36 | the reduced graph of the test is exactly t1->t3, t2->t3, t3->t4, t4->t5 |
| Example.TestRoots | test/entt/entity/organizer.cpp:36 | the visit of the test reports t1 and t2, in this order |
| Example.LinksOf | test/entt/entity/organizer.cpp:27-34 | the children and the parents of each job of the test |
| Example.OrganizerTest | test/entt/entity/organizer.cpp:14-38 | registering t1..t5 and visiting reports t1 and t2; the children are t3, t3, t4, t5 and none, the parents none, none, t1 and t2, t3, t4 |

## Left out

- Job callbacks are not modelled: the `job` lambdas, `extract`, `to_args`, `std::apply`,
  `registry.ctx` and `as_view`. They call into the registry, which is not part of this model.
  In their place a node keeps an opaque job identity (`info`) and, for the bound overload, a
  payload token.
- A node also keeps the job's parameter list (`params`). The source's node does not store it:
  there it is fixed in the type of the job lambda. `Valid()` ties the access lists to it.
- The `to_resource` overloads are not modelled; `emplace` takes the job's parameter list
  directly. For a member function the instance is not among the classified arguments. For a
  free function every argument is classified, the first one included. So the bound overload
  with a free function would pass the payload and an extracted value for the same parameter,
  and would not compile. The model does not tell the two cases apart.
- A view taken by const reference is not a `View` parameter. `std::remove_reference_t` leaves
  `const basic_view<...>`, which the view specialization does not match. So the single-type
  case applies, and the job reads one resource named after the view type, not the view's
  components. This reading of the templates is not checked by the model. A parameter list for
  such a job holds `Plain(viewId, true)` for that parameter, not `View(...)`.
- `type_hash`, `type_id` and `type_info` are not modelled: identities are natural numbers.
- The payload's `const_cast` and its pointer aliasing are not modelled: a payload is an opaque
  token.
- `task::type_info()` and `task::data()` are not modelled: they read node fields that do not
  exist (`type_info`, `data`), so they cannot be instantiated.
- `task::name()`, `task::top_level()` and `task::job()` are not modelled: they are plain field
  reads of the node at the task's index.
- `task_iterator` is not modelled: it is an empty placeholder.
- The bit packing of `std::vector<bool>` is not modelled: the matrix is an `array<bool>`.
- `edges.resize` and `edges.clear()`: the model allocates a fresh array when the matrix is
  rebuilt, and replaces it with an empty one when a job is registered. So it does not capture
  reuse of the vector's storage.
- The iteration order of `std::unordered_map` is not fixed by the model: it is an arbitrary
  choice over the remaining resources.
- The `iostream` output and the `y_combinator` recursion of the test are not modelled.
  `Example.OrganizerTest` returns the top-level jobs and every job's children and parents
  instead of printing the walk.
- `size_t` overflow of `length * length` and of `index * length` is not modelled: integers are
  unbounded.
