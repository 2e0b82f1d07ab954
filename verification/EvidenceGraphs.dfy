/** evidence/graph.py: the evidence DAG, its cycle detector, invalidation and current support. */
module EvidenceGraphs {
  import opened Wrappers
  import opened CycleLists
  import opened Digraphs
  import opened Ordering

  datatype NodeType = QualificationAssessment | OtherNodeType(name: string) | UnknownNodeType(name: string)
  datatype Status = Active | Stale | Invalidated | OtherStatus(name: string)
  datatype Outcome = Supports | Refutes | OtherOutcome(name: string)
  datatype EdgeRelation = KnownRelation(name: string) | UnknownRelation(name: string)

  /** The entries of a node's data dictionary that the graph reads or writes. */
  datatype NodeData = NodeData(claimId: Option<string>, result: Option<Outcome>,
                               invalidationReason: Option<string>, degraded: bool, invalidationSource: Option<string>)

  datatype Node = Node(nodeType: NodeType, data: NodeData, status: Status, satisfiesCompletion: bool)

  datatype Edge = Edge(source: string, target: string, relation: EdgeRelation)

  datatype GraphError =
    | DuplicateNodeId | InvalidNodeType | MissingSourceNode | MissingTargetNode
    | InvalidEdgeRelation | EvidenceGraphCycle | InvalidationNodeNotFound

  /** The value of an EvidenceGraph. */
  datatype Graph = Graph(nodes: map<string, Node>, outgoing: map<string, seq<Edge>>, incoming: map<string, seq<Edge>>)

  const EMPTY_GRAPH := Graph(map[], map[], map[])

  /** source depends on target. */
  ghost function Dependencies(outgoing: map<string, seq<Edge>>): Relation {
    set x, e | x in outgoing && e in outgoing[x] :: (x, e.target)
  }

  /** Both adjacency maps describe the same edges, between existing nodes. */
  ghost predicate Consistent(g: Graph) {
    && g.outgoing.Keys == g.incoming.Keys == g.nodes.Keys
    && (forall x, e :: x in g.outgoing && e in g.outgoing[x] ==>
          e.source == x && e.target in g.nodes && e in g.incoming[e.target])
    && (forall x, e :: x in g.incoming && e in g.incoming[x] ==>
          e.target == x && e.source in g.nodes && e in g.outgoing[e.source])
  }

  // ----- building -----

  function WithNode(g: Graph, id: string, node: Node): Graph {
    Graph(g.nodes[id := node], g.outgoing[id := []], g.incoming[id := []])
  }

  function WithEdge(g: Graph, e: Edge): Graph
    requires e.source in g.outgoing && e.target in g.incoming
  {
    g.(outgoing := g.outgoing[e.source := g.outgoing[e.source] + [e]],
       incoming := g.incoming[e.target := g.incoming[e.target] + [e]])
  }

  /** What add_node answers and leaves behind. */
  ghost predicate NodeAdded(g: Graph, id: string, node: Node, g': Graph, r: Option<GraphError>) {
    if id in g.nodes then g' == g && r == Some(DuplicateNodeId)
    else if node.nodeType.UnknownNodeType? then g' == g && r == Some(InvalidNodeType)
    else g' == WithNode(g, id, node) && r == None
  }

  /** What add_edge answers and leaves behind: a cycle is reported with the edge already in place. */
  ghost predicate EdgeAdded(g: Graph, e: Edge, g': Graph, r: Option<GraphError>)
    requires Consistent(g)
  {
    if e.source !in g.nodes then g' == g && r == Some(MissingSourceNode)
    else if e.target !in g.nodes then g' == g && r == Some(MissingTargetNode)
    else if e.relation.UnknownRelation? then g' == g && r == Some(InvalidEdgeRelation)
    else
      && g' == WithEdge(g, e)
      && r == if Cyclic(Dependencies(g'.outgoing)) then Some(EvidenceGraphCycle) else None
  }

  lemma WithEdgeConsistent(g: Graph, e: Edge)
    requires Consistent(g) && e.source in g.nodes && e.target in g.nodes
    ensures Consistent(WithEdge(g, e))
  {
  }

  lemma WithEdgeDependencies(g: Graph, e: Edge)
    requires Consistent(g) && e.source in g.nodes && e.target in g.nodes
    ensures Dependencies(WithEdge(g, e).outgoing) == Dependencies(g.outgoing) + {(e.source, e.target)}
  {
    var out, out' := g.outgoing, WithEdge(g, e).outgoing;
    assert e in out'[e.source];
    assert forall x, f :: x in out && f in out[x] ==> f in out'[x];
    assert forall x, f :: x in out' && f in out'[x] ==> f in out[x] || (x == e.source && f == e);
  }

  lemma WithNodeDependencies(g: Graph, id: string, node: Node)
    requires Consistent(g) && id !in g.nodes
    ensures Consistent(WithNode(g, id, node))
    ensures Dependencies(WithNode(g, id, node).outgoing) == Dependencies(g.outgoing)
  {
    var out, out' := g.outgoing, WithNode(g, id, node).outgoing;
    assert forall x, f :: x in out && f in out[x] <==> x in out' && f in out'[x];
  }

  // ----- cycle detection -----

  /** Ranks are only ever added. */
  ghost predicate RankGrows(rank: map<string, nat>, rank': map<string, nat>) {
    forall n :: n in rank ==> n in rank'
  }

  /** The variables that the nested dfs of detect_cycles shares with its caller. */
  class CycleSearch {
    const outgoing: map<string, seq<Edge>>
    var visited: set<string>
    var recStack: seq<string>
    var cycles: seq<seq<string>>
    /** The first root, the nodes left in order, and what each node was visited from. */
    ghost const first: string
    ghost var rank: map<string, nat>
    ghost var par: map<string, string>

    constructor (outgoing: map<string, seq<Edge>>, ghost first: string)
      ensures this.outgoing == outgoing && visited == {} && recStack == [] && cycles == []
      ensures this.first == first && rank == map[] && par == map[]
    {
      this.outgoing, this.first := outgoing, first;
      visited, recStack, cycles, rank, par := {}, [], [], map[], map[];
    }

    ghost predicate Valid()
      reads this
    {
      && Searching(Dependencies(outgoing), visited, recStack, cycles, rank)
      && Treed(first, visited, recStack, cycles, par)
    }

    method Dfs(curr: string)
      requires Valid() && curr in outgoing.Keys - visited && (visited == {} ==> curr == first)
      requires forall x, e :: x in outgoing && e in outgoing[x] ==> e.target in outgoing
      requires recStack != [] ==> (recStack[|recStack| - 1], curr) in Dependencies(outgoing)
      modifies this
      ensures Valid()
      ensures recStack == old(recStack) && old(visited) + {curr} <= visited && old(cycles) <= cycles
      ensures curr in rank && RankGrows(old(rank), rank)
      decreases outgoing.Keys - visited, 0
    {
      hide Searching, Treed, Dependencies, Closing, Grown;
      ghost var d, stack := Dependencies(outgoing), recStack + [curr];
      Push(d, visited, recStack, cycles, rank, curr);
      PushTree(first, visited, recStack, cycles, par, curr);
      par := Grown(par, recStack, curr);
      visited := visited + {curr};
      recStack := recStack + [curr];
      for i := 0 to |outgoing[curr]|
        invariant Valid() && recStack == stack && old(visited) + {curr} <= visited && old(cycles) <= cycles
        invariant RankGrows(old(rank), rank)
        invariant forall j :: 0 <= j < i ==>
                    outgoing[curr][j].target in rank || (curr, outgoing[curr][j].target) in Closing(cycles)
      {
        EdgeOut(curr, i);
        ghost var before := cycles;
        Look(curr, outgoing[curr][i].target);
        ClosingGrows(before, cycles);
      }
      EdgesOut(curr);
      Pop(d, visited, old(recStack), cycles, rank, curr);
      PopTree(first, visited, old(recStack), cycles, par, curr);
      recStack := recStack[..|recStack| - 1];
      rank := rank[curr := |rank|];
    }

    /** One turn of the loop over the edges out of the node on top of the stack. */
    method Look(ghost curr: string, nxt: string)
      requires Valid() && nxt in outgoing && recStack != [] && recStack[|recStack| - 1] == curr && visited != {}
      requires (curr, nxt) in Dependencies(outgoing)
      requires forall x, e :: x in outgoing && e in outgoing[x] ==> e.target in outgoing
      modifies this
      ensures Valid() && recStack == old(recStack) && old(visited) <= visited && old(cycles) <= cycles
      ensures RankGrows(old(rank), rank) && (nxt in rank || (curr, nxt) in Closing(cycles))
      decreases outgoing.Keys - visited, 1
    {
      hide Searching, Treed, Dependencies, Closing;
      ghost var d := Dependencies(outgoing);
      if nxt in recStack {
        var idx := IndexOf(recStack, nxt);
        Record(d, visited, recStack, cycles, rank, idx);
        RecordTree(first, visited, recStack, cycles, par, idx);
        cycles := cycles + [recStack[idx..] + [nxt]];
      } else if nxt !in visited {
        Dfs(nxt);
      } else {
        SeenBefore(d, visited, recStack, cycles, rank, nxt);
      }
    }

    lemma EdgeOut(x: string, i: nat)
      requires x in outgoing && i < |outgoing[x]|
      ensures outgoing[x][i] in outgoing[x] && (x, outgoing[x][i].target) in Dependencies(outgoing)
    {
    }

    lemma EdgesOut(x: string)
      ensures forall y :: (x, y) in Dependencies(outgoing)
                <==> x in outgoing && exists e :: e in outgoing[x] && e.target == y
    {
    }
  }

  lemma TreeFound(d: Relation, ids: set<string>, listed: seq<string>, visited: set<string>, cycles: seq<seq<string>>,
                  par: map<string, string>)
    requires listed == SortedSet(ids) && Treed(if listed == [] then "" else listed[0], visited, [], cycles, par)
    requires AllClosed(d, cycles) && !Cyclic(d - Closing(cycles))
    ensures Found(d, ids, cycles)
  {
    hide Cyclic, AllClosed, Closing, Leq, TreeCycle;
    forall x | IsLeast(x, ids)
      ensures x !in par
    {
      LeastIsFirst(x, ids);
    }
    assert Tree(par, ids, cycles);
  }

  method IndexOf(s: seq<string>, x: string) returns (i: nat)
    requires x in s
    ensures i < |s| && s[i] == x && x !in s[..i]
  {
    i := 0;
    while s[i] != x
      invariant i < |s| && x !in s[..i]
      invariant exists j :: i <= j < |s| && s[j] == x
      decreases |s| - i
    {
      assert s[..i + 1] == s[..i] + [s[i]];
      i := i + 1;
    }
  }

  // ----- invalidation -----

  /** The roots together with everything that depends on them, directly or not. */
  ghost function Closure(g: Graph, roots: set<string>): set<string> {
    set id | id in g.nodes && Reaches(Dependencies(g.outgoing), id, roots)
  }

  function AsRoot(n: Node, reason: string): Node {
    n.(status := Invalidated, satisfiesCompletion := false, data := n.data.(invalidationReason := Some(reason)))
  }

  function AsDependent(n: Node, source: string): Node {
    if n.nodeType.QualificationAssessment?
    then n.(status := Stale, satisfiesCompletion := false,
            data := n.data.(degraded := true, invalidationSource := Some(source)))
    else n.(status := Invalidated, satisfiesCompletion := false, data := n.data.(degraded := true))
  }

  /** nodes is g's after invalidating the roots and degrading the rest of affected, each through an affected
      dependency. */
  ghost predicate Marked(g: Graph, roots: set<string>, reason: string, affected: set<string>, nodes: map<string, Node>)
  {
    && nodes.Keys == g.nodes.Keys
    && forall id :: id in g.nodes ==>
         if id in roots then nodes[id] == AsRoot(g.nodes[id], reason)
         else if id in affected then
           exists y :: y in affected && (id, y) in Dependencies(g.outgoing) && nodes[id] == AsDependent(g.nodes[id], y)
         else nodes[id] == g.nodes[id]
  }

  /** What propagate_invalidation leaves behind. */
  ghost predicate Propagated(g: Graph, roots: set<string>, reason: string, g': Graph) {
    && g'.outgoing == g.outgoing && g'.incoming == g.incoming
    && Marked(g, roots, reason, Closure(g, roots), g'.nodes)
  }

  ghost function Elements(xs: seq<string>): set<string> {
    set x | x in xs
  }

  ghost function Qualifications(g: Graph, ids: set<string>): set<string> {
    set id | id in ids && id in g.nodes && g.nodes[id].nodeType.QualificationAssessment?
  }

  datatype Report = Report(rootInvalidations: seq<string>, transitiveInvalidations: seq<string>,
                           degradedQualifications: seq<string>, totalAffected: nat)

  ghost predicate Reported(g: Graph, roots: seq<string>, report: Report) {
    var transitive := Closure(g, Elements(roots)) - Elements(roots);
    && NonDescending(report.rootInvalidations) && multiset(report.rootInvalidations) == multiset(roots)
    && report.transitiveInvalidations == SortedSet(transitive)
    && report.degradedQualifications
         == SortedSet(Qualifications(g, transitive))
    && report.totalAffected == |roots| + |transitive|
  }

  lemma MarkDependent(g: Graph, roots: set<string>, reason: string, visited: set<string>, nodes: map<string, Node>,
                      x: string, y: string)
    requires Marked(g, roots, reason, visited, nodes) && roots <= visited
    requires x in g.nodes && x !in visited && y in visited && (x, y) in Dependencies(g.outgoing)
    ensures Marked(g, roots, reason, visited + {x}, nodes[x := AsDependent(nodes[x], y)])
    ensures nodes[x] == g.nodes[x] && nodes.Keys == g.nodes.Keys
  {
    hide Dependencies;
    assert nodes[x] == g.nodes[x];
    var visited', nodes' := visited + {x}, nodes[x := AsDependent(nodes[x], y)];
    forall id | id in visited - roots && id in g.nodes
      ensures exists z ::
                z in visited' && (id, z) in Dependencies(g.outgoing) && nodes'[id] == AsDependent(g.nodes[id], z)
    {
      var z :| z in visited && (id, z) in Dependencies(g.outgoing) && nodes[id] == AsDependent(g.nodes[id], z);
      assert nodes'[id] == nodes[id];
    }
  }

  /** Everything visited is affected, and the queue still holds whatever may have unvisited dependents. */
  ghost predicate Spreading(g: Graph, roots: set<string>, visited: set<string>, queue: seq<string>) {
    && roots <= visited <= Closure(g, roots)
    && (forall q :: q in queue ==> q in visited)
    && (forall x, y :: (x, y) in Dependencies(g.outgoing) && y in visited && y !in queue ==> x in visited)
  }

  lemma SpreadStarts(g: Graph, roots: seq<string>)
    requires forall r :: r in roots ==> r in g.nodes
    ensures Spreading(g, Elements(roots), Elements(roots), roots)
  {
    var rootSet := Elements(roots);
    forall r | r in rootSet
      ensures r in Closure(g, rootSet)
    {
      ReachesSelf(Dependencies(g.outgoing), r, rootSet);
    }
  }

  lemma SpreadEnds(g: Graph, roots: set<string>, visited: set<string>)
    requires Spreading(g, roots, visited, [])
    ensures visited == Closure(g, roots)
  {
    ReachesClosed(Dependencies(g.outgoing), roots, visited);
  }

  /** One more dependent of a queued node is visited and queued. */
  lemma Spread(g: Graph, roots: set<string>, visited: set<string>, queue: seq<string>, x: string, y: string)
    requires Spreading(g, roots, visited, queue)
    requires x in g.nodes && y in visited && (x, y) in Dependencies(g.outgoing)
    ensures Spreading(g, roots, visited + {x}, queue + [x])
  {
    hide Dependencies;
    ReachesStep(Dependencies(g.outgoing), x, y, roots);
    assert forall q :: q in queue ==> q in queue + [x];
    assert x in queue + [x];
  }

  /** The head leaves the queue once its dependents are visited. */
  lemma Exhaust(g: Graph, roots: set<string>, visited: set<string>, queue: seq<string>)
    requires Consistent(g) && Spreading(g, roots, visited, queue) && queue != [] && queue[0] in g.incoming
    requires forall j :: 0 <= j < |g.incoming[queue[0]]| ==> g.incoming[queue[0]][j].source in visited
    ensures Spreading(g, roots, visited, queue[1..])
  {
    forall x, y | (x, y) in Dependencies(g.outgoing) && y in visited && y !in queue[1..]
      ensures x in visited
    {
      if y == queue[0] {
        var e :| e in g.outgoing[x] && e.target == y;
        assert e in g.incoming[y];
      } else {
        assert y !in queue;
      }
    }
  }

  lemma InGraph(g: Graph, roots: set<string>, visited: set<string>, queue: seq<string>, x: string)
    requires Consistent(g) && Spreading(g, roots, visited, queue) && x in queue
    ensures x in visited && x in g.nodes && x in g.incoming && roots <= visited <= g.nodes.Keys
  {
  }

  lemma DependsOn(g: Graph, x: string, e: Edge)
    requires Consistent(g) && x in g.incoming && e in g.incoming[x]
    ensures e.source in g.nodes && (e.source, x) in Dependencies(g.outgoing)
  {
  }

  function ElementsOf(xs: seq<string>): (s: set<string>)
    ensures s == Elements(xs)
  {
    set x | x in xs
  }

  lemma ElementsGrow(xs: seq<string>, i: nat)
    requires i < |xs|
    ensures Elements(xs[..i + 1]) == Elements(xs[..i]) + {xs[i]}
  {
    assert xs[..i + 1] == xs[..i] + [xs[i]];
  }

  lemma NoQualifications(g: Graph)
    ensures Qualifications(g, {}) == {}
  {
  }

  lemma MoreQualifications(g: Graph, ids: set<string>, id: string)
    requires id in g.nodes
    ensures Qualifications(g, ids + {id})
         == Qualifications(g, ids) + if g.nodes[id].nodeType.QualificationAssessment? then {id} else {}
  {
  }

  lemma DependenciesInGraph(g: Graph)
    requires Consistent(g)
    ensures g.outgoing.Keys == g.nodes.Keys
    ensures forall x, y :: (x, y) in Dependencies(g.outgoing) ==> x in g.nodes
    ensures forall x, e :: x in g.outgoing && e in g.outgoing[x] ==> e.target in g.outgoing
  {
  }

  lemma NothingMarked(g: Graph, reason: string)
    ensures Marked(g, Elements([]), reason, Elements([]), g.nodes)
  {
  }

  lemma MarkRoot(g: Graph, roots: set<string>, reason: string, nodes: map<string, Node>, r: string)
    requires Marked(g, roots, reason, roots, nodes) && r in nodes
    ensures r in nodes && Marked(g, roots + {r}, reason, roots + {r}, nodes[r := AsRoot(nodes[r], reason)])
  {
  }

  // ----- current support -----

  datatype Bucket = Supporting | Refuting | StaleOrInvalid | Unrelated

  /** How one node bears on a claim. */
  function Bearing(g: Graph, claim: string, id: string): Bucket
    requires id in g.nodes && id in g.outgoing
  {
    var n := g.nodes[id];
    if !n.nodeType.QualificationAssessment? then Unrelated
    else if !(|| n.data.claimId == Some(claim)
              || exists i | 0 <= i < |g.outgoing[id]| :: g.outgoing[id][i].target == claim) then Unrelated
    else if n.status.Stale? || n.status.Invalidated? || !n.satisfiesCompletion then StaleOrInvalid
    else match n.data.result
      case None => Supporting
      case Some(Supports) => Supporting
      case Some(Refutes) => Refuting
      case Some(OtherOutcome(_)) => StaleOrInvalid
  }

  /** The ids that bear on the claim in the given way, in order. */
  ghost function Bearers(g: Graph, claim: string, ids: seq<string>, bucket: Bucket): seq<string>
    requires forall id :: id in ids ==> id in g.nodes && id in g.outgoing
  {
    if ids == [] then []
    else
      var n := |ids| - 1;
      Bearers(g, claim, ids[..n], bucket) + if Bearing(g, claim, ids[n]) == bucket then [ids[n]] else []
  }

  lemma NoBearers(g: Graph, claim: string)
    ensures forall bucket :: Bearers(g, claim, [], bucket) == []
  {
  }

  lemma OneMoreBearer(g: Graph, claim: string, ids: seq<string>, i: nat)
    requires forall id :: id in ids ==> id in g.nodes && id in g.outgoing
    requires i < |ids|
    ensures forall bucket :: Bearers(g, claim, ids[..i + 1], bucket)
                == Bearers(g, claim, ids[..i], bucket) + if Bearing(g, claim, ids[i]) == bucket then [ids[i]] else []
  {
    assert ids[..i + 1][..i] == ids[..i];
  }

  datatype EffectiveStatus = Contradicted | Supported | Refuted | EvidenceInvalidated | NoEvidence

  datatype Support = Support(effectiveStatus: EffectiveStatus, supporting: seq<string>, refuting: seq<string>,
                             staleOrInvalid: seq<string>)

  /** What calculate_current_support answers. */
  ghost function CurrentSupport(g: Graph, claim: string): Support
    requires Consistent(g)
  {
    var ids := SortedSet(g.nodes.Keys);
    var supporting := Bearers(g, claim, ids, Supporting);
    var refuting := Bearers(g, claim, ids, Refuting);
    var stale := Bearers(g, claim, ids, StaleOrInvalid);
    Support(
      if supporting != [] && refuting != [] then Contradicted
      else if supporting != [] then Supported
      else if refuting != [] then Refuted
      else if stale != [] then EvidenceInvalidated
      else NoEvidence,
      supporting, refuting, stale)
  }

  // ----- the class -----

  class EvidenceGraph {
    var nodes: map<string, Node>
    var outgoing: map<string, seq<Edge>>
    var incoming: map<string, seq<Edge>>

    ghost function Value(): Graph
      reads this
    {
      Graph(nodes, outgoing, incoming)
    }

    constructor ()
      ensures Value() == EMPTY_GRAPH
    {
      nodes, outgoing, incoming := map[], map[], map[];
    }

    method AddNode(id: string, node: Node) returns (r: Option<GraphError>)
      modifies this
      ensures NodeAdded(old(Value()), id, node, Value(), r)
    {
      if id in nodes {
        return Some(DuplicateNodeId);
      }
      if node.nodeType.UnknownNodeType? {
        return Some(InvalidNodeType);
      }
      nodes, outgoing, incoming := nodes[id := node], outgoing[id := []], incoming[id := []];
      return None;
    }

    method AddEdge(source: string, target: string, relation: EdgeRelation) returns (r: Option<GraphError>)
      requires Consistent(Value())
      modifies this
      ensures EdgeAdded(old(Value()), Edge(source, target, relation), Value(), r)
    {
      if source !in nodes {
        return Some(MissingSourceNode);
      }
      if target !in nodes {
        return Some(MissingTargetNode);
      }
      if relation.UnknownRelation? {
        return Some(InvalidEdgeRelation);
      }
      var edge := Edge(source, target, relation);
      WithEdgeConsistent(Value(), edge);
      outgoing := outgoing[source := outgoing[source] + [edge]];
      incoming := incoming[target := incoming[target] + [edge]];
      var cycles := DetectCycles();
      return if cycles != [] then Some(EvidenceGraphCycle) else None;
    }

    /** detect_cycles: non-empty exactly on cyclic graphs; every entry is a cycle, and every cycle of the graph holds
        the closing edge of an entry. */
    method DetectCycles() returns (cycles: seq<seq<string>>)
      requires Consistent(Value())
      ensures cycles != [] <==> Cyclic(Dependencies(outgoing))
      ensures Found(Dependencies(outgoing), nodes.Keys, cycles)
    {
      hide Searching, Treed, Cyclic, AllClosed, Dependencies, Consistent, SortedSet, Closing, Found;
      DependenciesInGraph(Value());
      var ids := SortSet(nodes.Keys);
      ghost var first := if ids == [] then "" else ids[0];
      var search := new CycleSearch(outgoing, first);
      ghost var d := Dependencies(outgoing);
      SearchStarts(d);
      TreeStarts(first);
      for i := 0 to |ids|
        invariant search.outgoing == outgoing && search.recStack == [] && search.first == first
        invariant search.Valid() && (search.visited == {} ==> i == 0)
        invariant forall j :: 0 <= j < i ==> ids[j] in search.visited
      {
        if ids[i] !in search.visited {
          assert ids[i] in ids;
          search.Dfs(ids[i]);
        }
      }
      forall x | x in nodes
        ensures x in search.visited
      {
        assert x in ids;
      }
      SearchEnds(d, search.visited, search.cycles, search.rank);
      assert Found(d, nodes.Keys, search.cycles) by {
        TreeFound(d, nodes.Keys, ids, search.visited, search.cycles, search.par);
      }
      return search.cycles;
    }

    method PropagateInvalidation(roots: seq<string>, reason: string) returns (r: Result<Report, GraphError>)
      requires Consistent(Value())
      modifies this
      ensures r.Failure? <==> exists i :: 0 <= i < |roots| && roots[i] !in old(nodes)
      ensures r.Failure? ==> r.error.InvalidationNodeNotFound? && Value() == old(Value())
      ensures r.Success? ==>
                && Propagated(old(Value()), Elements(roots), reason, Value())
                && Reported(old(Value()), roots, r.value)
    {
      hide Dependencies, Closure, Marked, Spreading, Consistent, Qualifications, Elements;
      for i := 0 to |roots|
        invariant forall j :: 0 <= j < i ==> roots[j] in nodes
      {
        if roots[i] !in nodes {
          return Failure(InvalidationNodeNotFound);
        }
      }
      ghost var g := Value();
      var queue := roots;
      var visited := ElementsOf(roots);
      ghost var rootSet := visited;
      var transitive: set<string>, degraded: set<string> := {}, {};
      MarkRoots(roots, reason);
      SpreadStarts(g, roots);
      NoQualifications(g);
      while queue != []
        invariant Adjacent(g)
        invariant Marked(g, rootSet, reason, visited, nodes)
        invariant Spreading(g, rootSet, visited, queue)
        invariant transitive == visited - rootSet && degraded == Qualifications(g, transitive)
        decreases g.nodes.Keys - visited, |queue|
      {
        var curr := queue[0];
        assert queue == [curr] + queue[1..];
        queue := queue[1..];
        queue, visited, transitive, degraded := Degrade(g, rootSet, reason, curr, queue, visited, transitive, degraded);
      }
      SpreadEnds(g, rootSet, visited);
      var rootListing := SortSequence(roots);
      var transitiveListing := SortSet(transitive);
      var degradedListing := SortSet(degraded);
      return Success(Report(rootListing, transitiveListing, degradedListing, |roots| + |transitive|));
    }

    /** The adjacency and the ids are still g's. */
    ghost predicate Adjacent(g: Graph)
      reads this
    {
      outgoing == g.outgoing && incoming == g.incoming && nodes.Keys == g.nodes.Keys
    }

    /** The loop of propagate_invalidation that invalidates the roots. */
    method MarkRoots(roots: seq<string>, reason: string)
      requires forall i :: 0 <= i < |roots| ==> roots[i] in nodes
      modifies this`nodes
      ensures Adjacent(old(Value())) && Marked(old(Value()), Elements(roots), reason, Elements(roots), nodes)
    {
      hide Marked, Elements;
      ghost var g := Value();
      NothingMarked(g, reason);
      for i := 0 to |roots|
        invariant Adjacent(g) && Marked(g, Elements(roots[..i]), reason, Elements(roots[..i]), nodes)
      {
        ElementsGrow(roots, i);
        MarkRoot(g, Elements(roots[..i]), reason, nodes, roots[i]);
        nodes := nodes[roots[i] := AsRoot(nodes[roots[i]], reason)];
      }
      assert roots[..|roots|] == roots;
    }

    /** The loop of propagate_invalidation over the dependents of the dequeued node. */
    method Degrade(ghost g: Graph, ghost roots: set<string>, ghost reason: string, curr: string, queue: seq<string>,
                   visited: set<string>, transitive: set<string>, degraded: set<string>)
      returns (queue': seq<string>, visited': set<string>, transitive': set<string>, degraded': set<string>)
      requires Consistent(g) && Adjacent(g)
      requires Marked(g, roots, reason, visited, nodes) && Spreading(g, roots, visited, [curr] + queue)
      requires transitive == visited - roots && degraded == Qualifications(g, transitive)
      modifies this`nodes
      ensures Adjacent(g)
      ensures Marked(g, roots, reason, visited', nodes) && Spreading(g, roots, visited', queue')
      ensures transitive' == visited' - roots && degraded' == Qualifications(g, transitive')
      ensures visited <= visited' <= g.nodes.Keys && (visited' == visited ==> queue' == queue)
    {
      hide Dependencies, Marked, Spreading, Consistent, Qualifications;
      queue', visited', transitive', degraded' := queue, visited, transitive, degraded;
      assert curr in [curr] + queue;
      InGraph(g, roots, visited, [curr] + queue, curr);
      var dependents := incoming[curr];
      for i := 0 to |dependents|
        invariant Adjacent(g) && curr in visited'
        invariant Marked(g, roots, reason, visited', nodes) && Spreading(g, roots, visited', [curr] + queue')
        invariant transitive' == visited' - roots && degraded' == Qualifications(g, transitive')
        invariant visited <= visited' <= g.nodes.Keys && (visited' == visited ==> queue' == queue)
        invariant forall j :: 0 <= j < i ==> dependents[j].source in visited'
      {
        var dependent := dependents[i].source;
        assert dependents[i] in dependents;
        DependsOn(g, curr, dependents[i]);
        if dependent !in visited' {
          MarkDependent(g, roots, reason, visited', nodes, dependent, curr);
          Spread(g, roots, visited', [curr] + queue', dependent, curr);
          MoreQualifications(g, transitive', dependent);
          visited', transitive' := visited' + {dependent}, transitive' + {dependent};
          assert [curr] + (queue' + [dependent]) == [curr] + queue' + [dependent];
          queue' := queue' + [dependent];
          if nodes[dependent].nodeType.QualificationAssessment? {
            degraded' := degraded' + {dependent};
          }
          nodes := nodes[dependent := AsDependent(nodes[dependent], curr)];
        }
      }
      Exhaust(g, roots, visited', [curr] + queue');
      assert ([curr] + queue')[1..] == queue';
    }

    method CalculateCurrentSupport(claim: string) returns (s: Support)
      requires Consistent(Value())
      ensures s == CurrentSupport(Value(), claim)
    {
      hide Bearing, Bearers, SortedSet;
      ghost var g := Value();
      var ids := SortSet(nodes.Keys);
      assert forall id :: id in ids ==> id in g.nodes && id in g.outgoing;
      var supporting, refuting, stale := [], [], [];
      NoBearers(g, claim);
      for i := 0 to |ids|
        invariant supporting == Bearers(g, claim, ids[..i], Supporting)
        invariant refuting == Bearers(g, claim, ids[..i], Refuting)
        invariant stale == Bearers(g, claim, ids[..i], StaleOrInvalid)
      {
        var id := ids[i];
        assert id in ids;
        OneMoreBearer(g, claim, ids, i);
        match Bearing(Graph(nodes, outgoing, incoming), claim, id)
        case Supporting => supporting := supporting + [id];
        case Refuting => refuting := refuting + [id];
        case StaleOrInvalid => stale := stale + [id];
        case Unrelated =>
      }
      assert ids[..|ids|] == ids;
      return Support(
        if supporting != [] && refuting != [] then Contradicted
        else if supporting != [] then Supported
        else if refuting != [] then Refuted
        else if stale != [] then EvidenceInvalidated
        else NoEvidence,
        supporting, refuting, stale);
    }
  }

  // ----- every run of the graph -----

  datatype Op = AddNode(id: string, node: Node) | AddEdge(edge: Edge) | Propagate(roots: seq<string>, reason: string)

  /** One call of the class on a graph value. */
  ghost predicate Step(g: Graph, op: Op, g': Graph, r: Option<GraphError>) {
    match op
    case AddNode(id, node) => NodeAdded(g, id, node, g', r)
    case AddEdge(e) => Consistent(g) && EdgeAdded(g, e, g', r)
    case Propagate(roots, reason) =>
      if Elements(roots) <= g.nodes.Keys then Propagated(g, Elements(roots), reason, g') && r == None
      else g' == g && r == Some(InvalidationNodeNotFound)
  }

  ghost predicate Run(gs: seq<Graph>, ops: seq<Op>, rs: seq<Option<GraphError>>) {
    && |gs| == |ops| + 1 && |rs| == |ops|
    && gs[0] == EMPTY_GRAPH
    && forall i :: 0 <= i < |ops| ==> Step(gs[i], ops[i], gs[i + 1], rs[i])
  }

  /** Some call before the n-th was refused for a cycle. */
  ghost predicate CycleRefusedBefore(rs: seq<Option<GraphError>>, n: nat) {
    exists j :: 0 <= j < n <= |rs| && rs[j] == Some(EvidenceGraphCycle)
  }

  lemma StepKeeps(g: Graph, op: Op, g': Graph, r: Option<GraphError>)
    requires Consistent(g) && Step(g, op, g', r)
    ensures Consistent(g')
    ensures Dependencies(g.outgoing) <= Dependencies(g'.outgoing)
    ensures Cyclic(Dependencies(g'.outgoing)) <==> Cyclic(Dependencies(g.outgoing)) || r == Some(EvidenceGraphCycle)
  {
    hide Cyclic, Dependencies, Consistent, Propagated;
    match op
    case AddNode(id, node) =>
      if r == None {
        WithNodeDependencies(g, id, node);
      }
    case AddEdge(e) =>
      if r == None || r == Some(EvidenceGraphCycle) {
        WithEdgeConsistent(g, e);
        WithEdgeDependencies(g, e);
        if Cyclic(Dependencies(g.outgoing)) {
          CyclicGrows(Dependencies(g.outgoing), Dependencies(g'.outgoing));
        }
      }
    case Propagate(roots, reason) =>
      if Elements(roots) <= g.nodes.Keys {
        PropagatedConsistent(g, Elements(roots), reason, g');
      }
  }

  lemma PropagatedConsistent(g: Graph, roots: set<string>, reason: string, g': Graph)
    requires Consistent(g) && Propagated(g, roots, reason, g')
    ensures Consistent(g') && g'.nodes.Keys == g.nodes.Keys && g'.outgoing == g.outgoing
  {
  }

  /** In every run the adjacency maps agree, and the graph is acyclic until, and only until, a cycle is refused. */
  lemma {:induction false} AcyclicUntilRefused(gs: seq<Graph>, ops: seq<Op>, rs: seq<Option<GraphError>>, n: nat)
    requires Run(gs, ops, rs) && n <= |ops|
    ensures Consistent(gs[n])
    ensures Cyclic(Dependencies(gs[n].outgoing)) <==> CycleRefusedBefore(rs, n)
  {
    hide Consistent, Dependencies, Cyclic, Step;
    if n == 0 {
      EmptyIsAcyclic();
    } else {
      AcyclicUntilRefused(gs, ops, rs, n - 1);
      StepKeeps(gs[n - 1], ops[n - 1], gs[n], rs[n - 1]);
      if CycleRefusedBefore(rs, n - 1) {
        var j :| 0 <= j < n - 1 && rs[j] == Some(EvidenceGraphCycle);
        assert 0 <= j < n;
      }
    }
  }

  lemma EmptyIsAcyclic()
    ensures Consistent(EMPTY_GRAPH) && !Cyclic(Dependencies(EMPTY_GRAPH.outgoing))
  {
    RankedIsAcyclic(Dependencies(EMPTY_GRAPH.outgoing), map[]);
  }

  /** Once a cycle was refused, the edge that closed it stays, and every later add_edge is refused. */
  lemma RefusedForever(gs: seq<Graph>, ops: seq<Op>, rs: seq<Option<GraphError>>, j: nat, n: nat)
    requires Run(gs, ops, rs) && j < n < |ops|
    requires rs[j] == Some(EvidenceGraphCycle) && ops[n].AddEdge?
    ensures rs[n].Some?
    ensures var e := ops[n].edge;
            (e.source in gs[n].nodes && e.target in gs[n].nodes && e.relation.KnownRelation?)
            ==> rs[n] == Some(EvidenceGraphCycle)
  {
    hide Consistent, Dependencies, Cyclic, Step;
    AcyclicUntilRefused(gs, ops, rs, n + 1);
    assert CycleRefusedBefore(rs, n);
    AcyclicUntilRefused(gs, ops, rs, n);
    CyclicAddFails(gs[n], ops[n].edge, gs[n + 1], rs[n]);
  }

  lemma CyclicAddFails(g: Graph, e: Edge, g': Graph, r: Option<GraphError>)
    requires Step(g, AddEdge(e), g', r) && Cyclic(Dependencies(g.outgoing))
    ensures r.Some?
    ensures (e.source in g.nodes && e.target in g.nodes && e.relation.KnownRelation?) ==> r == Some(EvidenceGraphCycle)
  {
    StepKeeps(g, AddEdge(e), g', r);
  }

  /** Two nodes without edges. */
  function TwoNodes(node: Node): Graph {
    WithNode(WithNode(EMPTY_GRAPH, "a", node), "b", node)
  }

  function Loop(): Edge {
    Edge("a", "a", KnownRelation("DEPENDS_ON"))
  }

  function Harmless(): Edge {
    Edge("a", "b", KnownRelation("DEPENDS_ON"))
  }

  /** The two nodes are added, then the loop is tried, then the harmless edge. */
  function LoopRun(node: Node): (seq<Graph>, seq<Op>) {
    var one, two := WithNode(EMPTY_GRAPH, "a", node), TwoNodes(node);
    ([EMPTY_GRAPH, one, two, WithEdge(two, Loop()), WithEdge(WithEdge(two, Loop()), Harmless())],
     [AddNode("a", node), AddNode("b", node), AddEdge(Loop()), AddEdge(Harmless())])
  }

  /** add_edge does not fail closed: a loop is refused and stays, and an edge that is accepted in its absence is
      refused. */
  lemma LoopIsRefusedAndStays(node: Node)
    requires !node.nodeType.UnknownNodeType?
    ensures var (gs, ops) := LoopRun(node);
            && Run(gs, ops, [None, None, Some(EvidenceGraphCycle), Some(EvidenceGraphCycle)])
            && Loop() in gs[3].outgoing["a"]
    ensures Step(TwoNodes(node), AddEdge(Harmless()), WithEdge(TwoNodes(node), Harmless()), None)
  {
    hide Consistent, Dependencies, Cyclic, WithEdge, EdgeAdded;
    TwoNodesAlone(node);
    LoopSteps(TwoNodes(node));
    LoopStands(TwoNodes(node));
  }

  lemma TwoNodesAlone(node: Node)
    ensures var g := TwoNodes(node);
            Consistent(g) && Dependencies(g.outgoing) == {} && "a" in g.nodes && "b" in g.nodes
  {
  }

  lemma LoopStands(g: Graph)
    requires Consistent(g) && "a" in g.nodes && "b" in g.nodes
    ensures "a" in g.outgoing && "a" in g.incoming
    ensures var looped := WithEdge(g, Loop());
            && Consistent(looped) && looped.nodes == g.nodes
                && looped.outgoing.Keys == looped.incoming.Keys == g.nodes.Keys
            && Loop() in looped.outgoing["a"]
  {
    WithEdgeConsistent(g, Loop());
  }

  lemma LoopSteps(g: Graph)
    requires Consistent(g) && Dependencies(g.outgoing) == {} && "a" in g.nodes && "b" in g.nodes
    ensures var looped := WithEdge(g, Loop());
            && Step(g, AddEdge(Loop()), looped, Some(EvidenceGraphCycle))
            && Consistent(looped) && "a" in looped.outgoing && "b" in looped.incoming
            && Step(looped, AddEdge(Harmless()), WithEdge(looped, Harmless()), Some(EvidenceGraphCycle))
    ensures "a" in g.outgoing && "b" in g.incoming && Step(g, AddEdge(Harmless()), WithEdge(g, Harmless()), None)
  {
    assert g.outgoing.Keys == g.nodes.Keys == g.incoming.Keys;
    hide Consistent, Dependencies, Cyclic;
    var loop, harmless, looped := Loop(), Harmless(), WithEdge(g, Loop());
    LoopStands(g);
    WithEdgeDependencies(g, loop);
    WithEdgeDependencies(g, harmless);
    WithEdgeDependencies(looped, harmless);
    assert {} + {("a", "b")} == {("a", "b")};
    OneEdgeIsAcyclic();
    LoopIsCyclic(Dependencies(looped.outgoing));
    LoopIsCyclic(Dependencies(WithEdge(looped, harmless).outgoing));
  }

  lemma OneEdgeIsAcyclic()
    ensures !Cyclic({("a", "b")})
  {
    RankedIsAcyclic({("a", "b")}, map["a" := 1, "b" := 0]);
  }

  lemma LoopIsCyclic(e: Relation)
    requires ("a", "a") in e
    ensures Cyclic(e)
  {
    assert ClosedWalk(e, ["a", "a"]);
  }

  // ----- what invalidation does to support -----

  ghost function Without(xs: seq<string>, s: set<string>): seq<string> {
    if xs == [] then []
    else
      var n := |xs| - 1;
      Without(xs[..n], s) + if xs[n] in s then [] else [xs[n]]
  }

  lemma WithoutAppend(xs: seq<string>, x: string, s: set<string>)
    ensures Without(xs + [x], s) == Without(xs, s) + if x in s then [] else [x]
  {
    assert (xs + [x])[..|xs|] == xs;
  }

  lemma BearingAfter(g: Graph, roots: set<string>, reason: string, g': Graph, claim: string, id: string)
    requires Consistent(g) && Propagated(g, roots, reason, g') && id in g.nodes && roots <= g.nodes.Keys
    ensures id in g'.nodes && id in g'.outgoing
    ensures Bearing(g', claim, id)
         == if id in Closure(g, roots) && !Bearing(g, claim, id).Unrelated? then StaleOrInvalid
             else Bearing(g, claim, id)
  {
    hide Closure, Propagated, Consistent;
    NodeAfter(g, roots, reason, g', id);
    PropagatedConsistent(g, roots, reason, g');
    KeysAgree(g);
  }

  /** Invalidation changes no type, claim or result, and clears the completion flag exactly inside the closure. */
  lemma NodeAfter(g: Graph, roots: set<string>, reason: string, g': Graph, id: string)
    requires Propagated(g, roots, reason, g') && id in g.nodes && roots <= g.nodes.Keys
    ensures id in g'.nodes
    ensures var n, n' := g.nodes[id], g'.nodes[id];
            && n'.nodeType == n.nodeType && n'.data.claimId == n.data.claimId && n'.data.result == n.data.result
            && if id in Closure(g, roots) then !n'.satisfiesCompletion else n' == n
  {
    RootsInClosure(g, roots);
    hide Closure, Dependencies;
  }

  lemma RootsInClosure(g: Graph, roots: set<string>)
    requires roots <= g.nodes.Keys
    ensures roots <= Closure(g, roots)
  {
    forall r | r in roots
      ensures r in Closure(g, roots)
    {
      ReachesSelf(Dependencies(g.outgoing), r, roots);
    }
  }

  lemma {:induction false} BearersAfter(g: Graph, roots: set<string>, reason: string, g': Graph, claim: string,
                                        ids: seq<string>, bucket: Bucket)
    requires Consistent(g) && Propagated(g, roots, reason, g') && roots <= g.nodes.Keys
    requires forall id :: id in ids ==> id in g.nodes && id in g.outgoing && id in g'.nodes && id in g'.outgoing
    requires bucket.Supporting? || bucket.Refuting?
    ensures Bearers(g', claim, ids, bucket) == Without(Bearers(g, claim, ids, bucket), Closure(g, roots))
    decreases |ids|
  {
    hide Propagated, Closure, Bearing, Consistent;
    if ids != [] {
      var n := |ids| - 1;
      BearersAfter(g, roots, reason, g', claim, ids[..n], bucket);
      BearingAfter(g, roots, reason, g', claim, ids[n]);
      var before, after := Bearers(g, claim, ids[..n], bucket), Bearers(g', claim, ids[..n], bucket);
      WithoutAppend(before, ids[n], Closure(g, roots));
      assert before + [] == before && after + [] == after;
    }
  }

  /** Support and refutation after an invalidation are those before it, less everything it affects. */
  lemma SupportAfter(g: Graph, roots: set<string>, reason: string, g': Graph, claim: string)
    requires Consistent(g) && Propagated(g, roots, reason, g') && roots <= g.nodes.Keys
    ensures Consistent(g')
    ensures CurrentSupport(g', claim).supporting == Without(CurrentSupport(g, claim).supporting, Closure(g, roots))
    ensures CurrentSupport(g', claim).refuting == Without(CurrentSupport(g, claim).refuting, Closure(g, roots))
  {
    hide Propagated, Closure, Bearing, Consistent;
    PropagatedConsistent(g, roots, reason, g');
    KeysAgree(g);
    var ids := SortedSet(g.nodes.Keys);
    BearersAfter(g, roots, reason, g', claim, ids, Supporting);
    BearersAfter(g, roots, reason, g', claim, ids, Refuting);
  }

  lemma KeysAgree(g: Graph)
    requires Consistent(g)
    ensures g.outgoing.Keys == g.nodes.Keys
  {
  }

  /** A completion flag survives exactly outside the closure. */
  lemma FlagAfter(g: Graph, roots: set<string>, reason: string, g': Graph, id: string)
    requires Propagated(g, roots, reason, g') && id in g.nodes && roots <= g.nodes.Keys
    ensures id in g'.nodes
    ensures g'.nodes[id].satisfiesCompletion <==> g.nodes[id].satisfiesCompletion && id !in Closure(g, roots)
  {
    NodeAfter(g, roots, reason, g', id);
  }

  datatype Round = Round(roots: set<string>, reason: string)

  /** gs are the graphs before, between and after the propagations. */
  ghost predicate PropagatedAll(gs: seq<Graph>, rounds: seq<Round>) {
    && |gs| == |rounds| + 1
    && forall i :: 0 <= i < |rounds| ==>
         rounds[i].roots <= gs[i].nodes.Keys && Propagated(gs[i], rounds[i].roots, rounds[i].reason, gs[i + 1])
  }

  ghost function AllRoots(rounds: seq<Round>): set<string> {
    set i, x | 0 <= i < |rounds| && x in rounds[i].roots :: x
  }

  lemma OneMoreRound(rounds: seq<Round>)
    requires rounds != []
    ensures AllRoots(rounds) == AllRoots(rounds[..|rounds| - 1]) + rounds[|rounds| - 1].roots
  {
    var before := rounds[..|rounds| - 1];
    forall x | x in AllRoots(before)
      ensures x in AllRoots(rounds)
    {
      var i :| 0 <= i < |before| && x in before[i].roots;
      assert rounds[i] == before[i];
    }
    forall x | x in AllRoots(rounds)
      ensures x in AllRoots(before) + rounds[|rounds| - 1].roots
    {
      var i :| 0 <= i < |rounds| && x in rounds[i].roots;
      if i < |before| {
        assert before[i] == rounds[i];
      }
    }
  }

  /** After any number of propagations a completion flag is left exactly outside the closure of all their roots. */
  lemma {:induction false} FlagsAfterAll(gs: seq<Graph>, rounds: seq<Round>, id: string)
    requires PropagatedAll(gs, rounds) && id in gs[0].nodes
    ensures gs[|rounds|].nodes.Keys == gs[0].nodes.Keys && gs[|rounds|].outgoing == gs[0].outgoing
    ensures gs[|rounds|].nodes[id].satisfiesCompletion
       <==> gs[0].nodes[id].satisfiesCompletion && id !in Closure(gs[0], AllRoots(rounds))
    decreases |rounds|
  {
    hide AllRoots, Propagated;
    if rounds == [] {
      NoRoots(gs[0], rounds);
    } else {
      var n := |rounds| - 1;
      FlagsAfterAll(gs[..n + 1], rounds[..n], id);
      FlagAfter(gs[n], rounds[n].roots, rounds[n].reason, gs[n + 1], id);
      ShapeAfter(gs[n], rounds[n].roots, rounds[n].reason, gs[n + 1]);
      OneMoreRound(rounds);
      ClosureUnion(gs[0], AllRoots(rounds[..n]), rounds[n].roots);
      assert Closure(gs[n], rounds[n].roots) == Closure(gs[0], rounds[n].roots);
    }
  }

  lemma NoRoots(g: Graph, rounds: seq<Round>)
    requires rounds == []
    ensures Closure(g, AllRoots(rounds)) == {}
  {
  }

  lemma ShapeAfter(g: Graph, roots: set<string>, reason: string, g': Graph)
    requires Propagated(g, roots, reason, g')
    ensures g'.nodes.Keys == g.nodes.Keys && g'.outgoing == g.outgoing
  {
  }

  lemma SameRoots(rounds: seq<Round>, rounds': seq<Round>)
    requires multiset(rounds) == multiset(rounds')
    ensures AllRoots(rounds) <= AllRoots(rounds')
  {
    forall x | x in AllRoots(rounds)
      ensures x in AllRoots(rounds')
    {
      var i :| 0 <= i < |rounds| && x in rounds[i].roots;
      assert rounds[i] in multiset(rounds');
      var j :| 0 <= j < |rounds'| && rounds'[j] == rounds[i];
    }
  }

  /** Completion flags do not depend on the order in which any number of root sets are propagated, nor on propagating
      them together. */
  lemma OrderDoesNotMatter(gs: seq<Graph>, rounds: seq<Round>, hs: seq<Graph>, rounds': seq<Round>,
                           reason: string, together: Graph, id: string)
    requires PropagatedAll(gs, rounds) && PropagatedAll(hs, rounds') && gs[0] == hs[0] && id in gs[0].nodes
    requires multiset(rounds) == multiset(rounds')
    requires AllRoots(rounds) <= gs[0].nodes.Keys && Propagated(gs[0], AllRoots(rounds), reason, together)
    ensures id in gs[|rounds|].nodes && id in hs[|rounds'|].nodes && id in together.nodes
    ensures gs[|rounds|].nodes[id].satisfiesCompletion == hs[|rounds'|].nodes[id].satisfiesCompletion
         == together.nodes[id].satisfiesCompletion
  {
    hide AllRoots, Propagated, PropagatedAll, Closure;
    AsLong(gs, rounds);
    AsLong(hs, rounds');
    FlagsAfterAll(gs, rounds, id);
    FlagsAfterAll(hs, rounds', id);
    SameRoots(rounds, rounds');
    SameRoots(rounds', rounds);
    assert AllRoots(rounds) == AllRoots(rounds');
    FlagAfter(gs[0], AllRoots(rounds), reason, together, id);
  }

  lemma AsLong(gs: seq<Graph>, rounds: seq<Round>)
    requires PropagatedAll(gs, rounds)
    ensures |gs| == |rounds| + 1
  {
  }

  lemma ClosureUnion(g: Graph, a: set<string>, b: set<string>)
    ensures Closure(g, a + b) == Closure(g, a) + Closure(g, b)
  {
    var d := Dependencies(g.outgoing);
    forall x
      ensures Reaches(d, x, a + b) <==> Reaches(d, x, a) || Reaches(d, x, b)
    {
      if Reaches(d, x, a + b) {
        var w :| Walk(d, w) && w[0] == x && w[|w| - 1] in a + b;
        assert w[|w| - 1] in a || w[|w| - 1] in b;
      }
      if Reaches(d, x, a) {
        var w :| Walk(d, w) && w[0] == x && w[|w| - 1] in a;
        assert w[|w| - 1] in a + b;
      }
      if Reaches(d, x, b) {
        var w :| Walk(d, w) && w[0] == x && w[|w| - 1] in b;
        assert w[|w| - 1] in a + b;
      }
    }
  }
}
