/** attack/interaction_graph.py: failure modes, their interactions, and what invalidation does to them. */
module InteractionGraphs {
  import opened Wrappers
  import opened Ordering
  import opened Combinations

  /** A reference or a cut: a dictionary, false when empty. */
  type Record = map<string, string>

  datatype Status = Valid | Invalidated | Contradicted | Stale
  datatype NodeKind = FailureMode | RootCauseFamily | Obligation | Surface
  datatype Materiality = Critical | High | Medium | Low | Informational
  datatype Relation = CompoundTrigger | SharedSurface | Cascade | Amplifies | Exacerbates | Inhibits

  datatype Node = Node(id: string, kind: NodeKind, provenance: Record, binding: Record, support: seq<Record>,
                       cut: Record, materiality: Materiality, applicability: bool, status: Status)

  datatype Edge = Edge(id: string, sources: seq<string>, target: string, relation: Relation, support: seq<Record>,
                       provenance: Record, cut: Record, isContradicted: bool, contradictionReason: string,
                       isInvalidated: bool, invalidationReason: string, status: Status)

  datatype Error = MissingProvenance | MissingHistoryCut | EmptySources | EmptyTarget | UnsupportedEdge | StaleInput
    | UnknownNode(id: string) | ExplosionExceeded | UnknownEdge | NegativeOrder

  const INVALIDATION_REASON := "Supporting evidence or connected node was invalidated"

  // ----- what the constructors of nodes and edges refuse -----

  function NodeError(n: Node): Option<Error> {
    if n.provenance == map[] then Some(MissingProvenance)
    else if n.cut == map[] then Some(MissingHistoryCut)
    else None
  }

  function EdgeError(e: Edge): Option<Error> {
    if e.sources == [] then Some(EmptySources)
    else if e.target == "" then Some(EmptyTarget)
    else if e.support == [] && !e.isContradicted then Some(UnsupportedEdge)
    else if e.provenance == map[] then Some(MissingProvenance)
    else if e.cut == map[] then Some(MissingHistoryCut)
    else None
  }

  function Endpoints(e: Edge): set<string> {
    (set i | 0 <= i < |e.sources| :: e.sources[i]) + {e.target}
  }

  // ----- the graph as a value -----

  datatype Graph = Graph(cut: Record, maxOrder: int, maxCombinations: int, nodes: map<string, Node>,
                         edges: map<string, Edge>)

  function Empty(cut: Record, maxOrder: int, maxCombinations: int): Graph {
    Graph(cut, maxOrder, maxCombinations, map[], map[])
  }

  /** The edge may be added to the graph. */
  ghost predicate Fits(g: Graph, e: Edge) {
    EdgeError(e).None? && e.cut == g.cut && Endpoints(e) <= g.nodes.Keys && |Endpoints(e)| <= g.maxOrder
  }

  /** What every graph the class can reach satisfies. */
  ghost predicate Coherent(g: Graph) {
    && g.cut != map[]
    && (forall k :: k in g.nodes ==> g.nodes[k].id == k && NodeError(g.nodes[k]).None? && g.nodes[k].cut == g.cut)
    && (forall k :: k in g.edges ==> g.edges[k].id == k && Fits(g, g.edges[k]))
  }

  ghost function AddingNode(g: Graph, n: Node): Result<Graph, Error> {
    if n.cut != g.cut then Failure(StaleInput) else Success(g.(nodes := g.nodes[n.id := n]))
  }

  function FirstMissing(ids: seq<string>, nodes: map<string, Node>): Option<string> {
    if ids == [] then None
    else if ids[0] !in nodes then Some(ids[0])
    else FirstMissing(ids[1..], nodes)
  }

  ghost function AddingEdge(g: Graph, e: Edge): Result<Graph, Error> {
    var missing := FirstMissing(e.sources + [e.target], g.nodes);
    if e.cut != g.cut then Failure(StaleInput)
    else if missing.Some? then Failure(UnknownNode(missing.value))
    else if |Endpoints(e)| > g.maxOrder then Failure(ExplosionExceeded)
    else Success(g.(edges := g.edges[e.id := e]))
  }

  // ----- invalidation -----

  predicate Mentions(r: Record, ids: set<string>) {
    || ("revision_digest" in r && r["revision_digest"] in ids)
    || ("id" in r && r["id"] in ids)
    || ("ref_id" in r && r["ref_id"] in ids)
  }

  predicate LosesSupport(refs: seq<Record>, ids: set<string>) {
    exists i :: 0 <= i < |refs| && Mentions(refs[i], ids)
  }

  function MarkNode(n: Node, ids: set<string>): Node {
    if LosesSupport(n.support, ids) && n.status != Invalidated then n.(applicability := false, status := Invalidated)
        else n
  }

  predicate Touches(e: Edge, nodes: map<string, Node>) {
    exists x :: x in Endpoints(e) && x in nodes && nodes[x].status == Invalidated
  }

  /** The edge, in a graph whose nodes have been marked already. */
  function MarkEdge(e: Edge, ids: set<string>, nodes: map<string, Node>): Edge {
    if (LosesSupport(e.support, ids) || Touches(e, nodes)) && e.status != Invalidated
    then e.(isInvalidated := true, invalidationReason := INVALIDATION_REASON, status := Invalidated)
    else e
  }

  ghost function MarkNodes(nodes: map<string, Node>, ids: set<string>): map<string, Node> {
    map k | k in nodes :: MarkNode(nodes[k], ids)
  }

  ghost function MarkEdges(edges: map<string, Edge>, ids: set<string>, nodes: map<string, Node>): map<string, Edge> {
    map k | k in edges :: MarkEdge(edges[k], ids, nodes)
  }

  ghost function Invalidating(g: Graph, ids: set<string>): Graph {
    var nodes := MarkNodes(g.nodes, ids);
    g.(nodes := nodes, edges := MarkEdges(g.edges, ids, nodes))
  }

  /** The entries whose value is not the same before and after. */
  ghost function Changed<V>(before: map<string, V>, after: map<string, V>): set<string> {
    set k | k in before && k in after && before[k] != after[k]
  }

  ghost function Affected(g: Graph, ids: set<string>): nat {
    |Changed(g.nodes, Invalidating(g, ids).nodes)| + |Changed(g.edges, Invalidating(g, ids).edges)|
  }

  function Contradict(e: Edge, reason: string): Edge {
    e.(isContradicted := true, contradictionReason := reason, status := Contradicted)
  }

  // ----- canonical export -----

  datatype Export = Export(cut: Record, maxOrder: int, maxCombinations: int, nodes: seq<Node>, edges: seq<Edge>)

  function ListNodes(nodes: map<string, Node>, ks: seq<string>): seq<Node>
    requires forall i :: 0 <= i < |ks| ==> ks[i] in nodes
  {
    seq(|ks|, i requires 0 <= i < |ks| => nodes[ks[i]])
  }

  function ListEdges(edges: map<string, Edge>, ks: seq<string>): seq<Edge>
    requires forall i :: 0 <= i < |ks| ==> ks[i] in edges
  {
    seq(|ks|, i requires 0 <= i < |ks| => edges[ks[i]])
  }

  ghost function ExportOf(g: Graph): Export {
    Export(g.cut, g.maxOrder, g.maxCombinations, ListNodes(g.nodes, SortedSet(g.nodes.Keys)),
           ListEdges(g.edges, SortedSet(g.edges.Keys)))
  }

  /** Nodes constructed and added one after the other; the first error ends it. */
  ghost function AddAllNodes(g: Graph, ns: seq<Node>): Result<Graph, Error> {
    if ns == [] then Success(g)
    else
      var n := |ns| - 1;
      var before := AddAllNodes(g, ns[..n]);
      if before.Failure? then before
      else if NodeError(ns[n]).Some? then Failure(NodeError(ns[n]).value)
      else AddingNode(before.value, ns[n])
  }

  ghost function AddAllEdges(g: Graph, es: seq<Edge>): Result<Graph, Error> {
    if es == [] then Success(g)
    else
      var n := |es| - 1;
      var before := AddAllEdges(g, es[..n]);
      if before.Failure? then before
      else if EdgeError(es[n]).Some? then Failure(EdgeError(es[n]).value)
      else AddingEdge(before.value, es[n])
  }

  /** What rebuild answers for an export, well formed or not. */
  ghost function Rebuilding(data: Export): Result<Graph, Error> {
    if data.cut == map[] then Failure(MissingHistoryCut)
    else
      var noded := AddAllNodes(Empty(data.cut, data.maxOrder, data.maxCombinations), data.nodes);
      if noded.Failure? then noded else AddAllEdges(noded.value, data.edges)
  }

  // ----- what adding does -----

  lemma {:induction false} NothingMissing(ids: seq<string>, nodes: map<string, Node>)
    ensures FirstMissing(ids, nodes).None? <==> forall i :: 0 <= i < |ids| ==> ids[i] in nodes
  {
    if ids != [] {
      NothingMissing(ids[1..], nodes);
      assert forall i :: 0 < i < |ids| ==> ids[i] == ids[1..][i - 1];
    }
  }

  /** An edge is taken just when it fits. */
  lemma TakenIffFits(g: Graph, e: Edge)
    requires EdgeError(e).None?
    ensures AddingEdge(g, e).Success? <==> Fits(g, e)
  {
    var ends := e.sources + [e.target];
    NothingMissing(ends, g.nodes);
    assert ends[|e.sources|] == e.target;
    assert forall i :: 0 <= i < |e.sources| ==> ends[i] == e.sources[i] && e.sources[i] in Endpoints(e);
  }

  // ----- the engine -----

  class FailureInteractionGraph {
    const historyCut: Record
    const maxInteractionOrder: int
    const maxCombinationsBound: int
    var nodes: map<string, Node>
    var edges: map<string, Edge>

    constructor (historyCut: Record, maxInteractionOrder: int, maxCombinationsBound: int)
      ensures Contents() == Empty(historyCut, maxInteractionOrder, maxCombinationsBound)
    {
      this.historyCut := historyCut;
      this.maxInteractionOrder := maxInteractionOrder;
      this.maxCombinationsBound := maxCombinationsBound;
      nodes, edges := map[], map[];
    }

    ghost function Contents(): Graph
      reads this
    {
      Graph(historyCut, maxInteractionOrder, maxCombinationsBound, nodes, edges)
    }

    method AddNode(n: Node) returns (error: Option<Error>)
      modifies this`nodes
      ensures AddingNode(old(Contents()), n) == if error.None? then Success(Contents()) else Failure(error.value)
      ensures error.Some? ==> Contents() == old(Contents())
    {
      if n.cut != historyCut {
        return Some(StaleInput);
      }
      nodes := nodes[n.id := n];
      return None;
    }

    method AddEdge(e: Edge) returns (error: Option<Error>)
      requires EdgeError(e).None?
      modifies this`edges
      ensures AddingEdge(old(Contents()), e) == if error.None? then Success(Contents()) else Failure(error.value)
      ensures error.Some? ==> Contents() == old(Contents())
    {
      if e.cut != historyCut {
        return Some(StaleInput);
      }
      var ends := e.sources + [e.target];
      for i := 0 to |ends|
        invariant FirstMissing(ends[i..], nodes) == FirstMissing(ends, nodes)
        invariant Contents() == old(Contents())
      {
        if ends[i] !in nodes {
          return Some(UnknownNode(ends[i]));
        }
      }
      if |Endpoints(e)| > maxInteractionOrder {
        return Some(ExplosionExceeded);
      }
      edges := edges[e.id := e];
      return None;
    }

    method ApplyInvalidations(ids: set<string>) returns (affected: nat)
      requires Coherent(Contents())
      modifies this`nodes, this`edges
      ensures Contents() == Invalidating(old(Contents()), ids)
      ensures affected == Affected(old(Contents()), ids)
    {
      ghost var was := Contents();
      var marked: map<string, Node>, hits: nat := MarkEveryNode(nodes, ids);
      nodes := marked;
      var markedEdges: map<string, Edge>, edgeHits: nat := MarkEveryEdge(edges, ids, nodes);
      edges := markedEdges;
      affected := hits + edgeHits;
    }

    method ApplyContradiction(id: string, reason: string) returns (error: Option<Error>)
      modifies this`edges
      ensures error == if id in old(edges) then None else Some(UnknownEdge)
      ensures edges == if id in old(edges) then old(edges)[id := Contradict(old(edges)[id], reason)] else old(edges)
    {
      if id !in edges {
        return Some(UnknownEdge);
      }
      edges := edges[id := Contradict(edges[id], reason)];
      return None;
    }

    /** At most maxCombinationsBound combinations of the valid nodes, but always the first one if there is any. */
    method GenerateCandidateCombinations(order: int, kind: Option<NodeKind>)
      returns (r: Result<seq<seq<string>>, Error>)
      ensures order > maxInteractionOrder ==> r == Failure(ExplosionExceeded)
      ensures order <= maxInteractionOrder && order < 0 ==> r == Failure(NegativeOrder)
      ensures 0 <= order <= maxInteractionOrder ==>
                && r.Success?
                && r.value <= Choices(SortedSet(Eligible(nodes, kind)), order)
                && |r.value| == Min(Choose(|Eligible(nodes, kind)|, order),
                                    if maxCombinationsBound < 1 then 1 else maxCombinationsBound)
    {
      hide Choices, Choose, Lists, Eligible;
      if order > maxInteractionOrder {
        return Failure(ExplosionExceeded);
      }
      if order < 0 {
        return Failure(NegativeOrder);
      }
      var ids := SortSet(Eligible(nodes, kind));
      HowMany(ids, order);
      var combos := FirstOnes(Choices(ids, order), maxCombinationsBound);
      return Success(combos);
    }

    method ExportCanonical() returns (data: Export)
      ensures data == ExportOf(Contents())
    {
      var nodeIds := SortSet(nodes.Keys);
      var edgeIds := SortSet(edges.Keys);
      data := Export(historyCut, maxInteractionOrder, maxCombinationsBound, ListNodes(nodes, nodeIds),
          ListEdges(edges, edgeIds));
    }

    static method Rebuild(data: Export) returns (r: Result<FailureInteractionGraph, Error>)
      ensures r.Failure? ==> Rebuilding(data) == Failure(r.error)
      ensures r.Success? ==> fresh(r.value) && Rebuilding(data) == Success(r.value.Contents())
    {
      hide NodeError, EdgeError, AddingNode, AddingEdge;
      if data.cut == map[] {
        return Failure(MissingHistoryCut);
      }
      var graph := new FailureInteractionGraph(data.cut, data.maxOrder, data.maxCombinations);
      ghost var empty := graph.Contents();
      for i := 0 to |data.nodes|
        invariant fresh(graph) && AddAllNodes(empty, data.nodes[..i]) == Success(graph.Contents())
      {
        var before := data.nodes[..i + 1];
        assert before[..i] == data.nodes[..i];
        var error := NodeError(data.nodes[i]);
        if error.None? {
          error := graph.AddNode(data.nodes[i]);
        }
        if error.Some? {
          FailedNodeSticks(empty, data.nodes, i + 1);
          return Failure(error.value);
        }
      }
      assert data.nodes[..|data.nodes|] == data.nodes;
      ghost var noded := graph.Contents();
      for i := 0 to |data.edges|
        invariant fresh(graph) && AddAllEdges(noded, data.edges[..i]) == Success(graph.Contents())
      {
        var before := data.edges[..i + 1];
        assert before[..i] == data.edges[..i];
        var error := EdgeError(data.edges[i]);
        if error.None? {
          error := graph.AddEdge(data.edges[i]);
        }
        if error.Some? {
          FailedEdgeSticks(noded, data.edges, i + 1);
          return Failure(error.value);
        }
      }
      assert data.edges[..|data.edges|] == data.edges;
      return Success(graph);
    }
  }

  lemma {:induction false} FailedNodeSticks(g: Graph, ns: seq<Node>, i: nat)
    requires i <= |ns| && AddAllNodes(g, ns[..i]).Failure?
    ensures AddAllNodes(g, ns) == AddAllNodes(g, ns[..i])
    decreases |ns|
  {
    if i < |ns| {
      var front := ns[..|ns| - 1];
      assert front[..i] == ns[..i];
      FailedNodeSticks(g, front, i);
    } else {
      assert ns[..i] == ns;
    }
  }

  lemma {:induction false} FailedEdgeSticks(g: Graph, es: seq<Edge>, i: nat)
    requires i <= |es| && AddAllEdges(g, es[..i]).Failure?
    ensures AddAllEdges(g, es) == AddAllEdges(g, es[..i])
    decreases |es|
  {
    if i < |es| {
      var front := es[..|es| - 1];
      assert front[..i] == es[..i];
      FailedEdgeSticks(g, front, i);
    } else {
      assert es[..i] == es;
    }
  }

  /** The loop over the nodes: the marked nodes, and how many were marked. */
  method MarkEveryNode(nodes: map<string, Node>, ids: set<string>) returns (marked: map<string, Node>, hits: nat)
    ensures marked == MarkNodes(nodes, ids) && hits == |Changed(nodes, marked)|
  {
    hide LosesSupport, Changed;
    marked, hits := map[], 0;
    assert Changed(nodes, marked) == {} by { NothingChanged(nodes); }
    var todo := nodes.Keys;
    while todo != {}
      invariant todo <= nodes.Keys && marked.Keys == nodes.Keys - todo
      invariant forall k :: k in marked ==> marked[k] == MarkNode(nodes[k], ids)
      invariant hits == |Changed(nodes, marked)|
      decreases |todo|
    {
      var k :| k in todo;
      OneMoreChange(nodes, marked, k, MarkNode(nodes[k], ids));
      if LosesSupport(nodes[k].support, ids) && nodes[k].status != Invalidated {
        hits := hits + 1;
      }
      marked, todo := marked[k := MarkNode(nodes[k], ids)], todo - {k};
    }
  }

  method MarkEveryEdge(edges: map<string, Edge>, ids: set<string>, nodes: map<string, Node>)
    returns (marked: map<string, Edge>, hits: nat)
    ensures marked == MarkEdges(edges, ids, nodes) && hits == |Changed(edges, marked)|
  {
    hide Touches, LosesSupport, Changed;
    marked, hits := map[], 0;
    assert Changed(edges, marked) == {} by { NothingChanged(edges); }
    var todo := edges.Keys;
    while todo != {}
      invariant todo <= edges.Keys && marked.Keys == edges.Keys - todo
      invariant forall k :: k in marked ==> marked[k] == MarkEdge(edges[k], ids, nodes)
      invariant hits == |Changed(edges, marked)|
      decreases |todo|
    {
      var k :| k in todo;
      var e := edges[k];
      OneMoreChange(edges, marked, k, MarkEdge(e, ids, nodes));
      if (LosesSupport(e.support, ids) || Touches(e, nodes)) && e.status != Invalidated {
        hits := hits + 1;
      }
      marked, todo := marked[k := MarkEdge(e, ids, nodes)], todo - {k};
    }
  }

  lemma NothingChanged<V>(before: map<string, V>)
    ensures Changed(before, map[]) == {}
  {
  }

  lemma OneMoreChange<V>(before: map<string, V>, after: map<string, V>, k: string, v: V)
    requires k in before && k !in after
    ensures |Changed(before, after[k := v])| == |Changed(before, after)| + if v != before[k] then 1 else 0
  {
    var new_ := Changed(before, after[k := v]);
    if v != before[k] {
      assert new_ == Changed(before, after) + {k};
    } else {
      assert new_ == Changed(before, after);
    }
  }

  function Eligible(nodes: map<string, Node>, kind: Option<NodeKind>): set<string> {
    set k | k in nodes && nodes[k].status == Valid && (kind.None? || nodes[k].kind == kind.value)
  }

  function Min(a: int, b: int): int {
    if a < b then a else b
  }

  /** The loop that stops at the bound, which it looks at only after taking a combination. */
  method FirstOnes(all: seq<seq<string>>, bound: int) returns (combos: seq<seq<string>>)
    ensures combos == all[..Min(|all|, if bound < 1 then 1 else bound)]
  {
    combos := [];
    for i := 0 to |all|
      invariant combos == all[..i]
      invariant i == 0 || i < bound
    {
      combos := combos + [all[i]];
      if |combos| >= bound {
        return;
      }
    }
  }

  // ----- what invalidation does -----

  /** A node is invalid afterwards just when it was or it lost support; an edge, just when it was, it lost support,
      or one of its endpoints is invalid. */
  lemma WhatIsInvalid(g: Graph, ids: set<string>, k: string)
    ensures var after := Invalidating(g, ids);
            && (k in g.nodes ==>
              (after.nodes[k].status == Invalidated <==>
                  g.nodes[k].status == Invalidated || LosesSupport(g.nodes[k].support, ids)))
            && (k in g.edges ==>
              (after.edges[k].status == Invalidated <==>
                || g.edges[k].status == Invalidated
                || LosesSupport(g.edges[k].support, ids)
                || Touches(g.edges[k], after.nodes)))
  {
    hide Touches, LosesSupport;
  }

  /** No edge that touches an invalid node is left valid. */
  ghost predicate Settled(g: Graph) {
    forall k :: k in g.edges && Touches(g.edges[k], g.nodes) ==> g.edges[k].status != Valid
  }

  lemma InvalidationSettles(g: Graph, ids: set<string>)
    ensures Settled(Invalidating(g, ids))
  {
    hide Touches, LosesSupport;
    var after := Invalidating(g, ids);
    forall k | k in after.edges && Touches(after.edges[k], after.nodes)
      ensures after.edges[k].status != Valid
    {
      MarkingKeepsEndpoints(g.edges[k], ids, after.nodes, after.nodes);
    }
  }

  lemma MarkingKeepsEndpoints(e: Edge, ids: set<string>, nodes: map<string, Node>, others: map<string, Node>)
    ensures Touches(MarkEdge(e, ids, nodes), others) == Touches(e, others)
    ensures MarkEdge(e, ids, nodes).support == e.support
  {
  }

  /** Contradicting an edge leaves the graph settled. */
  lemma ContradictionKeepsSettled(g: Graph, id: string, reason: string)
    requires Settled(g) && id in g.edges
    ensures Settled(g.(edges := g.edges[id := Contradict(g.edges[id], reason)]))
  {
    hide LosesSupport;
    var e := g.edges[id];
    assert Endpoints(Contradict(e, reason)) == Endpoints(e);
  }

  lemma SupportOfUnion(refs: seq<Record>, a: set<string>, b: set<string>)
    ensures LosesSupport(refs, a + b) <==> LosesSupport(refs, a) || LosesSupport(refs, b)
  {
    forall r: Record
      ensures Mentions(r, a + b) <==> Mentions(r, a) || Mentions(r, b)
    {
    }
    if LosesSupport(refs, a) {
      var i :| 0 <= i < |refs| && Mentions(refs[i], a);
      assert Mentions(refs[i], a + b);
    }
    if LosesSupport(refs, b) {
      var i :| 0 <= i < |refs| && Mentions(refs[i], b);
      assert Mentions(refs[i], a + b);
    }
  }

  lemma NodesCompose(nodes: map<string, Node>, a: set<string>, b: set<string>)
    ensures MarkNodes(MarkNodes(nodes, a), b) == MarkNodes(nodes, a + b)
  {
    hide LosesSupport;
    forall k | k in nodes
      ensures MarkNode(MarkNode(nodes[k], a), b) == MarkNode(nodes[k], a + b)
    {
      SupportOfUnion(nodes[k].support, a, b);
    }
  }

  /** Marking more nodes only makes an edge touch more. */
  lemma MarkingTouchesMore(e: Edge, nodes: map<string, Node>, b: set<string>)
    requires Touches(e, nodes)
    ensures Touches(e, MarkNodes(nodes, b))
  {
    hide LosesSupport;
    var x :| x in Endpoints(e) && x in nodes && nodes[x].status == Invalidated;
    assert x in MarkNodes(nodes, b) && MarkNodes(nodes, b)[x].status == Invalidated;
  }

  lemma EdgesCompose(g: Graph, a: set<string>, b: set<string>, k: string)
    requires k in g.edges
    ensures Invalidating(Invalidating(g, a), b).edges[k] == Invalidating(g, a + b).edges[k]
  {
    hide LosesSupport, Touches;
    var e := g.edges[k];
    var na := MarkNodes(g.nodes, a);
    var nb := MarkNodes(na, b);
    NodesCompose(g.nodes, a, b);
    SupportOfUnion(e.support, a, b);
    MarkingKeepsEndpoints(e, a, na, nb);
    if Touches(e, na) {
      MarkingTouchesMore(e, na, b);
    }
  }

  /** Two invalidations are one invalidation with the union. */
  lemma InvalidationsCompose(g: Graph, a: set<string>, b: set<string>)
    ensures Invalidating(Invalidating(g, a), b) == Invalidating(g, a + b)
  {
    hide MarkNode, MarkEdge;
    NodesCompose(g.nodes, a, b);
    forall k | k in g.edges
      ensures Invalidating(Invalidating(g, a), b).edges[k] == Invalidating(g, a + b).edges[k]
    {
      EdgesCompose(g, a, b, k);
    }
    assert Invalidating(Invalidating(g, a), b).edges == Invalidating(g, a + b).edges;
  }

  /** Marking is final: what a first round changed, a second leaves alone. */
  lemma ChangesAddUp<V>(m0: map<string, V>, m1: map<string, V>, m2: map<string, V>)
    requires m0.Keys == m1.Keys == m2.Keys
    requires forall k :: k in m0 && m1[k] != m0[k] ==> m2[k] == m1[k]
    ensures |Changed(m0, m1)| + |Changed(m1, m2)| == |Changed(m0, m2)|
  {
    assert Changed(m0, m2) == Changed(m0, m1) + Changed(m1, m2);
    assert Changed(m0, m1) !! Changed(m1, m2);
  }

  /** The reported counts of two invalidations add up to the count of the union. */
  lemma CountsAddUp(g: Graph, a: set<string>, b: set<string>)
    ensures Affected(g, a) + Affected(Invalidating(g, a), b) == Affected(g, a + b)
  {
    hide LosesSupport, Touches;
    var g1 := Invalidating(g, a);
    var g2 := Invalidating(g1, b);
    InvalidationsCompose(g, a, b);
    ChangesAddUp(g.nodes, g1.nodes, g2.nodes);
    ChangesAddUp(g.edges, g1.edges, g2.edges);
  }

  /** Contradicting an edge does not commute with invalidating it: the later of the two decides its status.
      The orders agree just when the invalidation does not reach the edge. */
  lemma ContradictionCommutesIff(g: Graph, ids: set<string>, id: string, reason: string)
    requires id in g.edges
    ensures var contradicted := g.(edges := g.edges[id := Contradict(g.edges[id], reason)]);
            var after := Invalidating(g, ids);
            after.(edges := after.edges[id := Contradict(after.edges[id], reason)]) == Invalidating(contradicted, ids)
            <==> !LosesSupport(g.edges[id].support, ids) && !Touches(g.edges[id], after.nodes)
  {
    hide LosesSupport, Touches, MarkNode, MarkEdge, Contradict;
    var e := g.edges[id];
    var contradicted := g.(edges := g.edges[id := Contradict(e, reason)]);
    var after := Invalidating(g, ids);
    var one := after.edges[id := Contradict(after.edges[id], reason)];
    var two := Invalidating(contradicted, ids).edges;
    assert one[id] == Contradict(MarkEdge(e, ids, after.nodes), reason);
    assert two[id] == MarkEdge(Contradict(e, reason), ids, after.nodes);
    assert forall k :: k in g.edges && k != id ==> one[k] == two[k];
    assert one == two <==> one[id] == two[id];
    EdgeCommutesIff(e, ids, reason, after.nodes);
  }

  lemma EdgeCommutesIff(e: Edge, ids: set<string>, reason: string, nodes: map<string, Node>)
    ensures Contradict(MarkEdge(e, ids, nodes), reason) == MarkEdge(Contradict(e, reason), ids, nodes)
       <==> !LosesSupport(e.support, ids) && !Touches(e, nodes)
  {
    hide LosesSupport, Touches;
    ContradictingKeepsEndpoints(e, reason, nodes);
  }

  lemma ContradictingKeepsEndpoints(e: Edge, reason: string, nodes: map<string, Node>)
    ensures Touches(Contradict(e, reason), nodes) == Touches(e, nodes)
  {
    assert Endpoints(Contradict(e, reason)) == Endpoints(e);
  }

  // ----- every graph the class can reach -----

  datatype Op = AddNodeOp(node: Node) | AddEdgeOp(edge: Edge) | InvalidateOp(ids: set<string>)
    | ContradictOp(id: string, reason: string)

  /** Nodes and edges exist only once constructed. */
  ghost predicate Constructed(op: Op) {
    match op
    case AddNodeOp(n) => NodeError(n).None?
    case AddEdgeOp(e) => EdgeError(e).None?
    case _ => true
  }

  /** One call on the graph; a refused call leaves it as it was. */
  ghost function Apply(g: Graph, op: Op): Graph {
    match op
    case AddNodeOp(n) => (var r := AddingNode(g, n); if r.Success? then r.value else g)
    case AddEdgeOp(e) => (var r := AddingEdge(g, e); if r.Success? then r.value else g)
    case InvalidateOp(ids) => Invalidating(g, ids)
    case ContradictOp(id, reason) =>
      if id in g.edges then g.(edges := g.edges[id := Contradict(g.edges[id], reason)]) else g
  }

  /** The call brings a valid edge and an invalid node together: it adds a valid edge to an invalid node, or replaces a
      node under a valid edge by an invalid one. */
  ghost predicate Unsettles(g: Graph, op: Op) {
    match op
    case AddNodeOp(n) =>
      n.cut == g.cut && n.status == Invalidated
      && exists k :: k in g.edges && g.edges[k].status == Valid && n.id in Endpoints(g.edges[k])
    case AddEdgeOp(e) => AddingEdge(g, e).Success? && e.status == Valid && Touches(e, g.nodes)
    case _ => false
  }

  /** A settled graph stays settled under exactly the calls that do not bring the two together. */
  lemma KeepsSettledIff(g: Graph, op: Op)
    requires Coherent(g) && Settled(g)
    ensures Settled(Apply(g, op)) <==> !Unsettles(g, op)
  {
    hide Endpoints, FirstMissing, Coherent, LosesSupport, Touches;
    match op
    case AddNodeOp(n) => NodeSettlesIff(g, n);
    case AddEdgeOp(e) => EdgeSettlesIff(g, e);
    case InvalidateOp(ids) => InvalidationSettles(g, ids);
    case ContradictOp(id, reason) =>
      if id in g.edges {
        ContradictionKeepsSettled(g, id, reason);
      }
  }

  lemma NodeSettlesIff(g: Graph, n: Node)
    requires Coherent(g) && Settled(g)
    ensures Settled(Apply(g, AddNodeOp(n))) <==> !Unsettles(g, AddNodeOp(n))
  {
    hide Endpoints, Fits, NodeError;
    var after := Apply(g, AddNodeOp(n));
    if n.cut == g.cut {
      forall k | k in g.edges
        ensures Touches(g.edges[k], after.nodes) ==>
            Touches(g.edges[k], g.nodes) || (n.status == Invalidated && n.id in Endpoints(g.edges[k]))
        ensures n.status == Invalidated && n.id in Endpoints(g.edges[k]) ==> Touches(g.edges[k], after.nodes)
      {
        if n.status == Invalidated && n.id in Endpoints(g.edges[k]) {
          assert n.id in after.nodes && after.nodes[n.id].status == Invalidated;
        }
      }
    }
  }

  lemma EdgeSettlesIff(g: Graph, e: Edge)
    requires Settled(g)
    ensures Settled(Apply(g, AddEdgeOp(e))) <==> !Unsettles(g, AddEdgeOp(e))
  {
    hide Endpoints, FirstMissing, Touches;
    var after := Apply(g, AddEdgeOp(e));
    if AddingEdge(g, e).Success? {
      assert after.edges[e.id] == e && after.nodes == g.nodes;
      assert forall k :: k in g.edges && k != e.id ==> after.edges[k] == g.edges[k];
    }
  }

  ghost function Run(g: Graph, ops: seq<Op>): Graph {
    if ops == [] then g else Apply(Run(g, ops[..|ops| - 1]), ops[|ops| - 1])
  }

  lemma InvalidationKeepsCoherent(g: Graph, ids: set<string>)
    requires Coherent(g)
    ensures Coherent(Invalidating(g, ids))
  {
    hide MarkEdge, MarkNode, Fits, EdgeError, NodeError;
    var after := Invalidating(g, ids);
    forall k | k in g.nodes
      ensures after.nodes[k].id == k && NodeError(after.nodes[k]).None? && after.nodes[k].cut == g.cut
    {
      MarkedNode(g.nodes[k], ids);
    }
    forall k | k in g.edges
      ensures after.edges[k].id == k && Fits(after, after.edges[k])
    {
      MarkedEdge(g, g.edges[k], ids, after);
    }
  }

  lemma MarkedNode(n: Node, ids: set<string>)
    ensures var m := MarkNode(n, ids);
            m.id == n.id && m.cut == n.cut && NodeError(m) == NodeError(n)
  {
    hide LosesSupport;
  }

  lemma MarkedEdge(g: Graph, e: Edge, ids: set<string>, after: Graph)
    requires Fits(g, e) && after.cut == g.cut && after.maxOrder == g.maxOrder && after.nodes.Keys == g.nodes.Keys
    ensures var m := MarkEdge(e, ids, after.nodes);
            m.id == e.id && Fits(after, m)
  {
    hide LosesSupport, Touches;
    assert Endpoints(MarkEdge(e, ids, after.nodes)) == Endpoints(e);
  }

  lemma StepKeepsCoherent(g: Graph, op: Op)
    requires Coherent(g) && Constructed(op)
    ensures Coherent(Apply(g, op))
  {
    hide Endpoints, Invalidating, FirstMissing, EdgeError, NodeError;
    match op
    case AddNodeOp(n) =>
    case AddEdgeOp(e) => TakenIffFits(g, e);
    case InvalidateOp(ids) => InvalidationKeepsCoherent(g, ids);
    case ContradictOp(id, reason) =>
      if id in g.edges {
        assert Fits(g, g.edges[id]);
        SameEnds(g.edges[id], reason);
      }
  }

  lemma SameEnds(e: Edge, reason: string)
    ensures Endpoints(Contradict(e, reason)) == Endpoints(e)
    ensures EdgeError(e).None? ==> EdgeError(Contradict(e, reason)).None?
  {
  }

  lemma {:induction false} RunKeepsCoherent(g: Graph, ops: seq<Op>)
    requires Coherent(g) && forall i :: 0 <= i < |ops| ==> Constructed(ops[i])
    ensures Coherent(Run(g, ops))
  {
    hide Coherent, Constructed, Apply;
    if ops != [] {
      var n := |ops| - 1;
      RunKeepsCoherent(g, ops[..n]);
      StepKeepsCoherent(Run(g, ops[..n]), ops[n]);
    }
  }

  // ----- export and rebuild -----

  ghost function Restrict<V>(m: map<string, V>, ks: seq<string>): map<string, V> {
    map k | k in m && k in ks :: m[k]
  }

  lemma OneMoreKey<V>(m: map<string, V>, ks: seq<string>)
    requires ks != [] && ks[|ks| - 1] in m
    ensures Restrict(m, ks) == Restrict(m, ks[..|ks| - 1])[ks[|ks| - 1] := m[ks[|ks| - 1]]]
  {
    var n := |ks| - 1;
    assert ks == ks[..n] + [ks[n]];
  }

  lemma AllKeys<V>(m: map<string, V>)
    ensures Restrict(m, SortedSet(m.Keys)) == m
    ensures forall i :: 0 <= i < |SortedSet(m.Keys)| ==> SortedSet(m.Keys)[i] in m
  {
    hide SortedSet, Ascending;
    var xs := SortedSet(m.Keys);
    assert Lists(xs, m.Keys);
    forall i | 0 <= i < |xs|
      ensures xs[i] in m
    {
      assert xs[i] in xs;
    }
    assert Restrict(m, xs) == m;
  }

  lemma {:induction false} NodesRebuilt(g: Graph, ks: seq<string>)
    requires Coherent(g) && forall i :: 0 <= i < |ks| ==> ks[i] in g.nodes
    ensures AddAllNodes(Empty(g.cut, g.maxOrder, g.maxCombinations), ListNodes(g.nodes, ks))
         == Success(g.(nodes := Restrict(g.nodes, ks), edges := map[]))
  {
    hide NodeError, Fits;
    if ks != [] {
      hide Restrict;
      var n := |ks| - 1;
      NodesRebuilt(g, ks[..n]);
      assert ListNodes(g.nodes, ks)[..n] == ListNodes(g.nodes, ks[..n]);
      OneMoreKey(g.nodes, ks);
    }
  }

  lemma {:induction false} EdgesRebuilt(g: Graph, ks: seq<string>)
    requires Coherent(g) && forall i :: 0 <= i < |ks| ==> ks[i] in g.edges
    ensures AddAllEdges(g.(edges := map[]), ListEdges(g.edges, ks)) == Success(g.(edges := Restrict(g.edges, ks)))
  {
    hide EdgeError, Endpoints, FirstMissing;
    if ks != [] {
      hide Restrict;
      var n := |ks| - 1;
      EdgesRebuilt(g, ks[..n]);
      assert ListEdges(g.edges, ks)[..n] == ListEdges(g.edges, ks[..n]);
      assert Fits(g, g.edges[ks[n]]);
      TakenIffFits(g.(edges := Restrict(g.edges, ks[..n])), g.edges[ks[n]]);
      OneMoreKey(g.edges, ks);
    }
  }

  /** Rebuilding a coherent graph's export gives the graph back. */
  lemma RebuildInvertsExport(g: Graph)
    requires Coherent(g)
    ensures Rebuilding(ExportOf(g)) == Success(g)
  {
    hide Coherent, Restrict, SortedSet, AddAllNodes, AddAllEdges, ListNodes, ListEdges;
    assert g.cut != map[] by { CoherentCut(g); }
    AllKeys(g.nodes);
    AllKeys(g.edges);
    NodesRebuilt(g, SortedSet(g.nodes.Keys));
    EdgesRebuilt(g, SortedSet(g.edges.Keys));
    assert g == g.(nodes := g.nodes, edges := g.edges);
  }

  lemma CoherentCut(g: Graph)
    requires Coherent(g)
    ensures g.cut != map[]
  {
  }

  /** Whatever was done to a graph, its export rebuilds it; so equal exports come from equal graphs. */
  lemma EveryGraphRebuilds(cut: Record, maxOrder: int, maxCombinations: int, ops: seq<Op>)
    requires cut != map[] && forall i :: 0 <= i < |ops| ==> Constructed(ops[i])
    ensures var g := Run(Empty(cut, maxOrder, maxCombinations), ops);
            Rebuilding(ExportOf(g)) == Success(g)
  {
    hide Rebuilding, ExportOf, Run;
    RunKeepsCoherent(Empty(cut, maxOrder, maxCombinations), ops);
    RebuildInvertsExport(Run(Empty(cut, maxOrder, maxCombinations), ops));
  }
}
