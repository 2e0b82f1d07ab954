/** execution/dag.py: acceptance of an execution DAG by a depth-first search in three colours. */
module ExecutionDag {
  import opened Wrappers
  import opened Digraphs
  import opened Ordering

  datatype Verdict = Verdict(nodes: seq<string>, edgeCount: nat)
  datatype DagError = ContentReferenceCycle

  const WHITE := 0
  const GRAY := 1
  const BLACK := 2

  /** The relation an edge list denotes. */
  ghost function RelationOf(edges: seq<(string, string)>): Relation {
    set i | 0 <= i < |edges| :: edges[i]
  }

  ghost function NodesOf(edges: seq<(string, string)>): set<string> {
    (set i | 0 <= i < |edges| :: edges[i].0) + (set i | 0 <= i < |edges| :: edges[i].1)
  }

  type Colouring = map<string, int>

  ghost predicate Coloured(visited: Colouring, n: string, colour: int) {
    n in visited && visited[n] == colour
  }

  ghost function White(visited: Colouring): set<string> {
    set n | n in visited && visited[n] == WHITE
  }

  /** The colour invariant: path is the gray walk from the root of the search; black nodes are ranked in
      the order they were finished, and lead to black nodes ranked lower only. */
  ghost predicate Colours(e: Relation, visited: Colouring, rank: map<string, nat>, path: seq<string>) {
    && (forall x, y :: (x, y) in e ==> x in visited && y in visited)
    && (forall n :: n in visited ==> WHITE <= visited[n] <= BLACK)
    && (forall n :: Coloured(visited, n, GRAY) <==> n in path)
    && (path != [] ==> Walk(e, path))
    && (forall n :: Coloured(visited, n, BLACK) <==> n in rank)
    && (forall n :: n in rank ==> rank[n] < |rank|)
    && Ranked(e, rank)
  }

  /** A white successor of the last gray node turns gray. */
  lemma Enter(e: Relation, visited: Colouring, rank: map<string, nat>, path: seq<string>, node: string)
    requires Colours(e, visited, rank, path) && Coloured(visited, node, WHITE)
    requires path != [] ==> (path[|path| - 1], node) in e
    ensures Colours(e, visited[node := GRAY], rank, path + [node]) && node !in path
    ensures White(visited[node := GRAY]) < White(visited)
  {
    assert node in White(visited);
    assert forall n :: n != node ==> (Coloured(visited[node := GRAY], n, GRAY) <==> Coloured(visited, n, GRAY));
  }

  /** The last gray node turns black once all its successors are. */
  lemma Leave(e: Relation, visited: Colouring, rank: map<string, nat>, path: seq<string>, node: string)
    requires Colours(e, visited, rank, path + [node]) && node !in path
    requires forall y :: (node, y) in e ==> Coloured(visited, y, BLACK)
    ensures Colours(e, visited[node := BLACK], rank[node := |rank|], path)
    ensures White(visited[node := BLACK]) <= White(visited)
    ensures Blacker(visited, visited[node := BLACK]) && Coloured(visited[node := BLACK], node, BLACK)
  {
    assert node in path + [node];
    assert Coloured(visited, node, GRAY);
    var visited', rank' := visited[node := BLACK], rank[node := |rank|];
    assert node !in rank;
    assert |rank'| == |rank| + 1;
    WalkPrefix(e, path, node);
    assert forall n :: n != node ==> (Coloured(visited', n, GRAY) <==> Coloured(visited, n, GRAY));
    assert forall n :: n != node ==> (Coloured(visited', n, BLACK) <==> Coloured(visited, n, BLACK));
  }

  /** Black nodes stay black. */
  ghost predicate Blacker(before: Colouring, after: Colouring) {
    before.Keys == after.Keys && forall n :: Coloured(before, n, BLACK) ==> Coloured(after, n, BLACK)
  }

  lemma MeetsGray(e: Relation, visited: Colouring, rank: map<string, nat>, path: seq<string>, node: string, y: string)
    requires Colours(e, visited, rank, path + [node]) && (node, y) in e && Coloured(visited, y, GRAY)
    ensures Cyclic(e)
  {
    var w := path + [node];
    var i :| 0 <= i < |w| && w[i] == y;
    ClosingWalk(e, w, i);
  }

  /** The state that the nested search function shares with its caller. */
  class ColourSearch {
    const adj: map<string, seq<string>>
    var visited: Colouring
    /** Black nodes, in the order they were finished. */
    ghost var rank: map<string, nat>

    constructor (adj: map<string, seq<string>>, nodes: set<string>)
      ensures this.adj == adj && rank == map[]
      ensures visited == map n | n in nodes :: WHITE
    {
      this.adj := adj;
      visited := map n | n in nodes :: WHITE;
      rank := map[];
    }

    ghost function Edges(): Relation {
      set x, i | x in adj && 0 <= i < |adj[x]| :: (x, adj[x][i])
    }

    /** The inner dfs: true when it meets a gray node. */
    method Dfs(node: string, ghost path: seq<string>) returns (cycle: bool)
      requires Colours(Edges(), visited, rank, path) && Coloured(visited, node, WHITE)
      requires path != [] ==> (path[|path| - 1], node) in Edges()
      modifies this
      ensures cycle ==> Cyclic(Edges())
      ensures !cycle ==> Colours(Edges(), visited, rank, path) && Coloured(visited, node, BLACK)
      ensures !cycle ==> Blacker(old(visited), visited) && White(visited) < White(old(visited))
      decreases White(visited)
    {
      hide Colours, White, Cyclic, Edges;
      ghost var e := Edges();
      Enter(e, visited, rank, path, node);
      visited := visited[node := GRAY];
      var neighbours := if node in adj then adj[node] else [];
      EdgesOut(node);
      for i := 0 to |neighbours|
        invariant Colours(e, visited, rank, path + [node])
        invariant White(visited) < White(old(visited))
        invariant Blacker(old(visited), visited)
        invariant forall j :: 0 <= j < i ==> Coloured(visited, neighbours[j], BLACK)
      {
        var neighbour := neighbours[i];
        assert (node, neighbour) in e;
        Endpoints(e, visited, rank, path + [node], node, neighbour);
        if visited[neighbour] == GRAY {
          MeetsGray(e, visited, rank, path, node, neighbour);
          return true;
        }
        if visited[neighbour] == WHITE {
          var found := Dfs(neighbour, path + [node]);
          if found {
            return true;
          }
        }
      }
      Leave(e, visited, rank, path, node);
      visited := visited[node := BLACK];
      rank := rank[node := |rank|];
      return false;
    }

    lemma EdgesOut(node: string)
      ensures forall y :: (node, y) in Edges() <==> node in adj && y in adj[node]
    {
    }
  }

  lemma Endpoints(e: Relation, visited: Colouring, rank: map<string, nat>, path: seq<string>, x: string, y: string)
    requires Colours(e, visited, rank, path) && (x, y) in e
    ensures x in visited && y in visited && WHITE <= visited[y] <= BLACK
  {
  }

  lemma Uncoloured(e: Relation, nodes: set<string>)
    requires forall x, y :: (x, y) in e ==> x in nodes && y in nodes
    ensures Colours(e, map n | n in nodes :: WHITE, map[], [])
  {
  }

  lemma AllBlack(e: Relation, visited: Colouring, rank: map<string, nat>)
    requires Colours(e, visited, rank, [])
    requires forall n :: n in visited ==> Coloured(visited, n, BLACK)
    ensures !Cyclic(e)
  {
    RankedIsAcyclic(e, rank);
  }

  /** The adjacency lists and the node set of validate_execution_dag. */
  method BuildAdjacency(edges: seq<(string, string)>) returns (adj: map<string, seq<string>>, nodes: set<string>)
    ensures nodes == NodesOf(edges)
    ensures forall x, y :: (x, y) in RelationOf(edges) <==> x in adj && y in adj[x]
    ensures forall x, y :: (x, y) in RelationOf(edges) ==> x in nodes && y in nodes
  {
    adj, nodes := map[], {};
    for i := 0 to |edges|
      invariant nodes == NodesOf(edges[..i])
      invariant forall x, y :: (x, y) in RelationOf(edges[..i]) <==> x in adj && y in adj[x]
    {
      var (src, dst) := edges[i];
      OneMore(edges, i);
      adj := adj[src := (if src in adj then adj[src] else []) + [dst]];
      nodes := nodes + {src, dst};
    }
    assert edges[..|edges|] == edges;
  }

  lemma OneMore(edges: seq<(string, string)>, i: nat)
    requires i < |edges|
    ensures RelationOf(edges[..i + 1]) == RelationOf(edges[..i]) + {edges[i]}
    ensures NodesOf(edges[..i + 1]) == NodesOf(edges[..i]) + {edges[i].0, edges[i].1}
  {
    assert edges[..i + 1] == edges[..i] + [edges[i]];
  }

  /** validate_execution_dag on parsed edges. */
  method ValidateExecutionDag(edges: seq<(string, string)>) returns (r: Result<Verdict, DagError>)
    ensures r.Failure? <==> Cyclic(RelationOf(edges))
    ensures r.Success? ==> r.value == Verdict(SortedSet(NodesOf(edges)), |edges|)
  {
    hide Colours, White, Cyclic, Walk;
    var adj, nodes := BuildAdjacency(edges);
    ghost var e := RelationOf(edges);
    var search := new ColourSearch(adj, nodes);
    assert search.Edges() == e;
    hide ColourSearch.Edges, RelationOf, NodesOf;
    Uncoloured(e, nodes);
    var todo := nodes;
    while todo != {}
      invariant search.Edges() == e && search.visited.Keys == nodes && todo <= nodes
      invariant Colours(e, search.visited, search.rank, [])
      invariant forall n :: n in nodes - todo ==> Coloured(search.visited, n, BLACK)
      decreases |todo|
    {
      var n :| n in todo;
      todo := todo - {n};
      ghost var before := search.visited;
      if search.visited[n] == WHITE {
        var cycle := search.Dfs(n, []);
        if cycle {
          return Failure(ContentReferenceCycle);
        }
      } else {
        NoGray(e, search.visited, search.rank, n);
      }
    }
    AllBlack(e, search.visited, search.rank);
    var listing := SortSet(nodes);
    return Success(Verdict(listing, |edges|));
  }

  lemma NoGray(e: Relation, visited: Colouring, rank: map<string, nat>, n: string)
    requires Colours(e, visited, rank, []) && n in visited && visited[n] != WHITE
    ensures Coloured(visited, n, BLACK)
  {
    assert !Coloured(visited, n, GRAY);
  }
}
