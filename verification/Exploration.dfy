/** The bounded breadth-first explorer of deepen/exploration.py, and its agreement with StateModels. */
module Exploration {
  import opened Wrappers
  import opened StateModels

  datatype Bounds = Bounds(maxStates: int, maxDepth: int, maxTransitions: int)

  datatype Status = ExhaustedWithinBound | BoundReached | ForbiddenStateFound | InvalidModel

  datatype Reason =
    | InvalidStart | InitialIsForbidden | ForbiddenReached
    | MaxStates | MaxDepth | MaxTransitions | FullyExplored

  datatype ExplorationResult = ExplorationResult(
    status: Status, statesVisited: nat, transitionsExplored: nat, maxDepthReached: nat,
    reason: Reason, trace: seq<Action>, forbiddenHit: Option<string>)

  /** A queue element: a configuration, its depth and the events that led to it. */
  datatype Entry = Entry(config: Config, depth: nat, path: seq<Action>)

  // ----- reachability under every enabled transition, contexts absent -----

  ghost predicate Fires(m: Model, k: int, c: Config, d: Config) {
    0 <= k < |m.transitions| && Enabled(m.transitions[k], c, None) && d == Fire(m.transitions[k], c, None)
  }

  ghost predicate Edge(m: Model, c: Config, d: Config) {
    exists k :: Fires(m, k, c, d)
  }

  ghost predicate ReachableIn(m: Model, start: Config, n: nat, c: Config)
    decreases n
  {
    if n == 0 then c == start else exists p :: ReachableIn(m, start, n - 1, p) && Edge(m, p, c)
  }

  ghost predicate Reachable(m: Model, start: Config, c: Config) {
    exists n: nat :: ReachableIn(m, start, n, c)
  }

  /** Some run from start to c takes transitions whose events are those of the trace. */
  ghost predicate Traced(m: Model, start: Config, trace: seq<Action>, c: Config)
    decreases |trace|
  {
    if trace == [] then
      c == start
    else
      var n := |trace| - 1;
      exists p, k ::
        && Fires(m, k, p, c)
        && trace[n] == (m.transitions[k].event, None)
        && Traced(m, start, trace[..n], p)
  }

  lemma {:induction false} TracedIsReachable(m: Model, start: Config, trace: seq<Action>, c: Config)
    requires Traced(m, start, trace, c)
    ensures ReachableIn(m, start, |trace|, c)
    decreases |trace|
  {
    if trace != [] {
      var n := |trace| - 1;
      var p, k :| Fires(m, k, p, c) && trace[n] == (m.transitions[k].event, None) && Traced(m, start, trace[..n], p);
      TracedIsReachable(m, start, trace[..n], p);
      assert Edge(m, p, c);
    }
  }

  // ----- the invariant of the search -----

  /** dist gives every visited configuration its breadth-first depth; nothing visited is forbidden. */
  ghost predicate Sound(m: Model, start: Config, dist: map<Config, nat>) {
    && start in dist && dist[start] == 0
    && forall c :: c in dist ==> ReachableIn(m, start, dist[c], c) && !IsForbidden(m, c)
  }

  /** Expanded configurations have all their successors visited, at most one level deeper. */
  ghost predicate Closed(m: Model, dist: map<Config, nat>, done: set<Config>) {
    && done <= dist.Keys
    && forall c, d :: c in done && Edge(m, c, d) ==> d in dist && dist[d] <= dist[c] + 1
  }

  ghost predicate QueueOk(m: Model, start: Config, q: seq<Entry>, dist: map<Config, nat>) {
    forall i :: 0 <= i < |q| ==>
      && q[i].config in dist
      && dist[q[i].config] == q[i].depth == |q[i].path|
      && Traced(m, start, q[i].path, q[i].config)
  }

  /** Depths never decrease along the queue and span at most two levels. */
  ghost predicate Ordered(q: seq<Entry>) {
    forall i, j :: 0 <= i <= j < |q| ==> q[i].depth <= q[j].depth <= q[0].depth + 1
  }

  ghost predicate Queued(q: seq<Entry>, c: Config) {
    exists i :: 0 <= i < |q| && q[i].config == c
  }

  ghost predicate Search(m: Model, start: Config, maxDepth: int, dist: map<Config, nat>,
                         done: set<Config>, q: seq<Entry>)
  {
    && Sound(m, start, dist)
    && Closed(m, dist, done)
    && QueueOk(m, start, q, dist)
    && Ordered(q)
    && (forall c :: c in dist ==> c in done || dist[c] >= maxDepth || Queued(q, c))
    && (forall i :: 0 <= i < |q| ==> q[i].config !in done)
    && (forall i, j :: 0 <= i < j < |q| ==> q[i].config != q[j].config)
  }

  lemma Initially(m: Model, start: Config, maxDepth: int)
    requires !IsForbidden(m, start)
    ensures Search(m, start, maxDepth, map[start := 0], {}, [Entry(start, 0, [])])
    ensures Levels(map[start := 0], [Entry(start, 0, [])], 0)
  {
    var dist: map<Config, nat> := map[start := 0];
    assert [Entry(start, 0, [])][0].config == start;
    assert start in dist && dist[start] == 0;
  }

  lemma DiscoverDist(m: Model, start: Config, dist: map<Config, nat>, done: set<Config>, c: Config, k: int, d: Config)
    requires Sound(m, start, dist) && Closed(m, dist, done)
    requires c in dist && Fires(m, k, c, d) && d !in dist && !IsForbidden(m, d)
    ensures Sound(m, start, dist[d := dist[c] + 1]) && Closed(m, dist[d := dist[c] + 1], done)
  {
    hide IsForbidden, Enabled, Fire;
    assert Edge(m, c, d);
    assert ReachableIn(m, start, dist[c] + 1, d);
  }

  lemma DiscoverQueue(m: Model, start: Config, q: seq<Entry>, dist: map<Config, nat>, k: int, d: Config)
    requires QueueOk(m, start, q, dist) && q != [] && Fires(m, k, q[0].config, d) && d !in dist
    ensures QueueOk(m, start, q + [Entry(d, q[0].depth + 1, q[0].path + [(m.transitions[k].event, None)])],
                    dist[d := q[0].depth + 1])
  {
    hide Enabled, Fire;
    var path := q[0].path + [(m.transitions[k].event, None)];
    assert path[..|path| - 1] == q[0].path;
    assert Traced(m, start, path, d);
  }

  /** A new successor of the head of the queue joins the back. */
  lemma Discover(m: Model, start: Config, maxDepth: int, dist: map<Config, nat>,
                 done: set<Config>, q: seq<Entry>, k: int, d: Config)
    requires Search(m, start, maxDepth, dist, done, q)
    requires q != [] && Fires(m, k, q[0].config, d) && d !in dist && !IsForbidden(m, d)
    ensures Search(m, start, maxDepth, dist[d := q[0].depth + 1], done,
                   q + [Entry(d, q[0].depth + 1, q[0].path + [(m.transitions[k].event, None)])])
  {
    hide IsForbidden, Enabled, Fire, Sound, Edge, Traced, Queued;
    DiscoverDist(m, start, dist, done, q[0].config, k, d);
    DiscoverQueue(m, start, q, dist, k, d);
    Enqueued(q, Entry(d, q[0].depth + 1, q[0].path + [(m.transitions[k].event, None)]));
  }

  lemma Enqueued(q: seq<Entry>, e: Entry)
    ensures forall c :: Queued(q, c) ==> Queued(q + [e], c)
    ensures Queued(q + [e], e.config)
  {
    var q' := q + [e];
    forall c | Queued(q, c)
      ensures Queued(q', c)
    {
      var i :| 0 <= i < |q| && q[i].config == c;
      assert q'[i].config == c;
    }
    assert q'[|q|].config == e.config;
  }

  /** The head has been expanded: all its successors are visited. */
  lemma Expanded(m: Model, start: Config, maxDepth: int, dist: map<Config, nat>,
                 done: set<Config>, q: seq<Entry>)
    requires Search(m, start, maxDepth, dist, done, q)
    requires q != []
    requires forall d :: Edge(m, q[0].config, d) ==> d in dist && dist[d] <= q[0].depth + 1
    ensures Search(m, start, maxDepth, dist, done + {q[0].config}, q[1..])
  {
    Dequeued(q);
  }

  /** The head lies at the depth bound and is not expanded. */
  lemma Skipped(m: Model, start: Config, maxDepth: int, dist: map<Config, nat>,
                done: set<Config>, q: seq<Entry>)
    requires Search(m, start, maxDepth, dist, done, q)
    requires q != [] && q[0].depth >= maxDepth
    ensures Search(m, start, maxDepth, dist, done, q[1..])
  {
    Dequeued(q);
  }

  lemma Dequeued(q: seq<Entry>)
    requires q != []
    ensures Ordered(q) ==> Ordered(q[1..])
    ensures forall c :: Queued(q, c) ==> c == q[0].config || Queued(q[1..], c)
  {
    forall c | Queued(q, c) && c != q[0].config
      ensures Queued(q[1..], c)
    {
      var i :| 0 <= i < |q| && q[i].config == c;
      assert q[1..][i - 1].config == c;
    }
  }

  /** When everything nearer than depth is expanded, everything reachable in so many steps is visited. */
  lemma {:induction false} Frontier(m: Model, start: Config, dist: map<Config, nat>, done: set<Config>, depth: nat,
                                    n: nat, c: Config)
    requires Sound(m, start, dist) && Closed(m, dist, done)
    requires forall p :: p in dist && dist[p] < depth ==> p in done
    requires n <= depth && ReachableIn(m, start, n, c)
    ensures c in dist && dist[c] <= n
    decreases n
  {
    if n > 0 {
      var p :| ReachableIn(m, start, n - 1, p) && Edge(m, p, c);
      Frontier(m, start, dist, done, depth, n - 1, p);
    }
  }

  /** No run of at most depth steps ends in a forbidden configuration. */
  ghost predicate SafeFor(m: Model, start: Config, depth: int) {
    forall n: nat, c :: n <= depth && ReachableIn(m, start, n, c) ==> !IsForbidden(m, c)
  }

  lemma FrontierIsSafe(m: Model, start: Config, dist: map<Config, nat>, done: set<Config>, depth: int)
    requires Sound(m, start, dist) && Closed(m, dist, done)
    requires forall p :: p in dist && dist[p] < depth ==> p in done
    ensures SafeFor(m, start, depth)
  {
    forall n: nat, c | n <= depth && ReachableIn(m, start, n, c)
      ensures !IsForbidden(m, c)
    {
      Frontier(m, start, dist, done, depth, n, c);
    }
  }

  /** The head's depth bounds every level below it. */
  lemma HeadIsFrontier(m: Model, start: Config, maxDepth: int, dist: map<Config, nat>,
                       done: set<Config>, q: seq<Entry>)
    requires Search(m, start, maxDepth, dist, done, q)
    requires q != [] && q[0].depth < maxDepth
    ensures SafeFor(m, start, q[0].depth)
  {
    FrontierIsSafe(m, start, dist, done, q[0].depth);
  }

  // ----- what a finished search says -----

  /** seen is exactly the reachable set, it is safe, and depth is the greatest distance in it. */
  ghost predicate CompleteSearch(m: Model, start: Config, seen: set<Config>, depth: nat) {
    && (forall c :: c in seen <==> Reachable(m, start, c))
    && (forall c :: c in seen ==> !IsForbidden(m, c))
    && (forall c :: c in seen ==> exists n: nat :: n <= depth && ReachableIn(m, start, n, c))
    && (exists c :: c in seen && forall n: nat :: ReachableIn(m, start, n, c) ==> depth <= n)
  }

  lemma SearchComplete(m: Model, start: Config, maxDepth: int, dist: map<Config, nat>, done: set<Config>, depth: nat)
    requires Search(m, start, maxDepth, dist, done, [])
    requires forall c :: c in dist ==> dist[c] <= depth < maxDepth
    requires exists c :: c in dist && dist[c] == depth
    ensures CompleteSearch(m, start, dist.Keys, depth)
  {
    hide IsForbidden, Edge, ReachableIn, Traced, QueueOk, Ordered;
    forall c | c in dist
      ensures c in done
    {
      assert !Queued([], c);
    }
    forall n: nat, c | ReachableIn(m, start, n, c)
      ensures c in dist && dist[c] <= n
    {
      Frontier(m, start, dist, done, n, n, c);
    }
    forall c | c in dist
      ensures Reachable(m, start, c)
      ensures exists n: nat :: n <= depth && ReachableIn(m, start, n, c)
    {
      assert ReachableIn(m, start, dist[c], c);
    }
  }

  /** trace leads to a forbidden configuration, and no shorter run does. */
  ghost predicate ShortestCounterexample(m: Model, start: Config, trace: seq<Action>, hit: Option<string>) {
    && (exists c, i :: Traced(m, start, trace, c) && FirstMatch(m, c, i) && hit == Some(m.forbidden[i].id))
    && SafeFor(m, start, |trace| - 1)
  }

  /** The transitions out of a state, in declaration order. */
  function Outgoing(m: Model, state: string, k: nat): (ks: seq<nat>)
    requires k <= |m.transitions|
    ensures forall i :: i in ks <==> 0 <= i < k && m.transitions[i].source == state
  {
    if k == 0 then []
    else if m.transitions[k - 1].source == state then Outgoing(m, state, k - 1) + [k - 1]
    else Outgoing(m, state, k - 1)
  }

  ghost function OutDegree(m: Model, state: string): nat {
    |Outgoing(m, state, |m.transitions|)|
  }

  function StartOf(m: Model, initialState: Option<string>): string {
    if initialState.Some? && initialState.value != "" then initialState.value
    else if m.initialStates != [] then m.initialStates[0]
    else ""
  }

  function StartConfig(m: Model, initialState: Option<string>): Config {
    Config(StartOf(m, initialState), m.variables)
  }

  /** The number of transitions looked at when the configurations of order are expanded in turn. */
  ghost function Looked(m: Model, order: seq<Config>): nat {
    if order == [] then 0
    else Looked(m, order[..|order| - 1]) + OutDegree(m, order[|order| - 1].state)
  }

  /** Every configuration of seen was expanded exactly once, which took count transitions. */
  ghost predicate ExpandedOnce(m: Model, seen: set<Config>, count: nat) {
    exists order: seq<Config> :: Expansion(order, seen) && count == Looked(m, order)
  }

  ghost predicate Expansion(order: seq<Config>, done: set<Config>) {
    && (forall c :: c in done <==> c in order)
    && (forall i, j :: 0 <= i < j < |order| ==> order[i] != order[j])
  }

  /** Depths dequeued so far reach up to level, and what is queued lies no nearer. */
  ghost predicate Levels(dist: map<Config, nat>, q: seq<Entry>, level: nat) {
    && (exists c :: c in dist && dist[c] == level)
    && (forall i :: 0 <= i < |q| ==> q[i].depth >= level)
    && (forall c :: c in dist ==> dist[c] <= level || Queued(q, c))
  }

  lemma LevelDown(m: Model, start: Config, maxDepth: int, dist: map<Config, nat>,
                  done: set<Config>, q: seq<Entry>, level: nat)
    requires Search(m, start, maxDepth, dist, done, q)
    requires q != [] && Levels(dist, q, level)
    ensures Levels(dist, q[1..], q[0].depth) && q[0].depth >= level
  {
    Dequeued(q);
    assert q[0].config in dist;
    forall c | c in dist && !Queued(q[1..], c)
      ensures dist[c] <= q[0].depth
    {
      if c != q[0].config {
        assert !Queued(q, c);
      }
    }
  }

  lemma LevelUp(dist: map<Config, nat>, q: seq<Entry>, level: nat, e: Entry)
    requires Levels(dist, q, level) && e.config !in dist && e.depth >= level
    ensures Levels(dist[e.config := e.depth], q + [e], level)
  {
    var near :| near in dist && dist[near] == level;
    assert dist[e.config := e.depth][near] == level;
    Enqueued(q, e);
  }

  lemma NothingExpanded(m: Model)
    ensures Expansion([], {}) && Looked(m, []) == 0
  {
  }

  lemma ExpansionGrows(m: Model, start: Config, maxDepth: int, dist: map<Config, nat>, done: set<Config>,
                       q: seq<Entry>, order: seq<Config>)
    requires Search(m, start, maxDepth, dist, done, q)
    requires q != [] && Expansion(order, done)
    ensures Expansion(order + [q[0].config], done + {q[0].config})
    ensures Looked(m, order + [q[0].config])
         == Looked(m, order) + OutDegree(m, q[0].config.state)
  {
    var c := q[0].config;
    var order' := order + [c];
    assert order'[..|order'| - 1] == order;
    assert order'[|order|] == c;
  }

  /** The head fires into a forbidden configuration. */
  lemma Counterexample(m: Model, start: Config, maxDepth: int, dist: map<Config, nat>,
                       done: set<Config>, q: seq<Entry>, k: int, d: Config, i: int)
    requires Search(m, start, maxDepth, dist, done, q)
    requires q != [] && q[0].depth < maxDepth
    requires Fires(m, k, q[0].config, d) && FirstMatch(m, d, i)
    ensures ShortestCounterexample(m, start, q[0].path + [(m.transitions[k].event, None)], Some(m.forbidden[i].id))
    ensures |q[0].path| == q[0].depth
  {
    HeadIsFrontier(m, start, maxDepth, dist, done, q);
    var path, c := q[0].path, q[0].config;
    var trace := path + [(m.transitions[k].event, None)];
    assert trace[..|trace| - 1] == path;
    assert Traced(m, start, trace, d);
  }

  lemma Exhausted(m: Model, start: Config, maxDepth: int, dist: map<Config, nat>, done: set<Config>,
                  order: seq<Config>, level: nat)
    requires Search(m, start, maxDepth, dist, done, [])
    requires Levels(dist, [], level) && Expansion(order, done) && level < maxDepth
    ensures CompleteSearch(m, start, dist.Keys, level)
    ensures ExpandedOnce(m, dist.Keys, Looked(m, order))
  {
    forall c | c in dist
      ensures c in done && dist[c] <= level
    {
      assert !Queued([], c);
    }
    SearchComplete(m, start, maxDepth, dist, done, level);
    assert done == dist.Keys;
    assert Expansion(order, dist.Keys);
  }

  lemma DepthBounded(m: Model, start: Config, maxDepth: int, dist: map<Config, nat>, done: set<Config>)
    requires Search(m, start, maxDepth, dist, done, [])
    ensures SafeFor(m, start, maxDepth)
  {
    forall c | c in dist && dist[c] < maxDepth
      ensures c in done
    {
      assert !Queued([], c);
    }
    FrontierIsSafe(m, start, dist, done, maxDepth);
  }

  /** The transitions ks lead from c to visited configurations no deeper than depth. */
  ghost predicate SuccessorsSeen(m: Model, c: Config, ks: seq<nat>, dist: map<Config, nat>, depth: nat) {
    forall j, d :: 0 <= j < |ks| && Fires(m, ks[j], c, d) ==> d in dist && dist[d] <= depth
  }

  lemma NoneSeen(m: Model, c: Config, dist: map<Config, nat>, depth: nat)
    ensures SuccessorsSeen(m, c, [], dist, depth)
  {
  }

  lemma SeenGrows(m: Model, c: Config, ks: seq<nat>, k: nat, dist: map<Config, nat>, dist': map<Config, nat>,
                  depth: nat)
    requires SuccessorsSeen(m, c, ks, dist, depth) && k < |m.transitions|
    requires forall d :: d in dist ==> d in dist' && dist'[d] == dist[d]
    requires Enabled(m.transitions[k], c, None) ==>
               var d := Fire(m.transitions[k], c, None); d in dist' && dist'[d] <= depth
    ensures SuccessorsSeen(m, c, ks + [k], dist', depth)
  {
  }

  lemma NotDeeper(m: Model, start: Config, maxDepth: int, dist: map<Config, nat>,
                  done: set<Config>, q: seq<Entry>)
    requires Search(m, start, maxDepth, dist, done, q)
    requires q != [] && Levels(dist, q[1..], q[0].depth)
    ensures forall c :: c in dist ==> dist[c] <= q[0].depth + 1
  {
    forall c | c in dist
      ensures dist[c] <= q[0].depth + 1
    {
      if dist[c] > q[0].depth {
        var i :| 0 <= i < |q[1..]| && q[1..][i].config == c;
        assert q[i + 1].config == c;
      }
    }
  }

  lemma AllSuccessors(m: Model, c: Config, available: seq<nat>, dist: map<Config, nat>, depth: nat)
    requires available == Outgoing(m, c.state, |m.transitions|)
    requires SuccessorsSeen(m, c, available, dist, depth)
    ensures forall d :: Edge(m, c, d) ==> d in dist && dist[d] <= depth
  {
    forall d | Edge(m, c, d)
      ensures d in dist && dist[d] <= depth
    {
      var k :| Fires(m, k, c, d);
      assert k in available;
      var j :| 0 <= j < |available| && available[j] == k;
    }
  }

  lemma Visited(m: Model, start: Config, maxDepth: int, dist: map<Config, nat>,
                done: set<Config>, q: seq<Entry>)
    requires Search(m, start, maxDepth, dist, done, q)
    ensures forall c :: c in dist ==> Reachable(m, start, c)
  {
    forall c | c in dist
      ensures Reachable(m, start, c)
    {
      assert ReachableIn(m, start, dist[c], c);
    }
  }

  /** The number of transitions that may be looked at. */
  function Allowed(bounds: Bounds): nat {
    if bounds.maxTransitions < 0 then 0 else bounds.maxTransitions
  }

  lemma OneMoreTransition(bounds: Bounds, count: nat)
    requires 0 < count <= Allowed(bounds) + 1
    ensures count > bounds.maxTransitions <==> count == Allowed(bounds) + 1
  {
  }

  /** Some visited configuration lies at the depth bound: no shorter run leads there. */
  ghost predicate FarOut(m: Model, start: Config, seen: set<Config>, depth: int) {
    exists c :: c in seen && forall n: nat :: ReachableIn(m, start, n, c) ==> n >= depth
  }

  lemma DepthBoundMet(m: Model, start: Config, maxDepth: int, dist: map<Config, nat>, done: set<Config>, level: nat)
    requires Search(m, start, maxDepth, dist, done, []) && Levels(dist, [], level) && level >= maxDepth
    ensures FarOut(m, start, dist.Keys, maxDepth)
  {
    hide IsForbidden, Edge, ReachableIn, Traced, QueueOk, Ordered;
    var c :| c in dist && dist[c] == level;
    forall p | p in dist && dist[p] < maxDepth
      ensures p in done
    {
      assert !Queued([], p);
    }
    forall n: nat | ReachableIn(m, start, n, c)
      ensures n >= maxDepth
    {
      if n < maxDepth {
        Frontier(m, start, dist, done, maxDepth, n, c);
      }
    }
  }

  /** What a result of the explorer promises about the model. seen is the set of visited configurations. */
  ghost predicate Reports(m: Model, start: Config, bounds: Bounds, r: ExplorationResult, seen: set<Config>) {
    && r.statesVisited == |seen|
    && (forall c :: c in seen ==> Reachable(m, start, c))
    && (if r.status.ForbiddenStateFound? then
          && ShortestCounterexample(m, start, r.trace, r.forbiddenHit)
          && r.maxDepthReached == |r.trace|
        else
          r.trace == [] && r.forbiddenHit.None?)
    && (match r.status
        case ExhaustedWithinBound =>
          && CompleteSearch(m, start, seen, r.maxDepthReached)
          && ExpandedOnce(m, seen, r.transitionsExplored)
          && r.reason.FullyExplored? && r.maxDepthReached < bounds.maxDepth
        case BoundReached =>
          || (r.reason.MaxDepth? && SafeFor(m, start, bounds.maxDepth) && FarOut(m, start, seen, bounds.maxDepth))
          || (r.reason.MaxStates? && r.statesVisited >= bounds.maxStates)
          || (r.reason.MaxTransitions? && r.transitionsExplored == Allowed(bounds) + 1)
        case ForbiddenStateFound => r.reason.InitialIsForbidden? || r.reason.ForbiddenReached?
        case InvalidModel => false)
  }

  lemma ReportsForbiddenAtOnce(m: Model, start: Config, bounds: Bounds, i: int, r: ExplorationResult)
    requires FirstMatch(m, start, i)
    requires r == ExplorationResult(ForbiddenStateFound, 1, 0, 0, InitialIsForbidden, [], Some(m.forbidden[i].id))
    ensures Reports(m, start, bounds, r, {start})
  {
    assert Traced(m, start, [], start);
    assert ReachableIn(m, start, 0, start);
  }

  lemma ReportsBound(m: Model, start: Config, bounds: Bounds, dist: map<Config, nat>,
                     done: set<Config>, q: seq<Entry>, r: ExplorationResult)
    requires Search(m, start, bounds.maxDepth, dist, done, q)
    requires r.status.BoundReached? && r.trace == [] && r.forbiddenHit.None? && r.statesVisited == |dist.Keys|
    requires
      || (r.reason.MaxDepth? && q == [] && Levels(dist, [], r.maxDepthReached) && r.maxDepthReached >= bounds.maxDepth)
      || (r.reason.MaxStates? && r.statesVisited >= bounds.maxStates)
      || (r.reason.MaxTransitions? && r.transitionsExplored == Allowed(bounds) + 1)
    ensures Reports(m, start, bounds, r, dist.Keys)
  {
    Visited(m, start, bounds.maxDepth, dist, done, q);
    if r.reason.MaxDepth? {
      DepthBounded(m, start, bounds.maxDepth, dist, done);
      DepthBoundMet(m, start, bounds.maxDepth, dist, done, r.maxDepthReached);
    }
  }

  lemma ReportsCounterexample(m: Model, start: Config, bounds: Bounds, dist: map<Config, nat>,
                              done: set<Config>, q: seq<Entry>, k: int, d: Config, i: int,
                              r: ExplorationResult)
    requires Search(m, start, bounds.maxDepth, dist, done, q)
    requires q != [] && q[0].depth < bounds.maxDepth
    requires Fires(m, k, q[0].config, d) && FirstMatch(m, d, i)
    requires r.status.ForbiddenStateFound? && r.reason.ForbiddenReached? && r.statesVisited == |dist.Keys|
    requires r.trace == q[0].path + [(m.transitions[k].event, None)] && r.forbiddenHit == Some(m.forbidden[i].id)
    requires r.maxDepthReached == q[0].depth + 1
    ensures Reports(m, start, bounds, r, dist.Keys)
  {
    Visited(m, start, bounds.maxDepth, dist, done, q);
    Counterexample(m, start, bounds.maxDepth, dist, done, q, k, d, i);
  }

  lemma ReportsExhausted(m: Model, start: Config, bounds: Bounds, dist: map<Config, nat>, done: set<Config>,
                         order: seq<Config>, r: ExplorationResult)
    requires Search(m, start, bounds.maxDepth, dist, done, [])
    requires Levels(dist, [], r.maxDepthReached) && Expansion(order, done)
    requires r.status.ExhaustedWithinBound? && r.reason.FullyExplored? && r.trace == [] && r.forbiddenHit.None?
    requires r.statesVisited == |dist.Keys| && r.transitionsExplored == Looked(m, order)
    requires r.maxDepthReached < bounds.maxDepth
    ensures Reports(m, start, bounds, r, dist.Keys)
  {
    Visited(m, start, bounds.maxDepth, dist, done, []);
    Exhausted(m, start, bounds.maxDepth, dist, done, order, r.maxDepthReached);
  }

  /** The loop of explore over the transitions out of the dequeued configuration: it discovers every
      successor, or stops the search at a forbidden one or at the transition bound. */
  method Expand(m: Model, ghost start: Config, bounds: Bounds, curr: Entry, queue: seq<Entry>, visited: set<Config>,
                transitionsCount: nat, ghost dist: map<Config, nat>, ghost done: set<Config>)
    returns (stop: Option<ExplorationResult>, queue': seq<Entry>, visited': set<Config>, transitionsCount': nat,
             ghost dist': map<Config, nat>)
    requires Search(m, start, bounds.maxDepth, dist, done, [curr] + queue)
    requires visited == dist.Keys && Levels(dist, queue, curr.depth) && curr.depth < bounds.maxDepth
    requires transitionsCount <= Allowed(bounds)
    ensures stop.Some? ==> !stop.value.status.InvalidModel? && Reports(m, start, bounds, stop.value, dist'.Keys)
    ensures stop.None? ==>
              && Search(m, start, bounds.maxDepth, dist', done + {curr.config}, queue')
              && visited' == dist'.Keys && Levels(dist', queue', curr.depth)
              && transitionsCount' == transitionsCount + OutDegree(m, curr.config.state) <= Allowed(bounds)
              && |visited'| - |visited| == |queue'| - |queue| >= 0
  {
    hide Search, Levels, ShortestCounterexample, CompleteSearch, SafeFor, Expansion, ExpandedOnce, Reachable,
      ReachableIn, FirstMatch, IsForbidden, Looked, Outgoing, Edge, Sound, Closed, QueueOk, Ordered, Queued, Traced,
      SuccessorsSeen, Reports, Enabled, Fire, Allowed, FarOut;
    queue', visited', transitionsCount', dist' := queue, visited, transitionsCount, dist;
    ghost var q := [curr] + queue;
    var available := Outgoing(m, curr.config.state, |m.transitions|);
    NoneSeen(m, curr.config, dist, curr.depth + 1);
    for i := 0 to |available|
      invariant q == [curr] + queue'
      invariant Search(m, start, bounds.maxDepth, dist', done, q)
      invariant visited' == dist'.Keys
      invariant Levels(dist', queue', curr.depth)
      invariant transitionsCount' == transitionsCount + i <= Allowed(bounds)
      invariant |visited'| - |visited| == |queue'| - |queue| >= 0
      invariant SuccessorsSeen(m, curr.config, available[..i], dist', curr.depth + 1)
    {
      assert available[i] in available;
      assert available[..i + 1] == available[..i] + [available[i]];
      var tr := m.transitions[available[i]];
      transitionsCount' := transitionsCount' + 1;
      OneMoreTransition(bounds, transitionsCount');
      if transitionsCount' > bounds.maxTransitions {
        var r := ExplorationResult(BoundReached, |visited'|, transitionsCount', curr.depth, MaxTransitions, [], None);
        ReportsBound(m, start, bounds, dist', done, q, r);
        return Some(r), queue', visited', transitionsCount', dist';
      }
      if !Enabled(tr, curr.config, None) {
        SeenGrows(m, curr.config, available[..i], available[i], dist', dist', curr.depth + 1);
        continue;
      }
      var next := Fire(tr, curr.config, None);
      var nextPath := curr.path + [(tr.event, None)];
      var hit := FirstForbidden(m, next);
      if hit.Some? {
        var r := ExplorationResult(ForbiddenStateFound, |visited'|, transitionsCount', curr.depth + 1,
                                   ForbiddenReached, nextPath, Some(m.forbidden[hit.value].id));
        ReportsCounterexample(m, start, bounds, dist', done, q, available[i], next, hit.value, r);
        return Some(r), queue', visited', transitionsCount', dist';
      }
      NotDeeper(m, start, bounds.maxDepth, dist', done, q);
      ghost var before := dist';
      if next !in visited' {
        Discover(m, start, bounds.maxDepth, dist', done, q, available[i], next);
        LevelUp(dist', queue', curr.depth, Entry(next, curr.depth + 1, nextPath));
        visited' := visited' + {next};
        queue' := queue' + [Entry(next, curr.depth + 1, nextPath)];
        dist' := dist'[next := curr.depth + 1];
        q := q + [Entry(next, curr.depth + 1, nextPath)];
      }
      SeenGrows(m, curr.config, available[..i], available[i], before, dist', curr.depth + 1);
    }
    assert available[..|available|] == available;
    AllSuccessors(m, curr.config, available, dist', curr.depth + 1);
    Expanded(m, start, bounds.maxDepth, dist', done, q);
    assert q[1..] == queue';
    return None, queue', visited', transitionsCount', dist';
  }

  /** BoundedModelExplorer.explore. seen is the set of visited configurations. */
  method Explore(m: Model, initialState: Option<string>, bounds: Bounds)
    returns (r: ExplorationResult, ghost seen: set<Config>)
    ensures r.status.InvalidModel? <==> StartOf(m, initialState) == "" || StartOf(m, initialState) !in m.states
    ensures !r.status.InvalidModel? ==> Reports(m, StartConfig(m, initialState), bounds, r, seen)
  {
    hide Search, Levels, ShortestCounterexample, CompleteSearch, SafeFor, Expansion, ExpandedOnce, Reachable,
      ReachableIn, FirstMatch, IsForbidden, Looked, Outgoing, Edge, Sound, Closed, QueueOk, Ordered, Queued, Traced,
      SuccessorsSeen, Reports, Enabled, Fire, OutDegree;
    var startState := StartOf(m, initialState);
    var start := Config(startState, m.variables);
    if startState == "" || startState !in m.states {
      return ExplorationResult(InvalidModel, 0, 0, 0, InvalidStart, [], None), {};
    }
    var initialHit := FirstForbidden(m, start);
    if initialHit.Some? {
      r := ExplorationResult(ForbiddenStateFound, 1, 0, 0, InitialIsForbidden, [],
                             Some(m.forbidden[initialHit.value].id));
      ReportsForbiddenAtOnce(m, start, bounds, initialHit.value, r);
      return r, {start};
    }
    var queue := [Entry(start, 0, [])];
    var visited := {start};
    var transitionsCount := 0;
    var maxDepthSeen: nat := 0;
    var bound: Option<Reason> := None;
    ghost var dist: map<Config, nat>, done := map[start := 0], {};
    ghost var order: seq<Config> := [];
    Initially(m, start, bounds.maxDepth);
    NothingExpanded(m);
    while queue != []
      invariant Search(m, start, bounds.maxDepth, dist, done, queue)
      invariant visited == dist.Keys
      invariant Levels(dist, queue, maxDepthSeen)
      invariant Expansion(order, done) && transitionsCount == Looked(m, order)
      invariant transitionsCount <= Allowed(bounds)
      invariant bound.None? || (bound == Some(MaxDepth) && maxDepthSeen >= bounds.maxDepth)
      invariant queue == [] && bound.None? ==> maxDepthSeen < bounds.maxDepth
      decreases if |visited| >= bounds.maxStates then 0 else bounds.maxStates - |visited|, |queue|
    {
      var curr := queue[0];
      ghost var q := queue;
      LevelDown(m, start, bounds.maxDepth, dist, done, q, maxDepthSeen);
      queue := queue[1..];
      maxDepthSeen := if curr.depth > maxDepthSeen then curr.depth else maxDepthSeen;
      if |visited| >= bounds.maxStates {
        r := ExplorationResult(BoundReached, |visited|, transitionsCount, maxDepthSeen, MaxStates, [], None);
        ReportsBound(m, start, bounds, dist, done, q, r);
        return r, visited;
      }
      if curr.depth >= bounds.maxDepth {
        bound := Some(MaxDepth);
        Skipped(m, start, bounds.maxDepth, dist, done, q);
        continue;
      }
      ghost var dist';
      var stop;
      assert q == [curr] + queue;
      stop, queue, visited, transitionsCount, dist' :=
        Expand(m, start, bounds, curr, queue, visited, transitionsCount, dist, done);
      if stop.Some? {
        return stop.value, dist'.Keys;
      }
      ExpansionGrows(m, start, bounds.maxDepth, dist, done, q, order);
      dist := dist';
      done := done + {curr.config};
      order := order + [curr.config];
    }
    if bound.Some? {
      r := ExplorationResult(BoundReached, |visited|, transitionsCount, maxDepthSeen, bound.value, [], None);
      ReportsBound(m, start, bounds, dist, done, queue, r);
    } else {
      r := ExplorationResult(ExhaustedWithinBound, |visited|, transitionsCount, maxDepthSeen, FullyExplored, [], None);
      ReportsExhausted(m, start, bounds, dist, done, order, r);
    }
    return r, visited;
  }

  // ----- agreement with replay -----

  /** A trace as the explorer produces it: events without contexts. */
  predicate Plain(trace: seq<Action>) {
    forall i | 0 <= i < |trace| :: trace[i].1.None?
  }

  /** A step's success is an edge, and a forbidden refusal is an edge into a forbidden configuration. */
  lemma StepIsEdge(m: Model, c: Config, event: string, cut: Option<Cut>, r: Result<Config, StepError>)
    requires StepAnswers(m, c, event, None, cut, r)
    ensures r.Success? ==> Edge(m, c, r.value) && !IsForbidden(m, r.value)
    ensures r.Failure? && r.error.ForbiddenStateReached? ==> exists d :: Edge(m, c, d) && IsForbidden(m, d)
  {
    hide IsForbidden, Enabled, Fire;
    if r.Success? || r.error.ForbiddenStateReached? {
      var k :| Selected(m, k, c, event, None);
      assert Fires(m, k, c, Fire(m.transitions[k], c, None));
      if k' :| Selected(m, k', c, event, None) {
        assert k' == k;
      }
    }
  }

  lemma {:induction false} ReplayIsRun(m: Model, start: Config, trace: seq<Action>, cut: Option<Cut>, cs: seq<Config>,
                                       i: nat)
    requires Replays(m, start, trace, cut, cs) && Plain(trace) && i <= |trace|
    ensures ReachableIn(m, start, i, cs[i])
  {
    if i > 0 {
      ReplayIsRun(m, start, trace, cut, cs, i - 1);
      StepIsEdge(m, cs[i - 1], trace[i - 1].0, cut, Success(cs[i]));
    }
  }

  /** A replay that raises FORBIDDEN_STATE_REACHED exhibits a run of its length to a forbidden configuration. */
  lemma FailedReplayIsRun(m: Model, start: Config, trace: seq<Action>, cut: Option<Cut>, e: StepError)
    requires Plain(trace) && ReplayAnswers(m, start, trace, cut, Failure(e)) && e.ForbiddenStateReached?
    ensures !SafeFor(m, start, |trace|)
  {
    hide StepAnswers;
    var n: nat, cs :| FailsAt(m, start, trace, cut, n, cs, e);
    ReplayIsRun(m, start, trace[..n], cut, cs, n);
    StepIsEdge(m, cs[n], trace[n].0, cut, Failure(e));
    var d :| Edge(m, cs[n], d) && IsForbidden(m, d);
    assert ReachableIn(m, start, n + 1, d);
  }

  /** Soundness: where the explorer found no forbidden configuration, no replay of that length raises one. */
  lemma SafeMeansNoReplayFails(m: Model, start: Config, depth: int, trace: seq<Action>, cut: Option<Cut>,
                               r: Result<seq<Config>, StepError>)
    requires SafeFor(m, start, depth) && |trace| <= depth
    requires Plain(trace) && ReplayAnswers(m, start, trace, cut, r)
    ensures r.Failure? ==> !r.error.ForbiddenStateReached?
  {
    hide ReplayAnswers;
    assert SafeFor(m, start, |trace|);
    if r.Failure? && r.error.ForbiddenStateReached? {
      FailedReplayIsRun(m, start, trace, cut, r.error);
    }
  }

  /** An exhausted search is safe at every depth, so no context-free replay whatever can raise. */
  lemma ExhaustedMeansNoReplayFails(m: Model, start: Config, seen: set<Config>, depth: nat,
                                    trace: seq<Action>, cut: Option<Cut>, r: Result<seq<Config>, StepError>)
    requires CompleteSearch(m, start, seen, depth)
    requires Plain(trace) && ReplayAnswers(m, start, trace, cut, r)
    ensures r.Failure? ==> !r.error.ForbiddenStateReached?
    ensures r.Success? ==> forall i :: 0 <= i < |r.value| ==> r.value[i] in seen
  {
    forall n: nat, c | ReachableIn(m, start, n, c)
      ensures c in seen && !IsForbidden(m, c)
    {
      assert Reachable(m, start, c);
    }
    SafeMeansNoReplayFails(m, start, |trace|, trace, cut, r);
    if r.Success? {
      forall i | 0 <= i < |r.value|
        ensures r.value[i] in seen
      {
        ReplayIsRun(m, start, trace, cut, r.value, i);
      }
    }
  }

  /** The run meets nothing forbidden before its last configuration, as every run does that the explorer follows. */
  ghost predicate CleanRun(m: Model, start: Config, trace: seq<Action>, c: Config)
    decreases |trace|
  {
    if trace == [] then
      c == start
    else
      var n := |trace| - 1;
      exists p, k ::
        && Fires(m, k, p, c)
        && trace[n] == (m.transitions[k].event, None)
        && CleanRun(m, start, trace[..n], p) && !IsForbidden(m, p)
  }

  /** Both are reported alike: they are one configuration, or forbidden under one id. */
  ghost predicate Alike(m: Model, d: Config, e: Config) {
    exists r :: Arrives(m, d, r) && Arrives(m, e, r)
  }

  /** The transitions that the event enables in c lead to what is reported alike. */
  ghost predicate AgreeAt(m: Model, c: Config, event: string) {
    forall j, k :: Passes(m, j, c, event, None) && Passes(m, k, c, event, None)
      ==> Alike(m, Fire(m.transitions[j], c, None), Fire(m.transitions[k], c, None))
  }

  /** Transitions agree wherever clean runs of the trace's beginnings lead, on the event that comes next. */
  ghost predicate AgreeAlong(m: Model, start: Config, trace: seq<Action>) {
    forall n: nat, c :: n < |trace| && CleanRun(m, start, trace[..n], c) && !IsForbidden(m, c) ==>
        AgreeAt(m, c, trace[n].0)
  }

  lemma AlongPrefix(m: Model, start: Config, trace: seq<Action>, n: nat)
    requires AgreeAlong(m, start, trace) && n <= |trace|
    ensures AgreeAlong(m, start, trace[..n])
  {
    hide AgreeAt;
    forall k: nat, c | k < n && CleanRun(m, start, trace[..n][..k], c) && !IsForbidden(m, c)
      ensures AgreeAt(m, c, trace[..n][k].0)
    {
      assert trace[..n][..k] == trace[..k];
    }
  }

  /** The replay gets through all but the last action, and there its step answers r. */
  ghost predicate LastAnswers(m: Model, start: Config, trace: seq<Action>, cut: Option<Cut>,
                              r: Result<Config, StepError>)
    requires trace != []
  {
    exists cs :: LastAnswersAfter(m, start, trace, cut, cs, r)
  }

  ghost predicate LastAnswersAfter(m: Model, start: Config, trace: seq<Action>, cut: Option<Cut>, cs: seq<Config>,
                                   r: Result<Config, StepError>)
    requires trace != []
  {
    var n := |trace| - 1;
    |cs| == |trace| && Replays(m, start, trace[..n], cut, cs) && StepAnswers(m, cs[n], trace[n].0, trace[n].1, cut, r)
  }

  /** The replay gets to the end of the trace, in c. */
  ghost predicate ReplaysTo(m: Model, start: Config, trace: seq<Action>, cut: Option<Cut>, c: Config) {
    exists cs :: Replays(m, start, trace, cut, cs) && cs[|trace|] == c
  }

  /** The replay raises e at its last step and at none before. */
  ghost predicate FailsLast(m: Model, start: Config, trace: seq<Action>, cut: Option<Cut>, e: StepError) {
    exists n, cs :: n == |trace| - 1 && FailsAt(m, start, trace, cut, n, cs, e)
  }

  /** The replay of a run to c ends as the run: in c, or with the error that reports c, at the last step. */
  ghost predicate EndsIn(m: Model, start: Config, trace: seq<Action>, cut: Option<Cut>, c: Config) {
    if trace != [] && IsForbidden(m, c)
    then exists i :: FirstMatch(m, c, i) && FailsLast(m, start, trace, cut, ForbiddenStateReached(m.forbidden[i].id))
    else ReplaysTo(m, start, trace, cut, c)
  }

  lemma ReplaysByLast(m: Model, start: Config, trace: seq<Action>, cut: Option<Cut>, c: Config)
    requires trace != []
    ensures ReplaysTo(m, start, trace, cut, c) <==> LastAnswers(m, start, trace, cut, Success(c))
  {
    hide StepAnswers;
    var n := |trace| - 1;
    if ReplaysTo(m, start, trace, cut, c) {
      var cs :| Replays(m, start, trace, cut, cs) && cs[|trace|] == c;
      assert LastAnswersAfter(m, start, trace, cut, cs[..|trace|], Success(c));
    }
    if LastAnswers(m, start, trace, cut, Success(c)) {
      var cs :| LastAnswersAfter(m, start, trace, cut, cs, Success(c));
      assert Replays(m, start, trace, cut, cs + [c]);
    }
  }

  lemma FailsByLast(m: Model, start: Config, trace: seq<Action>, cut: Option<Cut>, e: StepError)
    requires trace != []
    ensures FailsLast(m, start, trace, cut, e) <==> LastAnswers(m, start, trace, cut, Failure(e))
  {
    hide StepAnswers;
    var n := |trace| - 1;
    if FailsLast(m, start, trace, cut, e) {
      var cs :| FailsAt(m, start, trace, cut, n, cs, e);
      assert LastAnswersAfter(m, start, trace, cut, cs, Failure(e));
    }
    if LastAnswers(m, start, trace, cut, Failure(e)) {
      var cs :| LastAnswersAfter(m, start, trace, cut, cs, Failure(e));
      assert FailsAt(m, start, trace, cut, n, cs, e);
    }
  }

  lemma OneStepMore(m: Model, start: Config, trace: seq<Action>, cut: Option<Cut>, p: Config,
                    r: Result<Config, StepError>)
    requires trace != [] && ReplaysTo(m, start, trace[..|trace| - 1], cut, p)
    requires StepAnswers(m, p, trace[|trace| - 1].0, trace[|trace| - 1].1, cut, r)
    ensures LastAnswers(m, start, trace, cut, r)
  {
    hide StepAnswers;
    var n := |trace| - 1;
    var cs :| Replays(m, start, trace[..n], cut, cs) && cs[n] == p;
    assert LastAnswersAfter(m, start, trace, cut, cs, r);
  }

  lemma EndsByLast(m: Model, start: Config, trace: seq<Action>, cut: Option<Cut>, c: Config)
    requires trace != []
    ensures EndsIn(m, start, trace, cut, c) <==> exists r :: Arrives(m, c, r) && LastAnswers(m, start, trace, cut, r)
  {
    hide LastAnswers, ReplaysTo, FailsLast, IsForbidden;
    ReplaysByLast(m, start, trace, cut, c);
    forall e
      ensures FailsLast(m, start, trace, cut, e) <==> LastAnswers(m, start, trace, cut, Failure(e))
    {
      FailsByLast(m, start, trace, cut, e);
    }
    if EndsIn(m, start, trace, cut, c) {
      if IsForbidden(m, c) {
        var i :| FirstMatch(m, c, i) && FailsLast(m, start, trace, cut, ForbiddenStateReached(m.forbidden[i].id));
        assert Arrives(m, c, Failure(ForbiddenStateReached(m.forbidden[i].id)));
      } else {
        assert Arrives(m, c, Success(c));
      }
    }
  }

  lemma LastAnswerUnique(m: Model, start: Config, trace: seq<Action>, cut: Option<Cut>,
                         r: Result<Config, StepError>, r': Result<Config, StepError>)
    requires trace != [] && LastAnswers(m, start, trace, cut, r) && LastAnswers(m, start, trace, cut, r')
    ensures r == r'
  {
    hide StepAnswers, Replays;
    var n := |trace| - 1;
    var cs :| LastAnswersAfter(m, start, trace, cut, cs, r);
    var ds :| LastAnswersAfter(m, start, trace, cut, ds, r');
    ReplaysUnique(m, start, trace[..n], cut, cs, ds, n);
    StepAnswersUnique(m, cs[n], trace[n].0, trace[n].1, cut, r, r');
  }

  /** A step on the event of a transition that may be taken answers as the transition arrives, where all agree. */
  lemma StepFollows(m: Model, c: Config, k: int, d: Config, cut: Option<Cut>)
    requires WellFormed(m) && c.state in m.states
    requires Fires(m, k, c, d) && AgreeAt(m, c, m.transitions[k].event)
    requires cut.None? || cut.value == m.cut
    ensures d.state in m.states
    ensures exists r :: Arrives(m, d, r) && StepAnswers(m, c, m.transitions[k].event, None, cut, r)
  {
    hide Arrives, IsForbidden;
    var event := m.transitions[k].event;
    assert Candidate(m, k, c, event) && Passes(m, k, c, event, None);
    var first := LeastPassing(m, c, event, k);
    var e := Fire(m.transitions[first], c, None);
    assert Alike(m, e, d);
    var r :| Arrives(m, e, r) && Arrives(m, d, r);
    assert StepAnswers(m, c, event, None, cut, r);
  }

  lemma LeastPassing(m: Model, c: Config, event: string, k: nat) returns (first: nat)
    requires Passes(m, k, c, event, None)
    ensures Selected(m, first, c, event, None)
  {
    first := 0;
    while !Passes(m, first, c, event, None)
      invariant first <= k
      invariant forall j | 0 <= j < first :: !Passes(m, j, c, event, None)
      decreases k - first
    {
      first := first + 1;
    }
  }

  /** Where transitions agree along the trace, the replay ends as each of its clean runs. */
  lemma {:induction false} CleanRunReplays(m: Model, start: Config, trace: seq<Action>, c: Config, cut: Option<Cut>)
    requires WellFormed(m) && start.state in m.states && (cut.None? || cut.value == m.cut)
    requires AgreeAlong(m, start, trace) && CleanRun(m, start, trace, c)
    ensures EndsIn(m, start, trace, cut, c) && c.state in m.states
    decreases |trace|
  {
    hide StepAnswers, AgreeAt, WellFormed, IsForbidden, Enabled, Arrives, FailsLast, ReplaysTo, LastAnswers;
    if trace == [] {
      NothingToReplay(m, start, cut);
    } else {
      var n := |trace| - 1;
      var p, k :| Fires(m, k, p, c) && trace[n] == (m.transitions[k].event, None)
        && CleanRun(m, start, trace[..n], p) && !IsForbidden(m, p);
      AlongPrefix(m, start, trace, n);
      CleanRunReplays(m, start, trace[..n], p, cut);
      StepFollows(m, p, k, c, cut);
      var r :| Arrives(m, c, r) && StepAnswers(m, p, trace[n].0, trace[n].1, cut, r);
      OneStepMore(m, start, trace, cut, p, r);
      EndsByLast(m, start, trace, cut, c);
    }
  }

  lemma NothingToReplay(m: Model, start: Config, cut: Option<Cut>)
    ensures ReplaysTo(m, start, [], cut, start)
  {
    assert Replays(m, start, [], cut, [start]);
  }

  /** All clean runs of the trace and of its beginnings are replayed to their ends. */
  ghost predicate AllReplayed(m: Model, start: Config, trace: seq<Action>, cut: Option<Cut>) {
    forall n: nat, c :: n <= |trace| && CleanRun(m, start, trace[..n], c) ==> EndsIn(m, start, trace[..n], cut, c)
  }

  lemma ReplayedMeansAlike(m: Model, start: Config, trace: seq<Action>, cut: Option<Cut>, n: nat, c: Config, j: int,
                           k: int)
    requires AllReplayed(m, start, trace, cut) && n < |trace| && trace[n].1.None?
    requires CleanRun(m, start, trace[..n], c) && !IsForbidden(m, c)
    requires Passes(m, j, c, trace[n].0, None) && Passes(m, k, c, trace[n].0, None)
    ensures Alike(m, Fire(m.transitions[j], c, None), Fire(m.transitions[k], c, None))
  {
    hide EndsIn, Arrives, LastAnswers, IsForbidden;
    var longer := trace[..n + 1];
    assert longer[..n] == trace[..n] && longer[n] == (trace[n].0, None);
    var d, e := Fire(m.transitions[j], c, None), Fire(m.transitions[k], c, None);
    assert Fires(m, j, c, d) && Fires(m, k, c, e);
    assert CleanRun(m, start, longer, d) && CleanRun(m, start, longer, e);
    EndsByLast(m, start, longer, cut, d);
    EndsByLast(m, start, longer, cut, e);
    var r :| Arrives(m, d, r) && LastAnswers(m, start, longer, cut, r);
    var r' :| Arrives(m, e, r') && LastAnswers(m, start, longer, cut, r');
    LastAnswerUnique(m, start, longer, cut, r, r');
  }

  /** For every context-free trace: its runs and the runs of its beginnings, as far as they meet nothing forbidden
      before their ends, are all replayed to their ends exactly when transitions agree along it. */
  lemma RunsReplayIff(m: Model, start: Config, trace: seq<Action>, cut: Option<Cut>)
    requires WellFormed(m) && start.state in m.states && (cut.None? || cut.value == m.cut) && Plain(trace)
    ensures AllReplayed(m, start, trace, cut) <==> AgreeAlong(m, start, trace)
  {
    hide EndsIn, IsForbidden, Enabled, Alike, CleanRun, WellFormed;
    if AgreeAlong(m, start, trace) {
      forall n: nat, c | n <= |trace| && CleanRun(m, start, trace[..n], c)
        ensures EndsIn(m, start, trace[..n], cut, c)
      {
        AlongPrefix(m, start, trace, n);
        CleanRunReplays(m, start, trace[..n], c, cut);
      }
    }
    if AllReplayed(m, start, trace, cut) {
      forall n: nat, c, j, k | n < |trace| && CleanRun(m, start, trace[..n], c) && !IsForbidden(m, c)
                               && Passes(m, j, c, trace[n].0, None) && Passes(m, k, c, trace[n].0, None)
        ensures Alike(m, Fire(m.transitions[j], c, None), Fire(m.transitions[k], c, None))
      {
        ReplayedMeansAlike(m, start, trace, cut, n, c, j, k);
      }
    }
  }

  /** Transitions agree in every configuration that a clean run leads to, on every event. */
  ghost predicate AgreeEverywhere(m: Model, start: Config) {
    forall trace, c, event :: CleanRun(m, start, trace, c) && !IsForbidden(m, c) ==> AgreeAt(m, c, event)
  }

  lemma {:induction false} CleanRunIsPlain(m: Model, start: Config, trace: seq<Action>, c: Config)
    requires CleanRun(m, start, trace, c)
    ensures Plain(trace)
    decreases |trace|
  {
    if trace != [] {
      var n := |trace| - 1;
      var p, k :| Fires(m, k, p, c) && trace[n] == (m.transitions[k].event, None)
        && CleanRun(m, start, trace[..n], p) && !IsForbidden(m, p);
      CleanRunIsPlain(m, start, trace[..n], p);
      assert forall i :: 0 <= i < n ==> trace[i] == trace[..n][i];
    }
  }

  /** For every model: all that the explorer can follow is replayed to its end exactly when transitions agree
      everywhere. */
  lemma EveryRunReplaysIff(m: Model, start: Config, cut: Option<Cut>)
    requires WellFormed(m) && start.state in m.states && (cut.None? || cut.value == m.cut)
    ensures (forall trace, c :: CleanRun(m, start, trace, c) ==> EndsIn(m, start, trace, cut, c)) <==>
        AgreeEverywhere(m, start)
  {
    hide EndsIn, IsForbidden, AgreeAt, CleanRun, WellFormed;
    if AgreeEverywhere(m, start) {
      forall trace, c | CleanRun(m, start, trace, c)
        ensures EndsIn(m, start, trace, cut, c)
      {
        CleanRunReplays(m, start, trace, c, cut);
      }
    }
    if forall trace, c :: CleanRun(m, start, trace, c) ==> EndsIn(m, start, trace, cut, c) {
      forall trace, c, event | CleanRun(m, start, trace, c) && !IsForbidden(m, c)
        ensures AgreeAt(m, c, event)
      {
        CleanRunIsPlain(m, start, trace, c);
        var longer := trace + [(event, None)];
        assert longer[..|trace|] == trace;
        RunsReplayIff(m, start, longer, cut);
      }
    }
  }

  // ----- the reported counterexample -----

  lemma {:induction false} SafeRunIsClean(m: Model, start: Config, trace: seq<Action>, c: Config)
    requires Traced(m, start, trace, c) && SafeFor(m, start, |trace| - 1)
    ensures CleanRun(m, start, trace, c)
    decreases |trace|
  {
    hide IsForbidden, Enabled, ReachableIn;
    if trace != [] {
      var n := |trace| - 1;
      var p, k :| Fires(m, k, p, c) && trace[n] == (m.transitions[k].event, None) && Traced(m, start, trace[..n], p);
      TracedIsReachable(m, start, trace[..n], p);
      SafeRunIsClean(m, start, trace[..n], p);
    }
  }

  /** Completeness of the report: where transitions agree along the counterexample, replaying it raises
      FORBIDDEN_STATE_REACHED with the reported id, and does so at its last step and not before. */
  lemma CounterexampleReplays(m: Model, start: Config, trace: seq<Action>, hit: Option<string>, cut: Option<Cut>)
    requires WellFormed(m) && AgreeAlong(m, start, trace) && start.state in m.states
    requires cut.None? || cut.value == m.cut
    requires ShortestCounterexample(m, start, trace, hit) && trace != []
    ensures hit.Some? && FailsLast(m, start, trace, cut, ForbiddenStateReached(hit.value))
  {
    hide FailsLast, CleanRun, Traced, AgreeAlong, WellFormed, SafeFor;
    var c, i :| Traced(m, start, trace, c) && FirstMatch(m, c, i) && hit == Some(m.forbidden[i].id);
    SafeRunIsClean(m, start, trace, c);
    CleanRunReplays(m, start, trace, c, cut);
    var h :| FirstMatch(m, c, h) && FailsLast(m, start, trace, cut, ForbiddenStateReached(m.forbidden[h].id));
    assert h == i;
  }

  /** Two transitions on one event: a step only ever takes the first. */
  function Fork(cut: Cut): Model {
    var go := (id: string, target: string) => Transition(id, "a", target, "go", [], None);
    Model("fork", 1, cut, map[], {"a", "b", "c"}, ["a"], [go("t0", "b"), go("t1", "c")],
          [ForbiddenState("f", Some("c"), None)])
  }

  /** Agreement is needed: the explorer's shortest counterexample on Fork replays without any error. */
  lemma ForkReplaysSafely(cut: Cut)
    ensures WellFormed(Fork(cut))
    ensures ShortestCounterexample(Fork(cut), Config("a", map[]), [("go", None)], Some("f"))
    ensures Replays(Fork(cut), Config("a", map[]), [("go", None)], None, [Config("a", map[]), Config("b", map[])])
    ensures !AgreeAlong(Fork(cut), Config("a", map[]), [("go", None)])
  {
    var m, a, b, c := Fork(cut), Config("a", map[]), Config("b", map[]), Config("c", map[]);
    ForkConfigurations(cut);
    var trace: seq<Action> := [("go", None)];
    assert trace[..0] == [];
    assert Traced(m, a, trace[..0], a);
    assert Traced(m, a, trace, c);
    assert ReachableIn(m, a, 0, a);
    assert Replays(m, a, trace, None, [a, b]) by {
      assert Selected(m, 0, a, "go", None) && Arrives(m, b, Success(b));
    }
    assert !AgreeAlong(m, a, trace) by {
      ForkDisagrees(cut);
      assert CleanRun(m, a, trace[..0], a);
    }
  }

  lemma ForkConfigurations(cut: Cut)
    ensures var m, a, b, c := Fork(cut), Config("a", map[]), Config("b", map[]), Config("c", map[]);
            && !IsForbidden(m, a) && !IsForbidden(m, b) && FirstMatch(m, c, 0) && IsForbidden(m, c)
            && Fires(m, 0, a, b) && Fires(m, 1, a, c)
  {
    var m, a, b, c := Fork(cut), Config("a", map[]), Config("b", map[]), Config("c", map[]);
    assert !m.forbidden[0].Matches(a) && !m.forbidden[0].Matches(b) && m.forbidden[0].Matches(c);
  }

  lemma ForkDisagrees(cut: Cut)
    ensures !AgreeAt(Fork(cut), Config("a", map[]), "go")
  {
    var m, a, b, c := Fork(cut), Config("a", map[]), Config("b", map[]), Config("c", map[]);
    ForkConfigurations(cut);
    assert Passes(m, 0, a, "go", None) && Passes(m, 1, a, "go", None);
    assert !Alike(m, Fire(m.transitions[0], a, None), Fire(m.transitions[1], a, None));
  }
}
