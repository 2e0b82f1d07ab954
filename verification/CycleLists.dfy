/** What a depth-first search with a recursion stack finds: the invariant of the search of evidence/graph.py, the cycles
    it lists, and which ones it misses. */
module CycleLists {
  import opened Digraphs
  import opened Ordering

  // ----- lists of cycles -----

  /** Every entry is a cycle of the relation, written out and closed. */
  ghost predicate AllClosed(e: Relation, cycles: seq<seq<string>>) {
    forall i :: 0 <= i < |cycles| ==> ClosedWalk(e, cycles[i])
  }

  /** No node but the one that closes it stands on the cycle twice. */
  ghost predicate Simple(c: seq<string>) {
    forall i, j :: 0 <= i < j < |c| - 1 ==> c[i] != c[j]
  }

  ghost predicate SimpleCycle(e: Relation, c: seq<string>) {
    ClosedWalk(e, c) && Simple(c)
  }

  function EdgeAt(c: seq<string>, i: int): (string, string)
    requires 0 <= i < |c| - 1
  {
    (c[i], c[i + 1])
  }

  ghost function EdgesOf(c: seq<string>): Relation {
    set i | 0 <= i < |c| - 1 :: EdgeAt(c, i)
  }

  /** The edge on which a cycle closes. */
  function ClosingEdge(c: seq<string>): (string, string)
    requires |c| >= 2
  {
    (c[|c| - 2], c[|c| - 1])
  }

  ghost function Closing(cycles: seq<seq<string>>): Relation {
    set i | 0 <= i < |cycles| && |cycles[i]| >= 2 :: ClosingEdge(cycles[i])
  }

  /** The cycle is in the list, written out from whichever of its nodes. */
  ghost predicate Listed(cycles: seq<seq<string>>, w: seq<string>) {
    exists i :: 0 <= i < |cycles| && EdgesOf(cycles[i]) == EdgesOf(w)
  }

  lemma ClosingGrows(cycles: seq<seq<string>>, more: seq<seq<string>>)
    requires cycles <= more
    ensures Closing(cycles) <= Closing(more)
  {
    forall f | f in Closing(cycles)
      ensures f in Closing(more)
    {
      var i :| 0 <= i < |cycles| && |cycles[i]| >= 2 && ClosingEdge(cycles[i]) == f;
      assert more[i] == cycles[i];
    }
  }

  lemma ClosingAppend(cycles: seq<seq<string>>, c: seq<string>)
    requires |c| >= 2
    ensures Closing(cycles + [c]) == Closing(cycles) + {ClosingEdge(c)}
  {
    var more := cycles + [c];
    assert more[|cycles|] == c;
    ClosingGrows(cycles, more);
    forall f | f in Closing(more)
      ensures f in Closing(cycles) + {ClosingEdge(c)}
    {
      var i :| 0 <= i < |more| && |more[i]| >= 2 && ClosingEdge(more[i]) == f;
      if i < |cycles| {
        assert more[i] == cycles[i];
      }
    }
  }

  // ----- the invariant of the search -----

  /** The stack is a walk; visited nodes off it are ranked in the order they were left, along all edges but those on
      which a recorded cycle closes. */
  ghost predicate Searching(e: Relation, visited: set<string>, recStack: seq<string>, cycles: seq<seq<string>>,
                            rank: map<string, nat>)
  {
    && (recStack != [] ==> Walk(e, recStack))
    && (forall n :: n in recStack ==> n in visited)
    && AllClosed(e, cycles)
    && (forall n :: n in visited <==> n in rank || n in recStack)
    && (forall n :: n in rank ==> rank[n] < |rank| && n !in recStack)
    && Ranked(e - Closing(cycles), rank)
  }

  lemma Push(e: Relation, visited: set<string>, recStack: seq<string>, cycles: seq<seq<string>>, rank: map<string, nat>,
             curr: string)
    requires Searching(e, visited, recStack, cycles, rank) && curr !in visited
    requires recStack != [] ==> (recStack[|recStack| - 1], curr) in e
    ensures Searching(e, visited + {curr}, recStack + [curr], cycles, rank) && curr !in recStack
  {
    hide Closing;
  }

  lemma Pop(e: Relation, visited: set<string>, recStack: seq<string>, cycles: seq<seq<string>>, rank: map<string, nat>,
            curr: string)
    requires Searching(e, visited, recStack + [curr], cycles, rank) && curr !in recStack
    requires forall y :: (curr, y) in e - Closing(cycles) ==> y in rank
    ensures Searching(e, visited, recStack, cycles, rank[curr := |rank|])
  {
    hide Closing;
    WalkPrefix(e, recStack, curr);
    assert curr in recStack + [curr];
    assert forall n :: n in recStack ==> n in recStack + [curr];
    assert forall n :: n in recStack + [curr] ==> n in recStack || n == curr;
    assert |rank[curr := |rank|]| == |rank| + 1;
  }

  /** The suffix of the stack from the node met again is recorded. */
  lemma Record(e: Relation, visited: set<string>, recStack: seq<string>, cycles: seq<seq<string>>,
               rank: map<string, nat>, i: nat)
    requires Searching(e, visited, recStack, cycles, rank) && i < |recStack|
    requires (recStack[|recStack| - 1], recStack[i]) in e
    ensures Searching(e, visited, recStack, cycles + [recStack[i..] + [recStack[i]]], rank)
    ensures (recStack[|recStack| - 1], recStack[i]) in Closing(cycles + [recStack[i..] + [recStack[i]]])
  {
    hide Closing;
    ClosingWalk(e, recStack, i);
    ClosingAppend(cycles, recStack[i..] + [recStack[i]]);
  }

  /** A visited successor off the stack was ranked before. */
  lemma SeenBefore(e: Relation, visited: set<string>, recStack: seq<string>, cycles: seq<seq<string>>,
                   rank: map<string, nat>, y: string)
    requires Searching(e, visited, recStack, cycles, rank) && y in visited && y !in recStack
    ensures y in rank
  {
  }

  lemma SearchStarts(e: Relation)
    ensures Searching(e, {}, [], [], map[])
  {
  }

  lemma SearchEnds(e: Relation, visited: set<string>, cycles: seq<seq<string>>, rank: map<string, nat>)
    requires Searching(e, visited, [], cycles, rank)
    requires forall x, y :: (x, y) in e ==> x in visited
    ensures AllClosed(e, cycles) && !Cyclic(e - Closing(cycles))
    ensures cycles != [] <==> Cyclic(e)
  {
    RankedIsAcyclic(e - Closing(cycles), rank);
    if cycles == [] {
      assert e - Closing(cycles) == e;
    } else {
      assert ClosedWalk(e, cycles[0]);
    }
  }

  // ----- the tree of the search -----

  /** The cycle runs down the tree and closes on an edge that is not the tree's. */
  ghost predicate TreeCycle(par: map<string, string>, c: seq<string>) {
    && |c| >= 2 && c[0] == c[|c| - 1] && Simple(c)
    && (forall i :: 0 < i < |c| - 1 ==> c[i] in par && par[c[i]] == c[i - 1])
    && !(c[0] in par && par[c[0]] == c[|c| - 2])
  }

  /** par sends each node but the roots to the node it was visited from; first is the first root. */
  ghost predicate Treed(first: string, visited: set<string>, recStack: seq<string>, cycles: seq<seq<string>>,
                        par: map<string, string>)
  {
    && (forall i, j :: 0 <= i < j < |recStack| ==> recStack[i] != recStack[j])
    && (forall i :: 0 < i < |recStack| ==> recStack[i] in par && par[recStack[i]] == recStack[i - 1])
    && (recStack != [] ==> recStack[0] !in par)
    && (forall n :: n in recStack || n in par ==> n in visited)
    && first !in par && (visited != {} ==> first in visited)
    && (forall k :: 0 <= k < |cycles| ==> TreeCycle(par, cycles[k]) && forall n :: n in cycles[k] ==> n in visited)
  }

  /** The tree once curr is visited. */
  ghost function Grown(par: map<string, string>, recStack: seq<string>, curr: string): map<string, string> {
    if recStack == [] then par else par[curr := recStack[|recStack| - 1]]
  }

  lemma PushTree(first: string, visited: set<string>, recStack: seq<string>, cycles: seq<seq<string>>,
                 par: map<string, string>, curr: string)
    requires Treed(first, visited, recStack, cycles, par) && curr !in visited && (visited == {} ==> curr == first)
    ensures Treed(first, visited + {curr}, recStack + [curr], cycles, Grown(par, recStack, curr))
  {
    hide TreeCycle;
    var par' := Grown(par, recStack, curr);
    forall k | 0 <= k < |cycles|
      ensures TreeCycle(par', cycles[k]) && forall n :: n in cycles[k] ==> n in visited + {curr}
    {
      TreeStays(par, par', visited, cycles[k], curr);
    }
    assert recStack != [] ==> recStack[0] in recStack;
  }

  lemma TreeStays(par: map<string, string>, par': map<string, string>, visited: set<string>, c: seq<string>,
                  curr: string)
    requires TreeCycle(par, c) && curr !in visited && forall n :: n in c ==> n in visited
    requires forall n :: n != curr ==> (n in par' <==> n in par) && (n in par ==> par'[n] == par[n])
    ensures TreeCycle(par', c)
  {
    assert forall i :: 0 <= i < |c| ==> c[i] in c;
  }

  lemma PopTree(first: string, visited: set<string>, recStack: seq<string>, cycles: seq<seq<string>>,
                par: map<string, string>, curr: string)
    requires Treed(first, visited, recStack + [curr], cycles, par)
    ensures Treed(first, visited, recStack, cycles, par)
  {
    hide TreeCycle;
    var stack := recStack + [curr];
    assert forall i :: 0 <= i < |recStack| ==> stack[i] == recStack[i];
    assert forall n :: n in recStack ==> n in stack;
  }

  lemma RecordTree(first: string, visited: set<string>, recStack: seq<string>, cycles: seq<seq<string>>,
                   par: map<string, string>, i: nat)
    requires Treed(first, visited, recStack, cycles, par) && i < |recStack|
    ensures Treed(first, visited, recStack, cycles + [recStack[i..] + [recStack[i]]], par)
  {
    var c := recStack[i..] + [recStack[i]];
    assert forall j :: 0 <= j < |c| - 1 ==> c[j] == recStack[i + j];
    var last := |recStack| - 1;
    assert c[0] == recStack[i] && c[|c| - 2] == recStack[last];
    if i > 0 {
      assert par[recStack[i]] == recStack[i - 1] && recStack[i - 1] != recStack[last];
    }
    assert TreeCycle(par, c);
    forall n | n in c
      ensures n in visited
    {
      assert n in recStack;
    }
  }

  lemma TreeStarts(first: string)
    ensures Treed(first, {}, [], [], map[])
  {
  }

  // ----- what the search has found -----

  /** The entries are cycles; without the edges they close on no cycle is left; and they all run down one tree, in which
      the least node is a root. */
  ghost predicate Found(e: Relation, ids: set<string>, cycles: seq<seq<string>>) {
    && AllClosed(e, cycles)
    && !Cyclic(e - Closing(cycles))
    && exists par :: Tree(par, ids, cycles)
  }

  ghost predicate Tree(par: map<string, string>, ids: set<string>, cycles: seq<seq<string>>) {
    && (forall k :: 0 <= k < |cycles| ==> TreeCycle(par, cycles[k]))
    && (forall x :: IsLeast(x, ids) ==> x !in par)
  }

  /** Every closed walk holds an edge on which some entry closes. */
  lemma EveryCycleIsCut(e: Relation, ids: set<string>, cycles: seq<seq<string>>, w: seq<string>)
    requires Found(e, ids, cycles) && ClosedWalk(e, w)
    ensures exists f :: f in EdgesOf(w) && f in Closing(cycles)
  {
    hide Closing;
    if forall i :: 0 <= i < |w| - 1 ==> (w[i], w[i + 1]) !in Closing(cycles) {
      Uncut(e, Closing(cycles), w);
    } else {
      var i :| 0 <= i < |w| - 1 && (w[i], w[i + 1]) in Closing(cycles);
      assert EdgeAt(w, i) in EdgesOf(w);
    }
  }

  lemma Uncut(e: Relation, cut: Relation, w: seq<string>)
    requires ClosedWalk(e, w) && forall i :: 0 <= i < |w| - 1 ==> (w[i], w[i + 1]) !in cut
    ensures Cyclic(e - cut)
  {
    assert ClosedWalk(e - cut, w);
  }

  /** Of the edges of an entry, only the closing one is not the tree's. */
  lemma OnlyOneCloses(par: map<string, string>, c: seq<string>, f: (string, string))
    requires TreeCycle(par, c) && f in EdgesOf(c)
    ensures f == ClosingEdge(c) <==> !(f.1 in par && par[f.1] == f.0)
  {
    var i :| 0 <= i < |c| - 1 && EdgeAt(c, i) == f;
    if i < |c| - 2 {
      assert c[i + 1] in par && par[c[i + 1]] == c[i];
    }
  }

  /** Entries that close on one edge are the same: the tree leads back from it in one way. */
  lemma OneEntryPerEdge(par: map<string, string>, c: seq<string>, d: seq<string>)
    requires TreeCycle(par, c) && TreeCycle(par, d) && ClosingEdge(c) == ClosingEdge(d)
    ensures c == d
  {
    if |c| <= |d| {
      SameWayBack(par, c, d);
    } else {
      SameWayBack(par, d, c);
    }
  }

  lemma SameWayBack(par: map<string, string>, c: seq<string>, d: seq<string>)
    requires TreeCycle(par, c) && TreeCycle(par, d) && ClosingEdge(c) == ClosingEdge(d) && |c| <= |d|
    ensures c == d
  {
    hide Closing;
    var n := |c| - 2;
    Backwards(par, c, d, n);
    SameStart(d, |d| - |c|);
    forall i | 0 <= i < |c| - 1
      ensures c[i] == d[i]
    {
      Backwards(par, c, d, n - i);
    }
  }

  lemma SameStart(d: seq<string>, i: nat)
    requires Simple(d) && i < |d| - 1 && d[i] == d[0]
    ensures i == 0
  {
  }

  lemma {:induction false} Backwards(par: map<string, string>, c: seq<string>, d: seq<string>, k: nat)
    requires TreeCycle(par, c) && TreeCycle(par, d) && ClosingEdge(c) == ClosingEdge(d)
    requires k <= |c| - 2 && k <= |d| - 2
    ensures c[|c| - 2 - k] == d[|d| - 2 - k]
  {
    if k > 0 {
      Backwards(par, c, d, k - 1);
    }
  }

  // ----- which cycles are listed -----

  ghost predicate NothingMissed(e: Relation, cycles: seq<seq<string>>) {
    forall w :: SimpleCycle(e, w) ==> Listed(cycles, w)
  }

  /** At most one simple cycle runs along f. */
  ghost predicate OnOneCycle(e: Relation, f: (string, string)) {
    forall v, w :: SimpleCycle(e, v) && SimpleCycle(e, w) && f in EdgesOf(v) && f in EdgesOf(w) ==>
        EdgesOf(v) == EdgesOf(w)
  }

  /** Two entries that hold one closing edge are the same. */
  lemma ListedThroughClosing(par: map<string, string>, c: seq<string>, d: seq<string>, f: (string, string))
    requires TreeCycle(par, c) && TreeCycle(par, d) && f in EdgesOf(c) && f in EdgesOf(d)
    requires !(f.1 in par && par[f.1] == f.0)
    ensures c == d
  {
    OnlyOneCloses(par, c, f);
    OnlyOneCloses(par, d, f);
    OneEntryPerEdge(par, c, d);
  }

  lemma EntryIsSimple(e: Relation, par: map<string, string>, cycles: seq<seq<string>>, i: nat)
    requires AllClosed(e, cycles) && i < |cycles| && TreeCycle(par, cycles[i])
    ensures SimpleCycle(e, cycles[i]) && ClosingEdge(cycles[i]) in EdgesOf(cycles[i])
    ensures ClosingEdge(cycles[i]) in Closing(cycles)
  {
    var c := cycles[i];
    assert EdgeAt(c, |c| - 2) == ClosingEdge(c);
  }

  /** A simple cycle is listed if it holds a closing edge that is on no other. */
  lemma SoleCycleIsListed(e: Relation, ids: set<string>, cycles: seq<seq<string>>, w: seq<string>)
    requires Found(e, ids, cycles) && SimpleCycle(e, w)
    requires forall f :: f in Closing(cycles) ==> OnOneCycle(e, f)
    ensures Listed(cycles, w)
  {
    hide TreeCycle, EdgesOf, Cyclic, Simple;
    EveryCycleIsCut(e, ids, cycles, w);
    var f :| f in EdgesOf(w) && f in Closing(cycles);
    var i :| 0 <= i < |cycles| && |cycles[i]| >= 2 && ClosingEdge(cycles[i]) == f;
    var par :| Tree(par, ids, cycles);
    EntryIsSimple(e, par, cycles, i);
  }

  /** If nothing is missed, no two simple cycles run along a closing edge. */
  lemma ClosingEdgesAreSole(e: Relation, ids: set<string>, cycles: seq<seq<string>>, f: (string, string))
    requires Found(e, ids, cycles) && NothingMissed(e, cycles) && f in Closing(cycles)
    ensures OnOneCycle(e, f)
  {
    hide TreeCycle, EdgesOf, Cyclic, Simple, ClosedWalk;
    var par :| Tree(par, ids, cycles);
    var k :| 0 <= k < |cycles| && |cycles[k]| >= 2 && ClosingEdge(cycles[k]) == f;
    EntryIsSimple(e, par, cycles, k);
    OnlyOneCloses(par, cycles[k], f);
    forall v, w | SimpleCycle(e, v) && SimpleCycle(e, w) && f in EdgesOf(v) && f in EdgesOf(w)
      ensures EdgesOf(v) == EdgesOf(w)
    {
      var i :| 0 <= i < |cycles| && EdgesOf(cycles[i]) == EdgesOf(v);
      var j :| 0 <= j < |cycles| && EdgesOf(cycles[j]) == EdgesOf(w);
      ListedThroughClosing(par, cycles[i], cycles[j], f);
    }
  }

  /** Exactly when nothing is missed: when no two simple cycles share an edge on which the search closed one. */
  lemma NothingMissedIff(e: Relation, ids: set<string>, cycles: seq<seq<string>>)
    requires Found(e, ids, cycles)
    ensures NothingMissed(e, cycles) <==> forall f :: f in Closing(cycles) ==> OnOneCycle(e, f)
  {
    hide Found, OnOneCycle, SimpleCycle, Closing, Listed;
    if forall f :: f in Closing(cycles) ==> OnOneCycle(e, f) {
      forall w | SimpleCycle(e, w)
        ensures Listed(cycles, w)
      {
        SoleCycleIsListed(e, ids, cycles, w);
      }
    }
    if NothingMissed(e, cycles) {
      forall f | f in Closing(cycles)
        ensures OnOneCycle(e, f)
      {
        ClosingEdgesAreSole(e, ids, cycles, f);
      }
    }
  }

  /** Known before the search: where no two simple cycles share an edge, it misses none. */
  lemma SeparateCyclesAreListed(e: Relation, ids: set<string>, cycles: seq<seq<string>>)
    requires Found(e, ids, cycles) && forall f :: f in e ==> OnOneCycle(e, f)
    ensures NothingMissed(e, cycles)
  {
    hide OnOneCycle, Cyclic;
    forall f | f in Closing(cycles)
      ensures f in e
    {
      var i :| 0 <= i < |cycles| && |cycles[i]| >= 2 && ClosingEdge(cycles[i]) == f;
      assert ClosedWalk(e, cycles[i]);
    }
    NothingMissedIff(e, ids, cycles);
  }

  /** Known before the search as well: of two simple cycles that share an edge into the least node, it misses one. */
  lemma SharedIntoLeastIsMissed(e: Relation, ids: set<string>, cycles: seq<seq<string>>, f: (string, string),
                                v: seq<string>, w: seq<string>)
    requires Found(e, ids, cycles) && IsLeast(f.1, ids)
    requires f in EdgesOf(v) && f in EdgesOf(w) && EdgesOf(v) != EdgesOf(w)
    ensures !(Listed(cycles, v) && Listed(cycles, w))
  {
    hide TreeCycle, EdgesOf, Cyclic, AllClosed, IsLeast;
    var par :| Tree(par, ids, cycles);
    if Listed(cycles, v) && Listed(cycles, w) {
      var i :| 0 <= i < |cycles| && EdgesOf(cycles[i]) == EdgesOf(v);
      var j :| 0 <= j < |cycles| && EdgesOf(cycles[j]) == EdgesOf(w);
      ListedThroughClosing(par, cycles[i], cycles[j], f);
    }
  }

  /** Where every cycle runs through the least node, known before the search: nothing is missed exactly when no two of
      them share an edge into it. */
  lemma ThroughLeastIff(e: Relation, ids: set<string>, cycles: seq<seq<string>>, a: string)
    requires Found(e, ids, cycles) && IsLeast(a, ids)
    requires forall w :: SimpleCycle(e, w) ==> a in w
    ensures NothingMissed(e, cycles) <==> forall x :: (x, a) in e ==> OnOneCycle(e, (x, a))
  {
    hide Cyclic, AllClosed, SimpleCycle, Listed, IsLeast, OnOneCycle;
    if forall x :: (x, a) in e ==> OnOneCycle(e, (x, a)) {
      forall f | f in Closing(cycles)
        ensures OnOneCycle(e, f)
      {
        ClosesOnLeast(e, ids, cycles, a, f);
      }
      NothingMissedIff(e, ids, cycles);
    }
    if NothingMissed(e, cycles) {
      forall x | (x, a) in e
        ensures OnOneCycle(e, (x, a))
      {
        SoleIntoLeast(e, ids, cycles, (x, a));
      }
    }
  }

  lemma ClosesOnLeast(e: Relation, ids: set<string>, cycles: seq<seq<string>>, a: string, f: (string, string))
    requires Found(e, ids, cycles) && IsLeast(a, ids) && f in Closing(cycles)
    requires forall w :: SimpleCycle(e, w) ==> a in w
    ensures f.1 == a && f in e
  {
    hide Cyclic, IsLeast, Simple;
    var par :| Tree(par, ids, cycles);
    var k :| 0 <= k < |cycles| && |cycles[k]| >= 2 && ClosingEdge(cycles[k]) == f;
    EntryIsSimple(e, par, cycles, k);
    var c := cycles[k];
    assert c[|c| - 1] == a by {
      var i :| 0 <= i < |c| && c[i] == a;
    }
  }

  lemma SoleIntoLeast(e: Relation, ids: set<string>, cycles: seq<seq<string>>, f: (string, string))
    requires Found(e, ids, cycles) && NothingMissed(e, cycles) && IsLeast(f.1, ids)
    ensures OnOneCycle(e, f)
  {
    hide Found, EdgesOf, SimpleCycle, Listed, IsLeast;
    forall v, w | SimpleCycle(e, v) && SimpleCycle(e, w) && f in EdgesOf(v) && f in EdgesOf(w)
      ensures EdgesOf(v) == EdgesOf(w)
    {
      if EdgesOf(v) != EdgesOf(w) {
        SharedIntoLeastIsMissed(e, ids, cycles, f, v, w);
      }
    }
  }

  /** A graph with two cycles of which every search misses one. */
  function Diamond(): Relation {
    {("a", "b"), ("b", "d"), ("d", "a"), ("a", "c"), ("c", "d")}
  }

  lemma DiamondMissesOne(cycles: seq<seq<string>>)
    requires Found(Diamond(), {"a", "b", "c", "d"}, cycles)
    ensures SimpleCycle(Diamond(), ["a", "b", "d", "a"]) && SimpleCycle(Diamond(), ["a", "c", "d", "a"])
    ensures !NothingMissed(Diamond(), cycles)
  {
    var e, v, w := Diamond(), ["a", "b", "d", "a"], ["a", "c", "d", "a"];
    assert SimpleCycle(e, v) && SimpleCycle(e, w);
    DiamondEdges();
    LeastOfDiamond();
    SharedIntoLeastIsMissed(e, {"a", "b", "c", "d"}, cycles, ("d", "a"), v, w);
  }

  lemma DiamondEdges()
    ensures ("d", "a") in EdgesOf(["a", "b", "d", "a"]) && ("d", "a") in EdgesOf(["a", "c", "d", "a"])
    ensures EdgesOf(["a", "b", "d", "a"]) != EdgesOf(["a", "c", "d", "a"])
  {
    var v, w := ["a", "b", "d", "a"], ["a", "c", "d", "a"];
    assert EdgeAt(v, 2) in EdgesOf(v) && EdgeAt(w, 2) in EdgesOf(w) && EdgeAt(v, 0) in EdgesOf(v);
    assert ("a", "b") !in EdgesOf(w);
  }

  lemma LeastOfDiamond()
    ensures IsLeast("a", {"a", "b", "c", "d"})
  {
    assert "a"[0] < "b"[0] && "a"[0] < "c"[0] && "a"[0] < "d"[0];
    LeqReflexive("a");
  }
}
