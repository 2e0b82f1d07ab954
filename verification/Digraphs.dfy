/** Finite directed relations: walks, cycles, and the ranking that rules cycles out. */
module Digraphs {
  type Relation = set<(string, string)>

  ghost predicate Walk(e: Relation, w: seq<string>) {
    |w| >= 1 && forall i :: 0 <= i < |w| - 1 ==> (w[i], w[i + 1]) in e
  }

  ghost predicate ClosedWalk(e: Relation, w: seq<string>) {
    |w| >= 2 && Walk(e, w) && w[0] == w[|w| - 1]
  }

  ghost predicate Cyclic(e: Relation) {
    exists w :: ClosedWalk(e, w)
  }

  /** x leads to a member of goals along zero or more pairs. */
  ghost predicate Reaches(e: Relation, x: string, goals: set<string>) {
    exists w :: Walk(e, w) && w[0] == x && w[|w| - 1] in goals
  }

  /** Every pair out of a ranked element leads to an element ranked lower. */
  ghost predicate Ranked(e: Relation, rank: map<string, nat>) {
    forall x, y :: x in rank && (x, y) in e ==> y in rank && rank[y] < rank[x]
  }

  lemma {:induction false} RankDrops(e: Relation, rank: map<string, nat>, w: seq<string>, i: nat)
    requires Ranked(e, rank) && Walk(e, w) && w[0] in rank && i < |w|
    ensures w[i] in rank && rank[w[i]] + i <= rank[w[0]]
  {
    if i > 0 {
      RankDrops(e, rank, w, i - 1);
      assert (w[i - 1], w[i]) in e;
    }
  }

  lemma RankedIsAcyclic(e: Relation, rank: map<string, nat>)
    requires Ranked(e, rank)
    requires forall x, y :: (x, y) in e ==> x in rank
    ensures !Cyclic(e)
  {
    forall w | ClosedWalk(e, w)
      ensures false
    {
      assert (w[0], w[1]) in e;
      RankDrops(e, rank, w, |w| - 1);
    }
  }

  lemma CyclicGrows(e: Relation, e': Relation)
    requires e <= e' && Cyclic(e)
    ensures Cyclic(e')
  {
    var w :| ClosedWalk(e, w);
    assert ClosedWalk(e', w);
  }

  lemma WalkPrefix(e: Relation, w: seq<string>, x: string)
    requires Walk(e, w + [x])
    ensures w != [] ==> Walk(e, w)
  {
    forall i | 0 <= i < |w| - 1
      ensures (w[i], w[i + 1]) in e
    {
      assert (w + [x])[i] == w[i] && (w + [x])[i + 1] == w[i + 1];
    }
  }

  /** A walk that ends where it is about to turn back closes on its suffix. */
  lemma ClosingWalk(e: Relation, w: seq<string>, i: nat)
    requires Walk(e, w) && i < |w| && (w[|w| - 1], w[i]) in e
    ensures ClosedWalk(e, w[i..] + [w[i]])
  {
  }

  /** A set with the goals and every predecessor of its members has all that reach the goals. */
  lemma {:induction false} BackwardClosed(e: Relation, goals: set<string>, s: set<string>, w: seq<string>, i: nat)
    requires goals <= s && forall x, y :: y in s && (x, y) in e ==> x in s
    requires Walk(e, w) && w[|w| - 1] in goals && i < |w|
    ensures w[i] in s
    decreases |w| - i
  {
    if i < |w| - 1 {
      BackwardClosed(e, goals, s, w, i + 1);
      assert (w[i], w[i + 1]) in e;
    }
  }

  lemma ReachesClosed(e: Relation, goals: set<string>, s: set<string>)
    requires goals <= s && forall x, y :: y in s && (x, y) in e ==> x in s
    ensures forall x :: Reaches(e, x, goals) ==> x in s
  {
    forall x | Reaches(e, x, goals)
      ensures x in s
    {
      var w :| Walk(e, w) && w[0] == x && w[|w| - 1] in goals;
      BackwardClosed(e, goals, s, w, 0);
    }
  }

  lemma ReachesSelf(e: Relation, x: string, goals: set<string>)
    requires x in goals
    ensures Reaches(e, x, goals)
  {
    assert Walk(e, [x]);
  }

  lemma ReachesStep(e: Relation, x: string, y: string, goals: set<string>)
    requires (x, y) in e && Reaches(e, y, goals)
    ensures Reaches(e, x, goals)
  {
    var w :| Walk(e, w) && w[0] == y && w[|w| - 1] in goals;
    var w' := [x] + w;
    assert forall i :: 0 <= i < |w'| - 1 ==> (w'[i], w'[i + 1]) in e;
    assert Walk(e, w');
    assert w'[|w'| - 1] == w[|w| - 1];
  }
}
