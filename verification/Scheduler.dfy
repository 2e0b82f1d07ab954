/** attack/scheduler.py: the best-ranked combinations of nodes, within a budget. */
module Scheduler {
  import opened Wrappers
  import opened Ordering
  import opened Combinations
  import opened InteractionGraphs
  import opened Strings

  /** Scores in halves, the rank in eighths: every score of the source is a multiple of 1/2, so every rank one of 1/8,
      and rounding to four places changes nothing. */
  datatype Candidate = Candidate(nodeIds: seq<string>, materiality: nat, risk: nat, gap: nat, rank: nat,
                                 obligations: seq<Record>, tieKey: string)

  type Pairs = set<(string, string)>

  type Obligations = map<string, seq<Record>>

  function Weight(m: Materiality): nat {
    match m
    case Critical => 20
    case High => 10
    case Medium => 4
    case Low => 2
    case Informational => 1
  }

  const UNDERSCORE := '_'

  // ----- scoring -----

  ghost function TotalWeight(nodes: map<string, Node>, ids: seq<string>): nat
    requires forall x :: x in ids ==> x in nodes
  {
    if ids == [] then 0 else TotalWeight(nodes, ids[..|ids| - 1]) + Weight(nodes[ids[|ids| - 1]].materiality)
  }

  ghost function Families(nodes: map<string, Node>, ids: set<string>): set<string> {
    set x | x in ids && x in nodes && nodes[x].kind == RootCauseFamily
  }

  ghost function Criticals(nodes: map<string, Node>, ids: set<string>): set<string> {
    set x | x in ids && x in nodes && nodes[x].materiality == Critical
  }

  ghost predicate HasUncoveredPair(ids: seq<string>, covered: Pairs) {
    exists i, j :: 0 <= i < j < |ids| && (ids[i], ids[j]) !in covered
  }

  ghost function AllObligations(ids: seq<string>, uncovered: Obligations): seq<Record> {
    if ids == [] then []
    else
      var last := ids[|ids| - 1];
      AllObligations(ids[..|ids| - 1], uncovered) + if last in uncovered then uncovered[last] else []
  }

  ghost function Members(ids: seq<string>): set<string> {
    set i | 0 <= i < |ids| :: ids[i]
  }

  /** The candidate that an ascending combination of nodes makes. */
  ghost function Score(nodes: map<string, Node>, ids: seq<string>, covered: Pairs, uncovered: Obligations): Candidate
    requires forall x :: x in ids ==> x in nodes
  {
    var materiality := TotalWeight(nodes, ids);
    var risk := Risk(nodes, ids);
    var gap := if HasUncoveredPair(ids, covered) then 4 else 1;
    Candidate(ids, materiality, risk, gap, materiality * risk * gap, AllObligations(ids, uncovered),
        Join(ids, UNDERSCORE))
  }

  lemma OneMoreMember(nodes: map<string, Node>, ids: seq<string>, x: string)
    requires x in nodes && x !in ids
    ensures |Families(nodes, Members(ids + [x]))|
         == |Families(nodes, Members(ids))| + if nodes[x].kind == RootCauseFamily then 1 else 0
    ensures |Criticals(nodes, Members(ids + [x]))|
         == |Criticals(nodes, Members(ids))| + if nodes[x].materiality == Critical then 1 else 0
  {
    assert Members(ids + [x]) == Members(ids) + {x} by {
      assert (ids + [x])[|ids|] == x;
      assert forall i :: 0 <= i < |ids| ==> (ids + [x])[i] == ids[i];
    }
    if nodes[x].kind == RootCauseFamily {
      assert Families(nodes, Members(ids) + {x}) == Families(nodes, Members(ids)) + {x};
    } else {
      assert Families(nodes, Members(ids) + {x}) == Families(nodes, Members(ids));
    }
    if nodes[x].materiality == Critical {
      assert Criticals(nodes, Members(ids) + {x}) == Criticals(nodes, Members(ids)) + {x};
    } else {
      assert Criticals(nodes, Members(ids) + {x}) == Criticals(nodes, Members(ids));
    }
  }

  lemma NoMembers(nodes: map<string, Node>)
    ensures |Families(nodes, Members([]))| == 0 && |Criticals(nodes, Members([]))| == 0
  {
    assert Families(nodes, Members([])) == {} && Criticals(nodes, Members([])) == {};
  }

  ghost function Risk(nodes: map<string, Node>, ids: seq<string>): nat {
    2 + 3 * |Families(nodes, Members(ids))| + 4 * |Criticals(nodes, Members(ids))|
  }

  /** What the next node adds to each accumulator. */
  lemma OneMoreNode(nodes: map<string, Node>, ids: seq<string>, i: nat, uncovered: Obligations)
    requires Ascending(ids) && i < |ids| && forall x :: x in ids ==> x in nodes
    ensures TotalWeight(nodes, ids[..i + 1]) == TotalWeight(nodes, ids[..i]) + Weight(nodes[ids[i]].materiality)
    ensures Risk(nodes, ids[..i + 1])
         == Risk(nodes, ids[..i]) + (if nodes[ids[i]].kind == RootCauseFamily then 3 else 0)
                                  + if nodes[ids[i]].materiality == Critical then 4 else 0
    ensures AllObligations(ids[..i + 1], uncovered)
         == AllObligations(ids[..i], uncovered) + if ids[i] in uncovered then uncovered[ids[i]] else []
  {
    hide Families, Criticals, Members, Leq;
    NotYet(ids, i);
    OneMoreMember(nodes, ids[..i], ids[i]);
    assert ids[..i + 1] == ids[..i] + [ids[i]];
    assert ids[..i + 1][..i] == ids[..i];
  }

  lemma NotYet(ids: seq<string>, i: nat)
    requires Ascending(ids) && i < |ids|
    ensures ids[i] !in ids[..i]
  {
    hide Leq;
    forall j | 0 <= j < i
      ensures ids[..i][j] != ids[i]
    {
      assert Less(ids[j], ids[i]);
    }
  }

  method Tally(nodes: map<string, Node>, ids: seq<string>, uncovered: Obligations)
    returns (materiality: nat, risk: nat, obligations: seq<Record>)
    requires Ascending(ids) && forall x :: x in ids ==> x in nodes
    ensures materiality == TotalWeight(nodes, ids) && risk == Risk(nodes, ids)
    ensures obligations == AllObligations(ids, uncovered)
  {
    materiality, risk, obligations := 0, 2, [];
    NoMembers(nodes);
    for i := 0 to |ids|
      invariant materiality == TotalWeight(nodes, ids[..i]) && risk == Risk(nodes, ids[..i])
      invariant obligations == AllObligations(ids[..i], uncovered)
    {
      hide TotalWeight, Risk, AllObligations, Ascending, Weight;
      var n := nodes[ids[i]];
      OneMoreNode(nodes, ids, i, uncovered);
      materiality := materiality + Weight(n.materiality);
      risk := risk + (if n.kind == RootCauseFamily then 3 else 0) + if n.materiality == Critical then 4 else 0;
      obligations := obligations + if ids[i] in uncovered then uncovered[ids[i]] else [];
    }
    assert ids[..|ids|] == ids;
  }

  method ScoreCandidate(nodes: map<string, Node>, ids: seq<string>, covered: Pairs, uncovered: Obligations)
    returns (c: Candidate)
    requires Ascending(ids) && forall x :: x in ids ==> x in nodes
    ensures c == Score(nodes, ids, covered, uncovered)
  {
    hide TotalWeight, AllObligations, HasUncoveredPair, Families, Criticals, Members, Join, Leq;
    Distinct(ids);
    var materiality, risk, obligations := Tally(nodes, ids, uncovered);
    var isUncovered := AnyPairUncovered(ids, covered);
    var gap := if isUncovered then 4 else 1;
    var sortedIds := SortDistinct(ids);
    c := Candidate(sortedIds, materiality, risk, gap, materiality * risk * gap, obligations,
        Join(sortedIds, UNDERSCORE));
  }

  lemma Distinct(ids: seq<string>)
    requires Ascending(ids)
    ensures forall i, j :: 0 <= i < j < |ids| ==> ids[i] != ids[j]
  {
    hide Leq;
    forall i, j | 0 <= i < j < |ids|
      ensures ids[i] != ids[j]
    {
      assert Less(ids[i], ids[j]);
    }
  }

  ghost predicate IsPair(ids: seq<string>, p: seq<string>) {
    |p| == 2 && exists i, j :: 0 <= i < j < |ids| && ids[i] == p[0] && ids[j] == p[1]
  }

  /** any(p not in covered for p in combinations(ids, 2)) */
  method AnyPairUncovered(ids: seq<string>, covered: Pairs) returns (any: bool)
    requires Ascending(ids)
    ensures any == HasUncoveredPair(ids, covered)
  {
    hide Choices, Ascending;
    var pairs := Choices(ids, 2);
    forall n | 0 <= n < |pairs|
      ensures IsPair(ids, pairs[n])
    {
      assert pairs[n] in pairs;
      ChosenIsPair(ids, pairs[n]);
    }
    for n := 0 to |pairs|
      invariant forall m :: 0 <= m < n ==> (pairs[m][0], pairs[m][1]) in covered
    {
      if (pairs[n][0], pairs[n][1]) !in covered {
        return true;
      }
    }
    forall i, j | 0 <= i < j < |ids|
      ensures (ids[i], ids[j]) in covered
    {
      PairIsChosen(ids, i, j);
      var m :| 0 <= m < |pairs| && pairs[m] == [ids[i], ids[j]];
      assert (pairs[m][0], pairs[m][1]) in covered;
    }
    return false;
  }

  lemma ChosenIsPair(ids: seq<string>, p: seq<string>)
    requires Ascending(ids) && p in Choices(ids, 2)
    ensures IsPair(ids, p)
  {
    hide Choices, Leq;
    ExactlyThePicks(ids, 2, p);
    assert p[0] in p && p[1] in p;
    var i, j :| 0 <= i < |ids| && 0 <= j < |ids| && ids[i] == p[0] && ids[j] == p[1];
    assert Less(p[0], p[1]);
    if j < i {
      assert Less(ids[j], ids[i]);
      LeqAntisymmetric(ids[i], ids[j]);
    }
  }

  lemma PairIsChosen(ids: seq<string>, i: nat, j: nat)
    requires Ascending(ids) && i < j < |ids|
    ensures [ids[i], ids[j]] in Choices(ids, 2)
  {
    hide Choices, Leq;
    var p := [ids[i], ids[j]];
    assert Less(ids[i], ids[j]);
    forall x | x in p
      ensures x in ids
    {
    }
    assert Picks(p, ids, 2);
    ExactlyThePicks(ids, 2, p);
  }

  /** sorted() of a list that repeats nothing. */
  method SortDistinct(xs: seq<string>) returns (ys: seq<string>)
    requires forall i, j :: 0 <= i < j < |xs| ==> xs[i] != xs[j]
    ensures ys == SortedSet(Members(xs))
    ensures Ascending(xs) ==> ys == xs
  {
    hide Lists, Ascending, NonDescending;
    ys := SortSequence(xs);
    SortedDistinct(xs, ys);
    ListingUnique(ys, SortedSet(Members(xs)), Members(xs));
    if Ascending(xs) {
      AscendingLists(xs);
      ListingUnique(xs, ys, Members(xs));
    }
  }

  lemma AscendingLists(xs: seq<string>)
    requires Ascending(xs)
    ensures Lists(xs, Members(xs))
  {
    hide Leq;
  }

  lemma {:induction false} AtMostOnce<T>(xs: seq<T>, x: T)
    requires forall i, j :: 0 <= i < j < |xs| ==> xs[i] != xs[j]
    ensures multiset(xs)[x] <= 1
  {
    if xs != [] {
      var n := |xs| - 1;
      AtMostOnce(xs[..n], x);
      assert xs == xs[..n] + [xs[n]];
      assert xs[n] !in xs[..n];
    }
  }

  lemma Twice<T>(ys: seq<T>, i: nat, j: nat)
    requires i < j < |ys| && ys[i] == ys[j]
    ensures multiset(ys)[ys[i]] >= 2
  {
    assert ys == ys[..j] + [ys[j]] + ys[j + 1..];
    assert ys[..j][i] == ys[i];
  }

  lemma SortedDistinct(xs: seq<string>, ys: seq<string>)
    requires forall i, j :: 0 <= i < j < |xs| ==> xs[i] != xs[j]
    requires NonDescending(ys) && multiset(ys) == multiset(xs)
    ensures Lists(ys, Members(xs))
  {
    hide Leq;
    forall i, j | 0 <= i < j < |ys|
      ensures Less(ys[i], ys[j])
    {
      AtMostOnce(xs, ys[i]);
      if ys[i] == ys[j] {
        Twice(ys, i, j);
      }
    }
    forall x
      ensures x in ys <==> x in Members(xs)
    {
      assert x in ys <==> x in multiset(ys);
      assert x in xs <==> x in multiset(xs);
    }
  }

  // ----- ranking -----

  /** The sort key: higher rank first, then the smaller tie key. */
  predicate Before(a: Candidate, b: Candidate) {
    a.rank > b.rank || (a.rank == b.rank && Leq(a.tieKey, b.tieKey))
  }

  ghost predicate Ranked(cs: seq<Candidate>) {
    forall i, j :: 0 <= i < j < |cs| ==> Before(cs[i], cs[j])
  }

  function Insert(c: Candidate, cs: seq<Candidate>): seq<Candidate> {
    if cs == [] then [c]
    else if Before(c, cs[0]) then [c] + cs
    else [cs[0]] + Insert(c, cs[1..])
  }

  /** list.sort: stable. */
  function StableSorted(cs: seq<Candidate>): seq<Candidate> {
    if cs == [] then [] else Insert(cs[0], StableSorted(cs[1..]))
  }

  /** candidates[:limit], where a negative limit counts from the end. */
  function Slice(cs: seq<Candidate>, limit: int): seq<Candidate> {
    if limit >= |cs| then cs
    else if limit >= 0 then cs[..limit]
    else if |cs| + limit >= 0 then cs[..|cs| + limit]
    else []
  }

  lemma BeforeTotal(a: Candidate, b: Candidate)
    ensures Before(a, b) || Before(b, a)
  {
    LeqTotal(a.tieKey, b.tieKey);
  }

  lemma BeforeTransitive(a: Candidate, b: Candidate, c: Candidate)
    requires Before(a, b) && Before(b, c)
    ensures Before(a, c)
  {
    if a.rank == b.rank == c.rank {
      LeqTransitive(a.tieKey, b.tieKey, c.tieKey);
    }
  }

  lemma {:induction false} InsertKeepsRanked(c: Candidate, cs: seq<Candidate>)
    requires Ranked(cs)
    ensures Ranked(Insert(c, cs)) && multiset(Insert(c, cs)) == multiset{c} + multiset(cs)
  {
    hide Before;
    if cs != [] {
      assert cs == [cs[0]] + cs[1..];
      if Before(c, cs[0]) {
        forall j | 0 < j < |cs|
          ensures Before(c, cs[j])
        {
          BeforeTransitive(c, cs[0], cs[j]);
        }
      } else {
        BeforeTotal(c, cs[0]);
        var rest := Insert(c, cs[1..]);
        InsertKeepsRanked(c, cs[1..]);
        forall x | x in rest
          ensures Before(cs[0], x)
        {
          assert x in multiset(rest);
          if x != c {
            assert x in multiset(cs[1..]);
            var j :| 0 <= j < |cs[1..]| && cs[1..][j] == x;
            assert Before(cs[0], cs[j + 1]);
          }
        }
      }
    }
  }

  lemma {:induction false} StableSortedRanks(cs: seq<Candidate>)
    ensures Ranked(StableSorted(cs)) && multiset(StableSorted(cs)) == multiset(cs)
  {
    hide Before, Insert, Ranked;
    if cs != [] {
      StableSortedRanks(cs[1..]);
      InsertKeepsRanked(cs[0], StableSorted(cs[1..]));
      assert cs == [cs[0]] + cs[1..];
    } else {
      NothingRanked();
    }
  }

  lemma NothingRanked()
    ensures Ranked([])
  {
  }

  /** The candidates with the given sort key, in order. */
  ghost function WithKey(cs: seq<Candidate>, rank: nat, tie: string): seq<Candidate> {
    if cs == [] then []
    else (if cs[0].rank == rank && cs[0].tieKey == tie then [cs[0]] else []) + WithKey(cs[1..], rank, tie)
  }

  lemma {:induction false} InsertIsStable(c: Candidate, cs: seq<Candidate>, rank: nat, tie: string)
    requires Ranked(cs)
    ensures WithKey(Insert(c, cs), rank, tie)
         == (if c.rank == rank && c.tieKey == tie then [c] else []) + WithKey(cs, rank, tie)
  {
    if cs != [] {
      if Before(c, cs[0]) {
        assert ([c] + cs)[1..] == cs;
      } else {
        LeqReflexive(tie);
        InsertIsStable(c, cs[1..], rank, tie);
        assert ([cs[0]] + Insert(c, cs[1..]))[1..] == Insert(c, cs[1..]);
      }
    }
  }

  /** Candidates with equal sort keys stay in the order they were generated in. */
  lemma {:induction false} StableSortedIsStable(cs: seq<Candidate>, rank: nat, tie: string)
    ensures WithKey(StableSorted(cs), rank, tie) == WithKey(cs, rank, tie)
  {
    hide Before, Insert, Ranked;
    if cs != [] {
      StableSortedIsStable(cs[1..], rank, tie);
      StableSortedRanks(cs[1..]);
      InsertIsStable(cs[0], StableSorted(cs[1..]), rank, tie);
    }
  }

  // ----- the schedules -----

  ghost function ScoreAll(nodes: map<string, Node>, picks: seq<seq<string>>, covered: Pairs, uncovered: Obligations)
    : seq<Candidate>
    requires forall i :: 0 <= i < |picks| ==> forall x :: x in picks[i] ==> x in nodes
  {
    seq(|picks|, i requires 0 <= i < |picks| => Score(nodes, picks[i], covered, uncovered))
  }

  lemma PicksAreNodes(nodes: map<string, Node>, focal: set<string>, k: nat)
    requires focal <= nodes.Keys
    ensures forall i :: 0 <= i < |Choices(SortedSet(focal), k)| ==>
              Picks(Choices(SortedSet(focal), k)[i], SortedSet(focal), k)
              && forall x :: x in Choices(SortedSet(focal), k)[i] ==> x in nodes
  {
    hide Choices, Ascending, SortedSet;
    var xs := SortedSet(focal);
    assert Lists(xs, focal);
    var picks := Choices(xs, k);
    forall i | 0 <= i < |picks|
      ensures Picks(picks[i], xs, k) && forall x :: x in picks[i] ==> x in nodes
    {
      assert picks[i] in picks;
      ExactlyThePicks(xs, k, picks[i]);
    }
  }

  /** The candidates from the focal nodes, best first. It speaks of the dictionary of nodes, not of its order. */
  ghost function Ranking(nodes: map<string, Node>, focal: set<string>, k: nat, covered: Pairs, uncovered: Obligations)
    : seq<Candidate>
    requires focal <= nodes.Keys
  {
    PicksAreNodes(nodes, focal, k);
    StableSorted(ScoreAll(nodes, Choices(SortedSet(focal), k), covered, uncovered))
  }

  /** The loop over the combinations, the sort and the slice. */
  method Schedule(nodes: map<string, Node>, focal: seq<string>, k: nat, covered: Pairs, uncovered: Obligations,
                  limit: int)
    returns (schedule: seq<Candidate>)
    requires Members(focal) <= nodes.Keys && focal == SortedSet(Members(focal))
    ensures schedule == Slice(Ranking(nodes, Members(focal), k, covered, uncovered), limit)
  {
    hide Score, StableSorted, Choices, Members, Ascending;
    var picks := Choices(focal, k);
    PicksAreNodes(nodes, Members(focal), k);
    var candidates := [];
    for i := 0 to |picks|
      invariant |candidates| == i
      invariant forall j :: 0 <= j < i ==> candidates[j] == Score(nodes, picks[j], covered, uncovered)
    {
      var c := ScoreCandidate(nodes, picks[i], covered, uncovered);
      candidates := candidates + [c];
    }
    assert candidates == ScoreAll(nodes, picks, covered, uncovered);
    candidates := StableSorted(candidates);
    return Slice(candidates, limit);
  }

  /** Which nodes take part in combinations of the given width. */
  predicate Admits(n: Node, width: nat) {
    && n.status == Valid
    && (width == 3 ==> n.materiality in {Critical, High, Medium} || n.kind == RootCauseFamily)
    && (width == 4 ==> n.materiality in {Critical, High})
  }

  ghost function FocalNodes(nodes: map<string, Node>, width: nat): (focal: set<string>)
    ensures focal <= nodes.Keys
  {
    set x | x in nodes && Admits(nodes[x], width)
  }

  /** ids lists the admitted nodes among the first i of the sorted ones. */
  ghost predicate Selects(ids: seq<string>, sorted: seq<string>, i: nat, nodes: map<string, Node>, width: nat)
    requires i <= |sorted|
  {
    Ascending(ids) && forall x :: x in ids <==> x in sorted[..i] && x in nodes && Admits(nodes[x], width)
  }

  lemma OneMoreSelected(ids: seq<string>, sorted: seq<string>, i: nat, nodes: map<string, Node>, width: nat)
    requires i < |sorted| && Ascending(sorted) && sorted[i] in nodes && Selects(ids, sorted, i, nodes, width)
    ensures Selects(if Admits(nodes[sorted[i]], width) then ids + [sorted[i]] else ids, sorted, i + 1, nodes, width)
  {
    hide Leq, Admits;
    assert sorted[..i + 1] == sorted[..i] + [sorted[i]];
    NotYet(sorted, i);
    forall k | 0 <= k < |ids|
      ensures Less(ids[k], sorted[i])
    {
      assert ids[k] in ids;
      var j :| 0 <= j < i && sorted[j] == ids[k];
    }
  }

  /** The admitted nodes in ascending order; order is the order in which the dictionary lists its keys. */
  method SelectNodes(order: seq<string>, nodes: map<string, Node>, width: nat) returns (ids: seq<string>)
    requires Members(order) == nodes.Keys && forall i, j :: 0 <= i < j < |order| ==> order[i] != order[j]
    ensures ids == SortedSet(FocalNodes(nodes, width))
  {
    hide Ascending, Admits, Selects, Members;
    var sorted := SortDistinct(order);
    assert Lists(sorted, nodes.Keys);
    ids := [];
    NoneSelected(sorted, nodes, width);
    for i := 0 to |sorted|
      invariant Selects(ids, sorted, i, nodes, width)
    {
      assert sorted[i] in sorted;
      OneMoreSelected(ids, sorted, i, nodes, width);
      if Admits(nodes[sorted[i]], width) {
        ids := ids + [sorted[i]];
      }
    }
    AllSelected(ids, sorted, nodes, width);
    ListingUnique(ids, SortedSet(FocalNodes(nodes, width)), FocalNodes(nodes, width));
  }

  lemma NoneSelected(sorted: seq<string>, nodes: map<string, Node>, width: nat)
    ensures Selects([], sorted, 0, nodes, width)
  {
  }

  lemma AllSelected(ids: seq<string>, sorted: seq<string>, nodes: map<string, Node>, width: nat)
    requires Lists(sorted, nodes.Keys) && Selects(ids, sorted, |sorted|, nodes, width)
    ensures Lists(ids, FocalNodes(nodes, width))
  {
    hide Ascending, Admits;
    assert sorted[..|sorted|] == sorted;
  }

  ghost function ScheduleOf(nodes: map<string, Node>, width: nat, covered: Pairs, uncovered: Obligations, limit: int)
    : seq<Candidate>
  {
    Slice(Ranking(nodes, FocalNodes(nodes, width), width, covered, uncovered), limit)
  }

  /** schedule_pairwise, schedule_selected_3way and schedule_selected_4way, for width 2, 3 and 4. The schedule is the
      same whatever order the dictionary of nodes lists its keys in. */
  method ScheduleWidth(order: seq<string>, nodes: map<string, Node>, width: nat, covered: Pairs, uncovered: Obligations,
                       budget: Option<int>, maxBudget: int)
    returns (schedule: seq<Candidate>)
    requires 2 <= width <= 4
    requires Members(order) == nodes.Keys && forall i, j :: 0 <= i < j < |order| ==> order[i] != order[j]
    ensures schedule == ScheduleOf(nodes, width, covered, uncovered, if budget.Some? then budget.value else maxBudget)
  {
    hide Members, Ranking, SortedSet;
    var limit := if budget.Some? then budget.value else maxBudget;
    var focal := SelectNodes(order, nodes, width);
    MembersOfListing(FocalNodes(nodes, width));
    schedule := Schedule(nodes, focal, width, covered, uncovered, limit);
  }

  lemma MembersOfListing(s: set<string>)
    ensures Members(SortedSet(s)) == s
  {
    assert Lists(SortedSet(s), s);
    forall x | x in s
      ensures x in Members(SortedSet(s))
    {
      assert x in SortedSet(s);
    }
    forall x | x in Members(SortedSet(s))
      ensures x in s
    {
      assert x in SortedSet(s);
    }
  }

  // ----- what a schedule is -----

  /** ids is a combination that may be scheduled. */
  ghost predicate MayBeScheduled(nodes: map<string, Node>, width: nat, ids: seq<string>) {
    Picks(ids, SortedSet(FocalNodes(nodes, width)), width)
  }

  lemma SchedulableAreNodes(nodes: map<string, Node>, width: nat, ids: seq<string>)
    requires MayBeScheduled(nodes, width, ids)
    ensures forall x :: x in ids ==> x in nodes
  {
    hide Ascending, SortedSet;
    assert Lists(SortedSet(FocalNodes(nodes, width)), FocalNodes(nodes, width));
  }

  lemma SliceIsPrefix(cs: seq<Candidate>, limit: int)
    ensures Slice(cs, limit) <= cs
    ensures limit >= 0 ==> |Slice(cs, limit)| == Min(limit, |cs|)
    ensures limit < 0 ==> |Slice(cs, limit)| == if |cs| + limit > 0 then |cs| + limit else 0
  {
  }

  /** Rankings list the scores of exactly the schedulable combinations. */
  lemma RankingLists(nodes: map<string, Node>, width: nat, covered: Pairs, uncovered: Obligations)
    ensures var r := Ranking(nodes, FocalNodes(nodes, width), width, covered, uncovered);
            var picks := Choices(SortedSet(FocalNodes(nodes, width)), width);
            && Ranked(r)
            && (forall i :: 0 <= i < |picks| ==> forall x :: x in picks[i] ==> x in nodes)
            && multiset(r) == multiset(ScoreAll(nodes, picks, covered, uncovered))
            && |r| == Choose(|FocalNodes(nodes, width)|, width)
  {
    hide Score, StableSorted, Choices, Choose, Ranked, FocalNodes, SortedSet;
    var focal := FocalNodes(nodes, width);
    PicksAreNodes(nodes, focal, width);
    var picks := Choices(SortedSet(focal), width);
    StableSortedRanks(ScoreAll(nodes, picks, covered, uncovered));
    HowMany(SortedSet(focal), width);
    assert |multiset(Ranking(nodes, focal, width, covered, uncovered))|
        == |multiset(ScoreAll(nodes, picks, covered, uncovered))|;
  }

  /** A schedule has as many candidates as the budget and the combinations allow. */
  lemma ScheduleSize(nodes: map<string, Node>, width: nat, covered: Pairs, uncovered: Obligations, limit: int)
    ensures var n := Choose(|FocalNodes(nodes, width)|, width);
            |ScheduleOf(nodes, width, covered, uncovered, limit)|
            == if limit >= 0 then Min(limit, n) else if n + limit > 0 then n + limit else 0
  {
    hide Ranking, Choose, FocalNodes, Ranked, ScoreAll;
    RankingLists(nodes, width, covered, uncovered);
    SliceIsPrefix(Ranking(nodes, FocalNodes(nodes, width), width, covered, uncovered), limit);
  }

  /** A schedule is in ranking order. */
  lemma ScheduleRanked(nodes: map<string, Node>, width: nat, covered: Pairs, uncovered: Obligations, limit: int)
    ensures Ranked(ScheduleOf(nodes, width, covered, uncovered, limit))
  {
    hide Ranking, Choose, FocalNodes, ScoreAll, Before;
    RankingLists(nodes, width, covered, uncovered);
    SliceIsPrefix(Ranking(nodes, FocalNodes(nodes, width), width, covered, uncovered), limit);
  }

  /** Nothing left out ranks before anything kept. */
  lemma NothingBetterLeftOut(nodes: map<string, Node>, width: nat, covered: Pairs, uncovered: Obligations, limit: int,
                             ids: seq<string>, kept: Candidate)
    requires MayBeScheduled(nodes, width, ids) && kept in ScheduleOf(nodes, width, covered, uncovered, limit)
    ensures forall x :: x in ids ==> x in nodes
    ensures var c := Score(nodes, ids, covered, uncovered);
            c in ScheduleOf(nodes, width, covered, uncovered, limit) || Before(kept, c)
  {
    hide Ranking, Choose, FocalNodes, Before, Score, Choices, Picks, SortedSet, Slice;
    SchedulableAreNodes(nodes, width, ids);
    var r := Ranking(nodes, FocalNodes(nodes, width), width, covered, uncovered);
    var picks := Choices(SortedSet(FocalNodes(nodes, width)), width);
    RankingLists(nodes, width, covered, uncovered);
    SliceIsPrefix(r, limit);
    var s := Slice(r, limit);
    var c := Score(nodes, ids, covered, uncovered);
    assert Lists(SortedSet(FocalNodes(nodes, width)), FocalNodes(nodes, width));
    ExactlyThePicks(SortedSet(FocalNodes(nodes, width)), width, ids);
    var i :| 0 <= i < |picks| && picks[i] == ids;
    assert ScoreAll(nodes, picks, covered, uncovered)[i] == c;
    assert c in multiset(r);
    var m :| 0 <= m < |r| && r[m] == c;
    var n :| 0 <= n < |s| && s[n] == kept;
    if m < |s| {
      assert s[m] == c;
    } else {
      assert r[n] == kept;
    }
  }

  /** Whatever is scheduled is the score of a schedulable combination. */
  lemma ScheduledIsSchedulable(nodes: map<string, Node>, width: nat, covered: Pairs, uncovered: Obligations, limit: int,
                               kept: Candidate)
    requires kept in ScheduleOf(nodes, width, covered, uncovered, limit)
    ensures MayBeScheduled(nodes, width, kept.nodeIds) && forall x :: x in kept.nodeIds ==> x in nodes
    ensures kept == Score(nodes, kept.nodeIds, covered, uncovered)
  {
    hide Ranking, Choose, FocalNodes, Ranked, Choices, Picks, SortedSet, Slice;
    var r := Ranking(nodes, FocalNodes(nodes, width), width, covered, uncovered);
    var picks := Choices(SortedSet(FocalNodes(nodes, width)), width);
    RankingLists(nodes, width, covered, uncovered);
    SliceIsPrefix(r, limit);
    assert kept in multiset(ScoreAll(nodes, picks, covered, uncovered));
    var i :| 0 <= i < |picks| && ScoreAll(nodes, picks, covered, uncovered)[i] == kept;
    assert picks[i] in picks;
    assert Lists(SortedSet(FocalNodes(nodes, width)), FocalNodes(nodes, width));
    ExactlyThePicks(SortedSet(FocalNodes(nodes, width)), width, picks[i]);
    assert kept.nodeIds == picks[i] by { ScoreKeepsIds(nodes, picks[i], covered, uncovered); }
  }

  lemma ScoreKeepsIds(nodes: map<string, Node>, ids: seq<string>, covered: Pairs, uncovered: Obligations)
    requires forall x :: x in ids ==> x in nodes
    ensures Score(nodes, ids, covered, uncovered).nodeIds == ids
  {
  }

  /** No combination is scheduled twice. */
  lemma ScheduledOnce(nodes: map<string, Node>, width: nat, covered: Pairs, uncovered: Obligations, limit: int, i: nat,
                      j: nat)
    requires i < j < |ScheduleOf(nodes, width, covered, uncovered, limit)|
    ensures ScheduleOf(nodes, width, covered, uncovered, limit)[i].nodeIds
         != ScheduleOf(nodes, width, covered, uncovered, limit)[j].nodeIds
  {
    hide Ranking, Choose, FocalNodes, Ranked, Choices, SortedSet, Slice, Score;
    var r := Ranking(nodes, FocalNodes(nodes, width), width, covered, uncovered);
    var xs := SortedSet(FocalNodes(nodes, width));
    var s := ScheduleOf(nodes, width, covered, uncovered, limit);
    RankingLists(nodes, width, covered, uncovered);
    SliceIsPrefix(r, limit);
    if s[i].nodeIds == s[j].nodeIds {
      ScheduledIsSchedulable(nodes, width, covered, uncovered, limit, s[i]);
      ScheduledIsSchedulable(nodes, width, covered, uncovered, limit, s[j]);
      assert r[i] == r[j];
      Twice(r, i, j);
      var scored := ScoreAll(nodes, Choices(xs, width), covered, uncovered);
      assert Lists(xs, FocalNodes(nodes, width));
      ScoresDiffer(nodes, xs, width, covered, uncovered);
      AtMostOnce(scored, r[i]);
      assert false;
    }
  }

  lemma ScoresDiffer(nodes: map<string, Node>, xs: seq<string>, width: nat, covered: Pairs, uncovered: Obligations)
    requires Ascending(xs)
    requires forall i :: 0 <= i < |Choices(xs, width)| ==> forall x :: x in Choices(xs, width)[i] ==> x in nodes
    ensures var scored := ScoreAll(nodes, Choices(xs, width), covered, uncovered);
            forall m, n :: 0 <= m < n < |scored| ==> scored[m] != scored[n]
  {
    hide Choices, Ascending, Score;
    var picks := Choices(xs, width);
    ListedOnce(xs, width);
    forall m, n | 0 <= m < n < |picks|
      ensures Score(nodes, picks[m], covered, uncovered) != Score(nodes, picks[n], covered, uncovered)
    {
      ScoreKeepsIds(nodes, picks[m], covered, uncovered);
      ScoreKeepsIds(nodes, picks[n], covered, uncovered);
    }
  }

  /** Tie keys do not always tell combinations apart: two have the same key exactly when the pieces of their ids between
      underscores are the same. */
  lemma TieKeysCollideIff(nodes: map<string, Node>, a: seq<string>, b: seq<string>, covered: Pairs,
                          uncovered: Obligations)
    requires a != [] && b != [] && (forall x :: x in a ==> x in nodes) && (forall x :: x in b ==> x in nodes)
    ensures Score(nodes, a, covered, uncovered).tieKey == Score(nodes, b, covered, uncovered).tieKey
       <==> AllPieces(a, UNDERSCORE) == AllPieces(b, UNDERSCORE)
  {
    hide TotalWeight, Risk, HasUncoveredPair, AllObligations, Join, AllPieces;
    JoinedAlikeIff(a, b, UNDERSCORE);
  }

  /** The keys of an actual collision. */
  lemma TieKeysCollide()
    ensures ["a", "b_c"] != ["a_b", "c"] && Ascending(["a", "b_c"]) && Ascending(["a_b", "c"])
    ensures Join(["a", "b_c"], UNDERSCORE) == Join(["a_b", "c"], UNDERSCORE)
  {
    assert ["a", "b_c"][0] == "a" && ["a_b", "c"][0] == "a_b";
    assert Leq("_b", "") == false;
    assert ["a", "b_c"][1..] == ["b_c"] && ["a_b", "c"][1..] == ["c"];
    assert "a" + [UNDERSCORE] + "b_c" == "a_b" + [UNDERSCORE] + "c";
  }

  /** Every candidate stands strictly before the later ones: higher rank, or equal rank and smaller key. */
  ghost predicate StrictlyRanked(cs: seq<Candidate>) {
    forall i, j :: 0 <= i < j < |cs| ==>
      cs[i].rank > cs[j].rank || (cs[i].rank == cs[j].rank && Less(cs[i].tieKey, cs[j].tieKey))
  }

  /** Where no eligible id holds an underscore, no two scheduled candidates share a tie key, and the schedule is
      strictly ordered by rank and key. */
  lemma PlainIdsDoNotTie(nodes: map<string, Node>, width: nat, covered: Pairs, uncovered: Obligations, limit: int)
    requires width >= 1 && forall x :: x in FocalNodes(nodes, width) ==> UNDERSCORE !in x
    ensures StrictlyRanked(ScheduleOf(nodes, width, covered, uncovered, limit))
    ensures var s := ScheduleOf(nodes, width, covered, uncovered, limit);
            forall i, j :: 0 <= i < j < |s| ==> s[i].tieKey != s[j].tieKey
  {
    hide ScheduleOf, Score, Leq, Join;
    var s := ScheduleOf(nodes, width, covered, uncovered, limit);
    ScheduleRanked(nodes, width, covered, uncovered, limit);
    forall i, j | 0 <= i < j < |s|
      ensures s[i].tieKey != s[j].tieKey
    {
      ScheduledOnce(nodes, width, covered, uncovered, limit, i, j);
      PlainKey(nodes, width, covered, uncovered, limit, s[i]);
      PlainKey(nodes, width, covered, uncovered, limit, s[j]);
      JoinedAlikeIff(s[i].nodeIds, s[j].nodeIds, UNDERSCORE);
    }
    assert forall i, j :: 0 <= i < j < |s| ==> Before(s[i], s[j]);
  }

  lemma PlainKey(nodes: map<string, Node>, width: nat, covered: Pairs, uncovered: Obligations, limit: int, c: Candidate)
    requires width >= 1 && forall x :: x in FocalNodes(nodes, width) ==> UNDERSCORE !in x
    requires c in ScheduleOf(nodes, width, covered, uncovered, limit)
    ensures c.nodeIds != [] && c.tieKey == Join(c.nodeIds, UNDERSCORE) && AllPieces(c.nodeIds, UNDERSCORE) == c.nodeIds
  {
    hide ScheduleOf, FocalNodes, SortedSet, TotalWeight, Risk, HasUncoveredPair, AllObligations, Join, AllPieces,
      Ascending;
    ScheduledIsSchedulable(nodes, width, covered, uncovered, limit, c);
    var focal := FocalNodes(nodes, width);
    assert Lists(SortedSet(focal), focal);
    PlainPieces(c.nodeIds, UNDERSCORE);
  }
}
