/** deepen/concurrency.py: generation of interleavings, and their cached replay. */
module Concurrency {
  import opened Wrappers

  type Cut(==, !new, 0)
  type Output(!new, 0)

  datatype Location = KnownLocation(name: string) | UnknownLocation(name: string)

  /** A step of an actor's program: its location and its position. */
  type Step = (Location, nat)

  datatype SchedulePoint = SchedulePoint(pointId: nat, actor: string, location: Location, stepIndex: nat)

  datatype Seed = Seed(value: int, salt: string, version: string)

  datatype Schedule = Schedule(scheduleId: int, seed: Seed, cut: Cut, actors: seq<string>, points: seq<SchedulePoint>)

  datatype ScheduleError =
    | EmptyActors | InvalidSchedulePointLocation | StaleHistoryCut | ConflictingScheduleDuplicate

  type Queues = map<string, seq<Step>>

  const DEFAULT_LOCATIONS: seq<Location> := [KnownLocation("BEFORE_MUTATION"), KnownLocation("AFTER_MUTATION")]

  function LocationsOf(locations: map<string, seq<Location>>, actor: string): seq<Location> {
    if actor in locations then locations[actor] else DEFAULT_LOCATIONS
  }

  /** The program of an actor: its locations, numbered. */
  function Program(locations: map<string, seq<Location>>, actor: string): (p: seq<Step>)
    ensures |p| == |LocationsOf(locations, actor)|
    ensures forall i :: 0 <= i < |p| ==> p[i] == (LocationsOf(locations, actor)[i], i)
  {
    var locs := LocationsOf(locations, actor);
    seq(|locs|, i requires 0 <= i < |locs| => (locs[i], i))
  }

  function Programs(actors: seq<string>, locations: map<string, seq<Location>>): (q: Queues)
    ensures forall a :: a in q <==> a in actors
    ensures forall a :: a in q ==> q[a] == Program(locations, a)
  {
    map a | a in actors :: Program(locations, a)
  }

  /** The steps of one actor, in the order of the schedule. */
  function Projection(points: seq<SchedulePoint>, actor: string): seq<Step> {
    if points == [] then []
    else
      var n := |points| - 1;
      Projection(points[..n], actor)
        + if points[n].actor == actor then [(points[n].location, points[n].stepIndex)] else []
  }

  /** points interleaves the programs: every actor runs its own program, in order and once, nobody else runs,
      and the points are numbered from zero. */
  ghost predicate Interleaves(points: seq<SchedulePoint>, programs: Queues) {
    && (forall a :: a in programs ==> Projection(points, a) == programs[a])
    && (forall i :: 0 <= i < |points| ==> points[i].actor in programs && points[i].pointId == i)
  }

  /** The actors with steps left, in the given order. */
  function Active(actors: seq<string>, q: Queues): (r: seq<string>)
    requires forall a :: a in actors ==> a in q
    ensures forall a :: a in r <==> a in actors && q[a] != []
  {
    if actors == [] then []
    else (if q[actors[0]] != [] then [actors[0]] else []) + Active(actors[1..], q)
  }

  /** The points chosen so far take the front of each program and leave its queue. */
  ghost predicate Partial(points: seq<SchedulePoint>, programs: Queues, q: Queues) {
    && q.Keys == programs.Keys
    && (forall a :: a in programs ==> Projection(points, a) + q[a] == programs[a])
    && (forall i :: 0 <= i < |points| ==> points[i].actor in programs && points[i].pointId == i)
  }

  ghost function Remaining(q: Queues): nat {
    Total(q, q.Keys)
  }

  ghost function Total(q: Queues, actors: set<string>): nat
    requires actors <= q.Keys
  {
    if actors == {} then 0
    else
      var a :| a in actors;
      |q[a]| + Total(q, actors - {a})
  }

  lemma {:induction false} TotalSplit(q: Queues, actors: set<string>, a: string)
    requires actors <= q.Keys && a in actors
    ensures Total(q, actors) == |q[a]| + Total(q, actors - {a})
    decreases actors
  {
    var b :| b in actors && Total(q, actors) == |q[b]| + Total(q, actors - {b});
    if b != a {
      TotalSplit(q, actors - {b}, a);
      TotalSplit(q, actors - {a}, b);
      assert actors - {b} - {a} == actors - {a} - {b};
    }
  }

  lemma {:induction false} TotalSame(q: Queues, q': Queues, actors: set<string>)
    requires actors <= q.Keys && actors <= q'.Keys && forall a :: a in actors ==> q[a] == q'[a]
    ensures Total(q, actors) == Total(q', actors)
    decreases actors
  {
    if actors != {} {
      var a :| a in actors;
      TotalSplit(q, actors, a);
      TotalSplit(q', actors, a);
      TotalSame(q, q', actors - {a});
    }
  }

  lemma PopShrinks(q: Queues, a: string)
    requires a in q && q[a] != []
    ensures Remaining(q[a := q[a][1..]]) == Remaining(q) - 1
  {
    var q' := q[a := q[a][1..]];
    assert q'.Keys == q.Keys;
    TotalSplit(q, q.Keys, a);
    TotalSplit(q', q.Keys, a);
    TotalSame(q, q', q.Keys - {a});
  }

  lemma OnePoint(points: seq<SchedulePoint>, p: SchedulePoint, actor: string)
    ensures Projection(points + [p], actor)
         == Projection(points, actor) + if p.actor == actor then [(p.location, p.stepIndex)] else []
  {
    assert (points + [p])[..|points|] == points;
  }

  lemma Take(points: seq<SchedulePoint>, programs: Queues, q: Queues, a: string)
    requires Partial(points, programs, q) && a in q && q[a] != []
    ensures Partial(points + [SchedulePoint(|points|, a, q[a][0].0, q[a][0].1)], programs, q[a := q[a][1..]])
  {
    hide Projection;
    var p := SchedulePoint(|points|, a, q[a][0].0, q[a][0].1);
    forall b | b in programs
      ensures Projection(points + [p], b) + q[a := q[a][1..]][b] == programs[b]
    {
      OnePoint(points, p, b);
      if b == a {
        assert q[a] == [q[a][0]] + q[a][1..];
      }
    }
  }

  /** The i-th point goes to the active actor that the choice picks. */
  ghost predicate Turn(actors: seq<string>, programs: Queues, points: seq<SchedulePoint>, i: nat, choice: nat) {
    && i < |points|
    && exists q :: Partial(points[..i], programs, q) && Picks(actors, q, choice, points[i].actor)
  }

  ghost predicate Picks(actors: seq<string>, q: Queues, choice: nat, actor: string) {
    && (forall a :: a in actors ==> a in q)
    && Active(actors, q) != []
    && actor == Active(actors, q)[choice % |Active(actors, q)|]
  }

  /** Every turn is decided by its choice. */
  ghost predicate Follows(actors: seq<string>, programs: Queues, points: seq<SchedulePoint>, choose: nat -> nat) {
    forall i: nat :: i < |points| ==> Turn(actors, programs, points, i, choose(i))
  }

  ghost predicate AllKnown(programs: Queues) {
    forall a, i :: a in programs && 0 <= i < |programs[a]| ==> programs[a][i].0.KnownLocation?
  }

  lemma Appended(actors: seq<string>, programs: Queues, points: seq<SchedulePoint>, p: SchedulePoint,
                 choose: nat -> nat, q: Queues)
    requires Follows(actors, programs, points, choose)
    requires Partial(points, programs, q) && Picks(actors, q, choose(|points|), p.actor)
    ensures Follows(actors, programs, points + [p], choose)
  {
    var points' := points + [p];
    forall i: nat | i < |points'|
      ensures Turn(actors, programs, points', i, choose(i))
    {
      if i < |points| {
        assert Turn(actors, programs, points, i, choose(i));
        assert points'[..i] == points[..i];
      } else {
        assert points'[..i] == points;
      }
    }
  }

  lemma NothingLeft(actors: seq<string>, programs: Queues, points: seq<SchedulePoint>, q: Queues)
    requires Partial(points, programs, q) && (forall a :: a in programs <==> a in actors)
    requires forall a :: a in actors ==> q[a] == []
    ensures Interleaves(points, programs)
  {
    forall a | a in programs
      ensures Projection(points, a) == programs[a]
    {
      assert Projection(points, a) + [] == programs[a];
    }
  }

  lemma HeadIsInProgram(points: seq<SchedulePoint>, programs: Queues, q: Queues, a: string)
    requires Partial(points, programs, q) && a in q && q[a] != []
    ensures exists i :: 0 <= i < |programs[a]| && programs[a][i] == q[a][0]
  {
    var i := |Projection(points, a)|;
    assert programs[a][i] == q[a][0];
  }

  lemma UnknownHead(points: seq<SchedulePoint>, programs: Queues, q: Queues, a: string)
    requires Partial(points, programs, q) && a in q && q[a] != [] && q[a][0].0.UnknownLocation?
    ensures !AllKnown(programs)
  {
    HeadIsInProgram(points, programs, q, a);
    assert a in programs;
  }

  /** One round: the point for the drawn actor's next step is appended and the step leaves its queue. */
  lemma Scheduled(actors: seq<string>, programs: Queues, points: seq<SchedulePoint>, q: Queues, choose: nat -> nat,
                  a: string)
    requires Partial(points, programs, q) && Follows(actors, programs, points, choose)
    requires (forall b :: b in actors ==> b in q) && Active(actors, q) != []
    requires a == Active(actors, q)[choose(|points|) % |Active(actors, q)|] && a in q && q[a] != []
    ensures var p := SchedulePoint(|points|, a, q[a][0].0, q[a][0].1);
            var q' := q[a := q[a][1..]];
            && Partial(points + [p], programs, q') && Follows(actors, programs, points + [p], choose)
            && Remaining(q') < Remaining(q)
  {
    hide Partial, Follows, Remaining;
    var p := SchedulePoint(|points|, a, q[a][0].0, q[a][0].1);
    MakePick(actors, q, choose(|points|));
    hide Picks, Active;
    Appended(actors, programs, points, p, choose, q);
    Take(points, programs, q, a);
    PopShrinks(q, a);
  }

  /** generate_schedule, for any random choices: choose(n) stands for the n-th draw. */
  method GenerateSchedule(seed: Seed, actors: seq<string>, locations: map<string, seq<Location>>, cut: Cut,
                          choose: nat -> nat)
    returns (r: Result<Schedule, ScheduleError>)
    ensures actors == [] ==> r == Failure(EmptyActors)
    ensures actors != [] ==>
              (r.Success? <==> AllKnown(Programs(actors, locations)))
              && (r.Failure? ==> r.error.InvalidSchedulePointLocation?)
    ensures r.Success? ==>
              && Interleaves(r.value.points, Programs(actors, locations))
              && Follows(actors, Programs(actors, locations), r.value.points, choose)
              && r.value == Schedule(seed.value, seed, cut, actors, r.value.points)
  {
    hide Partial, Picks, Follows, Interleaves, Remaining, Program, Active, AllKnown, LocationsOf;
    if actors == [] {
      return Failure(EmptyActors);
    }
    var queues := Programs(actors, locations);
    ghost var programs := queues;
    var points: seq<SchedulePoint> := [];
    Start(actors, programs, choose);
    var active := Active(actors, queues);
    while active != []
      invariant queues.Keys == programs.Keys
      invariant Partial(points, programs, queues) && Follows(actors, programs, points, choose)
      invariant active == Active(actors, queues)
      invariant forall i :: 0 <= i < |points| ==> points[i].location.KnownLocation?
      decreases Remaining(queues)
    {
      var chosen := active[choose(|points|) % |active|];
      assert chosen in active;
      var (loc, stepIdx) := queues[chosen][0];
      if loc.UnknownLocation? {
        UnknownHead(points, programs, queues, chosen);
        return Failure(InvalidSchedulePointLocation);
      }
      var p := SchedulePoint(|points|, chosen, loc, stepIdx);
      Scheduled(actors, programs, points, queues, choose, chosen);
      points := points + [p];
      queues := queues[chosen := queues[chosen][1..]];
      active := Active(actors, queues);
    }
    NothingLeft(actors, programs, points, queues);
    KnownPoints(points, programs);
    return Success(Schedule(seed.value, seed, cut, actors, points));
  }

  lemma MakePick(actors: seq<string>, q: Queues, choice: nat)
    requires (forall a :: a in actors ==> a in q) && Active(actors, q) != []
    ensures Picks(actors, q, choice, Active(actors, q)[choice % |Active(actors, q)|])
  {
  }

  lemma Start(actors: seq<string>, programs: Queues, choose: nat -> nat)
    ensures Partial([], programs, programs) && Follows(actors, programs, [], choose)
  {
    forall a | a in programs
      ensures Projection([], a) + programs[a] == programs[a]
    {
      assert [] + programs[a] == programs[a];
    }
  }

  /** Every step of every program is one of the points. */
  lemma {:induction false} InProjection(points: seq<SchedulePoint>, a: string, i: nat)
    requires i < |Projection(points, a)|
    ensures exists j :: 0 <= j < |points| && (points[j].location, points[j].stepIndex) == Projection(points, a)[i]
    decreases |points|
  {
    var n := |points| - 1;
    if i < |Projection(points[..n], a)| {
      InProjection(points[..n], a, i);
      var j :| 0 <= j < n && (points[..n][j].location, points[..n][j].stepIndex) == Projection(points[..n], a)[i];
      assert points[j] == points[..n][j];
    } else {
      assert (points[n].location, points[n].stepIndex) == Projection(points, a)[i];
    }
  }

  lemma KnownPoints(points: seq<SchedulePoint>, programs: Queues)
    requires Interleaves(points, programs)
    requires forall i :: 0 <= i < |points| ==> points[i].location.KnownLocation?
    ensures AllKnown(programs)
  {
    forall a, i | a in programs && 0 <= i < |programs[a]|
      ensures programs[a][i].0.KnownLocation?
    {
      InProjection(points, a, i);
    }
  }

  // ----- every interleaving can be generated -----

  /** What a schedule's prefix leaves of each program. */
  lemma {:induction false} PrefixProjection(points: seq<SchedulePoint>, i: nat, a: string)
    requires i <= |points|
    ensures |Projection(points[..i], a)| <= |Projection(points, a)|
    ensures Projection(points, a)[..|Projection(points[..i], a)|] == Projection(points[..i], a)
    ensures i < |points| && points[i].actor == a ==>
              && |Projection(points[..i], a)| < |Projection(points, a)|
              && Projection(points, a)[|Projection(points[..i], a)|] == (points[i].location, points[i].stepIndex)
    decreases |points|
  {
    if i == |points| {
      assert points[..i] == points;
    } else {
      var n := |points| - 1;
      assert points[..n][..i] == points[..i];
      PrefixProjection(points[..n], i, a);
    }
  }

  /** The queues after the first i points of an interleaving. */
  function QueuesAfter(programs: Queues, points: seq<SchedulePoint>): (q: Queues)
    requires forall a :: a in programs ==> |Projection(points, a)| <= |programs[a]|
    ensures q.Keys == programs.Keys
  {
    map a | a in programs :: programs[a][|Projection(points, a)|..]
  }

  lemma PrefixIsPartial(points: seq<SchedulePoint>, programs: Queues, i: nat)
    requires Interleaves(points, programs) && i <= |points|
    ensures forall a :: a in programs ==> |Projection(points[..i], a)| <= |programs[a]|
    ensures Partial(points[..i], programs, QueuesAfter(programs, points[..i]))
    ensures i < |points| ==>
              && points[i].actor in programs && QueuesAfter(programs, points[..i])[points[i].actor] != []
              && QueuesAfter(programs, points[..i])[points[i].actor][0] == (points[i].location, points[i].stepIndex)
  {
    forall a | a in programs
      ensures |Projection(points[..i], a)| <= |programs[a]|
      ensures Projection(points[..i], a) + programs[a][|Projection(points[..i], a)|..] == programs[a]
    {
      PrefixProjection(points, i, a);
    }
    if i < |points| {
      PrefixProjection(points, i, points[i].actor);
    }
  }

  /** The choice that picks an actor with steps left. */
  lemma ActiveAt(actors: seq<string>, q: Queues, actor: string) returns (c: nat)
    requires (forall a :: a in actors ==> a in q) && actor in actors && q[actor] != []
    ensures Picks(actors, q, c, actor)
  {
    hide Active;
    var active := Active(actors, q);
    assert actor in active;
    c :| c < |active| && active[c] == actor;
    SmallModulo(c, |active|);
  }

  lemma SmallModulo(c: nat, n: nat)
    requires c < n
    ensures c % n == c
  {
  }

  /** The choice that gives the i-th turn of an interleaving to its actor. */
  lemma ChoiceExists(points: seq<SchedulePoint>, actors: seq<string>, programs: Queues, i: nat)
    requires Interleaves(points, programs) && i < |points| && (forall a :: a in programs <==> a in actors)
    ensures exists c: nat :: Turn(actors, programs, points, i, c)
  {
    PrefixIsPartial(points, programs, i);
    hide Interleaves, Partial, QueuesAfter, Projection, Active;
    var q := QueuesAfter(programs, points[..i]);
    var c := ActiveAt(actors, q, points[i].actor);
    assert Turn(actors, programs, points, i, c);
  }

  ghost function ChoiceAt(points: seq<SchedulePoint>, actors: seq<string>, programs: Queues, i: nat): nat
    requires Interleaves(points, programs) && (forall a :: a in programs <==> a in actors)
  {
    if i < |points| then
      ChoiceExists(points, actors, programs, i);
      var c: nat :| Turn(actors, programs, points, i, c);
      c
    else 0
  }

  /** Partial queues are determined by the points chosen. */
  lemma PartialUnique(points: seq<SchedulePoint>, programs: Queues, q: Queues, q': Queues)
    requires Partial(points, programs, q) && Partial(points, programs, q')
    ensures q == q'
  {
    forall a | a in programs
      ensures q[a] == q'[a]
    {
      assert q[a] == programs[a][|Projection(points, a)|..];
      assert q'[a] == programs[a][|Projection(points, a)|..];
    }
  }

  lemma SameTurn(points: seq<SchedulePoint>, points': seq<SchedulePoint>, actors: seq<string>, programs: Queues,
                 k: nat, choice: nat)
    requires Interleaves(points, programs) && Interleaves(points', programs)
    requires Turn(actors, programs, points, k, choice) && Turn(actors, programs, points', k, choice)
    requires points[..k] == points'[..k]
    ensures points[k] == points'[k]
  {
    assert points[k].pointId == k == points'[k].pointId;
    PrefixIsPartial(points, programs, k);
    PrefixIsPartial(points', programs, k);
    hide Interleaves, Partial, QueuesAfter, Projection, Active;
    var q :| Partial(points[..k], programs, q) && Picks(actors, q, choice, points[k].actor);
    var q' :| Partial(points'[..k], programs, q') && Picks(actors, q', choice, points'[k].actor);
    PartialUnique(points[..k], programs, q, q');
    assert points[k].actor == points'[k].actor;
  }

  /** The choices determine the interleaving. */
  lemma {:induction false} ChoicesDetermine(points: seq<SchedulePoint>, points': seq<SchedulePoint>,
                                            actors: seq<string>, programs: Queues, choose: nat -> nat, i: nat)
    requires Interleaves(points, programs) && Interleaves(points', programs)
    requires Follows(actors, programs, points, choose) && Follows(actors, programs, points', choose)
    requires i <= |points| && i <= |points'|
    ensures points[..i] == points'[..i]
    ensures i < |points| <==> i < |points'|
  {
    hide Interleaves, Turn;
    if i > 0 {
      var k := i - 1;
      ChoicesDetermine(points, points', actors, programs, choose, k);
      SameTurn(points, points', actors, programs, k, choose(k));
      assert points[..i] == points[..k] + [points[k]] && points'[..i] == points'[..k] + [points'[k]];
    }
    SameEnd(points, points', programs, i);
  }

  lemma SameEnd(points: seq<SchedulePoint>, points': seq<SchedulePoint>, programs: Queues, i: nat)
    requires Interleaves(points, programs) && Interleaves(points', programs)
    requires i <= |points| && i <= |points'| && points[..i] == points'[..i]
    ensures i < |points| <==> i < |points'|
  {
    PrefixIsPartial(points, programs, i);
    PrefixIsPartial(points', programs, i);
    if i == |points| {
      WholeIsSpent(points, programs);
      assert points[..i] == points;
    }
    if i == |points'| {
      WholeIsSpent(points', programs);
      assert points'[..i] == points';
    }
  }

  /** After all of an interleaving nothing is left to schedule. */
  lemma WholeIsSpent(points: seq<SchedulePoint>, programs: Queues)
    requires Interleaves(points, programs)
    ensures forall a :: a in QueuesAfter(programs, points) ==> QueuesAfter(programs, points)[a] == []
  {
    PrefixIsPartial(points, programs, |points|);
    assert points[..|points|] == points;
  }

  /** Completeness: every interleaving of the programs follows some choices, and no other one follows them. */
  lemma EveryInterleaving(points: seq<SchedulePoint>, actors: seq<string>, programs: Queues)
    returns (choose: nat -> nat)
    requires Interleaves(points, programs) && (forall a :: a in programs <==> a in actors)
    ensures Follows(actors, programs, points, choose)
    ensures forall points' :: Interleaves(points', programs) && Follows(actors, programs, points', choose) ==>
        points' == points
  {
    hide Interleaves, Turn;
    choose := i => ChoiceAt(points, actors, programs, i);
    forall i: nat | i < |points|
      ensures Turn(actors, programs, points, i, choose(i))
    {
      ChoiceExists(points, actors, programs, i);
    }
    forall points' | Interleaves(points', programs) && Follows(actors, programs, points', choose)
      ensures points' == points
    {
      NoOther(points, points', actors, programs, choose);
    }
  }

  lemma NoOther(points: seq<SchedulePoint>, points': seq<SchedulePoint>, actors: seq<string>, programs: Queues,
                choose: nat -> nat)
    requires Interleaves(points, programs) && Interleaves(points', programs)
    requires Follows(actors, programs, points, choose) && Follows(actors, programs, points', choose)
    ensures points == points'
  {
    hide Interleaves, Follows;
    var n := if |points| <= |points'| then |points| else |points'|;
    ChoicesDetermine(points, points', actors, programs, choose, n);
    assert points[..n] == points && points'[..n] == points';
  }

  // ----- replay -----

  /** What the schedule digest covers: injective, up to the order in which actors are listed. */
  datatype ScheduleDigest = ScheduleDigest(scheduleId: int, seed: Seed, cut: Cut, actors: multiset<string>,
                                           points: seq<SchedulePoint>)

  function DigestOf(s: Schedule): ScheduleDigest {
    ScheduleDigest(s.scheduleId, s.seed, s.cut, multiset(s.actors), s.points)
  }

  datatype ReplayResult = ReplayResult(scheduleId: int, digest: ScheduleDigest, seedValue: int, executedPoints: nat,
                                       raceDetected: bool, finalOutput: Option<Output>,
                                       traceLog: seq<(SchedulePoint, Output)>)

  /** The target: its answer to a point may depend on every point it was given before. */
  type Runner = seq<SchedulePoint> -> (bool, Output)

  /** The target reports a race at the i-th point. */
  predicate RaceAt(s: Schedule, runner: Runner, i: nat)
    requires i < |s.points|
  {
    runner(s.points[..i + 1]).0
  }

  /** The result of running the target over the whole schedule. */
  ghost predicate ResultOf(s: Schedule, runner: Runner, r: ReplayResult) {
    var n := |s.points|;
    && r.scheduleId == s.scheduleId && r.digest == DigestOf(s) && r.seedValue == s.seed.value && r.executedPoints == n
    && (r.raceDetected <==> exists i :: 0 <= i < n && RaceAt(s, runner, i))
    && r.finalOutput == (if n == 0 then None else Some(runner(s.points).1))
    && |r.traceLog| == n
    && forall i :: 0 <= i < n ==> r.traceLog[i] == (s.points[i], runner(s.points[..i + 1]).1)
  }

  type Cache = map<int, ReplayResult>

  /** What replay answers, and what it does to the cache and to the list of completed executions. */
  ghost predicate Replayed(cache: Cache, executed: seq<int>, s: Schedule, runner: Runner, cut: Option<Cut>,
                           cache': Cache, executed': seq<int>, r: Result<ReplayResult, ScheduleError>)
  {
    if cut.Some? && cut.value != s.cut then
      r == Failure(StaleHistoryCut) && cache' == cache && executed' == executed
    else if s.scheduleId in cache then
      && cache' == cache && executed' == executed
      && r == if cache[s.scheduleId].digest == DigestOf(s) then Success(cache[s.scheduleId])
          else Failure(ConflictingScheduleDuplicate)
    else
      && r.Success? && ResultOf(s, runner, r.value)
      && cache' == cache[s.scheduleId := r.value] && executed' == executed + [s.scheduleId]
  }

  class ScheduleReplayEngine {
    var replayCache: Cache
    /** The ids whose schedules the target was run on, in order. */
    ghost var executed: seq<int>

    constructor ()
      ensures replayCache == map[] && executed == []
    {
      replayCache, executed := map[], [];
    }

    method Replay(s: Schedule, runner: Runner, cut: Option<Cut>) returns (r: Result<ReplayResult, ScheduleError>)
      modifies this
      ensures Replayed(old(replayCache), old(executed), s, runner, cut, replayCache, executed, r)
    {
      if cut.Some? && cut.value != s.cut {
        return Failure(StaleHistoryCut);
      }
      if s.scheduleId in replayCache {
        var cached := replayCache[s.scheduleId];
        if cached.digest != DigestOf(s) {
          return Failure(ConflictingScheduleDuplicate);
        }
        return Success(cached);
      }
      var traceLog: seq<(SchedulePoint, Output)> := [];
      var anyRace := false;
      var finalVal: Option<Output> := None;
      for i := 0 to |s.points|
        invariant |traceLog| == i
        invariant forall j :: 0 <= j < i ==> traceLog[j] == (s.points[j], runner(s.points[..j + 1]).1)
        invariant anyRace <==> exists j :: 0 <= j < i && RaceAt(s, runner, j)
        invariant finalVal == if i == 0 then None else Some(runner(s.points[..i]).1)
      {
        var (raceFlag, outVal) := runner(s.points[..i + 1]);
        traceLog := traceLog + [(s.points[i], outVal)];
        assert raceFlag == RaceAt(s, runner, i);
        anyRace := anyRace || raceFlag;
        finalVal := Some(outVal);
      }
      assert s.points[..|s.points|] == s.points;
      var result := ReplayResult(s.scheduleId, DigestOf(s), s.seed.value, |s.points|, anyRace, finalVal, traceLog);
      replayCache := replayCache[s.scheduleId := result];
      executed := executed + [s.scheduleId];
      return Success(result);
    }
  }

  /** One call of replay. */
  datatype Call = Call(schedule: Schedule, runner: Runner, cut: Option<Cut>)

  ghost predicate Run(caches: seq<Cache>, logs: seq<seq<int>>, calls: seq<Call>,
                      rs: seq<Result<ReplayResult, ScheduleError>>)
  {
    && |caches| == |logs| == |calls| + 1 && |rs| == |calls|
    && caches[0] == map[] && logs[0] == []
    && forall i :: 0 <= i < |calls| ==>
         Replayed(caches[i], logs[i], calls[i].schedule, calls[i].runner, calls[i].cut, caches[i + 1], logs[i + 1],
             rs[i])
  }

  /** Over every run the target is run at most once for an id, and exactly for the ids cached. */
  lemma {:induction false} AtMostOnce(caches: seq<Cache>, logs: seq<seq<int>>, calls: seq<Call>,
                                      rs: seq<Result<ReplayResult, ScheduleError>>, n: nat)
    requires Run(caches, logs, calls, rs) && n <= |calls|
    ensures forall i, j :: 0 <= i < j < |logs[n]| ==> logs[n][i] != logs[n][j]
    ensures forall id :: id in logs[n] <==> id in caches[n]
    ensures forall id :: id in caches[n] ==> caches[n][id].scheduleId == id && caches[n][id].digest.scheduleId == id
  {
    if n > 0 {
      AtMostOnce(caches, logs, calls, rs, n - 1);
      var c := calls[n - 1];
      assert Replayed(caches[n - 1], logs[n - 1], c.schedule, c.runner, c.cut, caches[n], logs[n], rs[n - 1]);
      hide ResultOf;
      if logs[n] != logs[n - 1] {
        assert ResultOf(c.schedule, c.runner, rs[n - 1].value);
        NewResult(c.schedule, c.runner, rs[n - 1].value);
      }
    }
  }

  lemma NewResult(s: Schedule, runner: Runner, r: ReplayResult)
    requires ResultOf(s, runner, r)
    ensures r.scheduleId == s.scheduleId && r.digest == DigestOf(s)
  {
  }

  /** A cached result is never overwritten. */
  lemma {:induction false} CacheIsStable(caches: seq<Cache>, logs: seq<seq<int>>, calls: seq<Call>,
                                         rs: seq<Result<ReplayResult, ScheduleError>>, m: nat, n: nat, id: int)
    requires Run(caches, logs, calls, rs) && m <= n <= |calls| && id in caches[m]
    ensures id in caches[n] && caches[n][id] == caches[m][id]
    decreases n - m
  {
    hide ResultOf;
    if m < n {
      CacheIsStable(caches, logs, calls, rs, m, n - 1, id);
      var c := calls[n - 1];
      assert Replayed(caches[n - 1], logs[n - 1], c.schedule, c.runner, c.cut, caches[n], logs[n], rs[n - 1]);
    }
  }

  /** Once a schedule was replayed, replaying one with the same digest gives the same result, whatever the target;
      one that reuses the id under another digest is refused. */
  lemma ReplayIsIdempotent(caches: seq<Cache>, logs: seq<seq<int>>, calls: seq<Call>,
                           rs: seq<Result<ReplayResult, ScheduleError>>, m: nat, n: nat)
    requires Run(caches, logs, calls, rs) && m < n < |calls| && rs[m].Success?
    requires calls[n].schedule.scheduleId == calls[m].schedule.scheduleId
    requires calls[n].cut.Some? ==> calls[n].cut.value == calls[n].schedule.cut
    ensures rs[n] == if DigestOf(calls[n].schedule) == DigestOf(calls[m].schedule) then rs[m]
        else Failure(ConflictingScheduleDuplicate)
  {
    hide ResultOf;
    var c, d, id := calls[m], calls[n], calls[m].schedule.scheduleId;
    assert Replayed(caches[m], logs[m], c.schedule, c.runner, c.cut, caches[m + 1], logs[m + 1], rs[m]);
    if id !in caches[m] {
      NewResult(c.schedule, c.runner, rs[m].value);
    }
    assert caches[m + 1][id] == rs[m].value && rs[m].value.digest == DigestOf(c.schedule);
    CacheIsStable(caches, logs, calls, rs, m + 1, n, id);
    assert Replayed(caches[n], logs[n], d.schedule, d.runner, d.cut, caches[n + 1], logs[n + 1], rs[n]);
  }
}
