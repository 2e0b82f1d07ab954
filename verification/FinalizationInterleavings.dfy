/** Several finalization calls at once, with the commits of others. A boundary looks up in one history and has its
    artifact accepted in a later one; the store admits it only if nothing came between. So calls interleaved in this way
    do nothing that calls whose boundaries are single steps do not. The STOP is settled once, when a call starts. */
module FinalizationInterleavings {
  import opened Wrappers
  import opened Finalization
  import opened FinalizationRuns

  // ----- a boundary as one step -----

  /** Where a call stands: its STOP is settled, or it has passed one, two or all three boundaries. */
  datatype Phase =
    | Planned(plan: Plan, req: Request)
    | Concluded(plan: Plan, req: Request, concl: Record)
    | Cased(plan: Plan, req: Request, concl: Record, final: Record)
    | Qualified(plan: Plan, req: Request, concl: Record, final: Record, qual: Record)

  /** The history and the calls in progress or finished. */
  datatype System = System(log: Log, calls: map<nat, Phase>)

  /** The next boundary of a call on the present history. */
  ghost function Advanced(log: Log, p: Phase): Result<(Log, Phase), Error>
    requires log != []
  {
    match p
    case Planned(plan, req) =>
      (match ConclusionBoundary(log, plan, req)
       case Failure(e) => Failure(e)
       case Success(b) => Success((b.log, Concluded(plan, req, b.record))))
    case Concluded(plan, req, concl) =>
      (match FinalCaseBoundary(log, plan, req, DigestOf(concl.body))
       case Failure(e) => Failure(e)
       case Success(b) => Success((b.log, Cased(plan, req, concl, b.record))))
    case Cased(plan, req, concl, final) =>
      (match QualificationBoundary(log, plan, req, DigestOf(concl.body), DigestOf(final.body))
       case Failure(e) => Failure(e)
       case Success(b) => Success((b.log, Qualified(plan, req, concl, final, b.record))))
    case Qualified(_, _, _, _, _) => Success((log, p))
  }

  /** A commit of others, or the STOP gate's. */
  ghost predicate Commits(s: System, s': System) {
    ForeignCommit(s.log, s'.log) && s'.calls == s.calls
  }

  ghost predicate Starts(current: Freshness, s: System, s': System) {
    exists id: nat, req ::
      id !in s.calls && PlanFor(current, s.log, req).Success?
      && s' == s.(calls := s.calls[id := Planned(PlanFor(current, s.log, req).value, req)])
  }

  ghost predicate Advances(s: System, s': System) {
    s.log != [] && exists id :: id in s.calls && AdvancesCall(s, id, s')
  }

  ghost predicate AdvancesCall(s: System, id: nat, s': System)
    requires s.log != [] && id in s.calls
  {
    Advanced(s.log, s.calls[id]).Success?
    && s' == System(Advanced(s.log, s.calls[id]).value.0, s.calls[id := Advanced(s.log, s.calls[id]).value.1])
  }

  /** A call is refused at its next boundary, or crashes. */
  ghost predicate Drops(s: System, s': System) {
    exists id :: id in s.calls && s' == s.(calls := s.calls - {id})
  }

  ghost predicate Moves(current: Freshness, s: System, s': System) {
    s' == s || Commits(s, s') || Starts(current, s, s') || Advances(s, s') || Drops(s, s')
  }

  ghost predicate Coarse(current: Freshness, ss: seq<System>) {
    && ss != [] && ss[0] == System([], map[])
    && forall i :: 0 <= i < |ss| - 1 ==> Moves(current, ss[i], ss[i + 1])
  }

  /** What a call in progress may rely on, whatever the others do. */
  ghost predicate Holds(log: Log, p: Phase) {
    && PlanHonest(p.plan)
    && match p
       case Planned(_, _) => true
       case Concluded(plan, _, concl) => ConclusionAt(Boundary(log, concl), plan)
       case Cased(plan, _, concl, final) => FinalCaseAt(Boundary(log, final), plan, concl)
       case Qualified(plan, _, concl, final, qual) => QualificationAt(Boundary(log, qual), plan, concl, final)
  }

  ghost predicate Safe(s: System) {
    Sound(s.log) && forall id :: id in s.calls ==> Holds(s.log, s.calls[id])
  }

  lemma HoldsStill(log: Log, log': Log, p: Phase)
    requires Holds(log, p) && Extends(log, log')
    ensures Holds(log', p)
  {
    hide PlanHonest, FinalCaseRests, QualificationRests;
    RestsExtend(log, log');
    match p
    case Planned(_, _) =>
    case Concluded(plan, _, concl) =>
      var i :| IsConclusion(log, i) && log[i] == concl;
      assert IsConclusion(log', i) && log'[i] == concl;
    case Cased(plan, _, concl, final) => CasedStill(log, log', plan, concl, final);
    case Qualified(plan, _, concl, final, qual) => QualifiedStill(log, log', plan, concl, final, qual);
  }

  lemma CasedStill(log: Log, log': Log, plan: Plan, concl: Record, final: Record)
    requires FinalCaseAt(Boundary(log, final), plan, concl) && Extends(log, log')
    ensures FinalCaseAt(Boundary(log', final), plan, concl)
  {
    RestsExtend(log, log');
    var i, j :| FinalCaseRests(log, i, j) && log[i] == concl && log[j] == final;
    assert FinalCaseRests(log', i, j) && log'[i] == concl && log'[j] == final;
  }

  lemma QualifiedStill(log: Log, log': Log, plan: Plan, concl: Record, final: Record, qual: Record)
    requires QualificationAt(Boundary(log, qual), plan, concl, final) && Extends(log, log')
    ensures QualificationAt(Boundary(log', qual), plan, concl, final)
  {
    RestsExtend(log, log');
    var i, j, k :|
      FinalCaseRests(log, i, j) && QualificationRests(log, j, k) && log[i] == concl && log[j] == final
          && log[k] == qual;
    assert FinalCaseRests(log', i, j) && QualificationRests(log', j, k);
    assert log'[i] == concl && log'[j] == final && log'[k] == qual;
  }

  lemma AdvanceKeeps(log: Log, p: Phase)
    requires Sound(log) && log != [] && Holds(log, p) && Advanced(log, p).Success?
    ensures var (log', p') := Advanced(log, p).value;
            Sound(log') && Extends(log, log') && Holds(log', p')
  {
    hide Sound, PlanHonest, Extends, ConclusionBoundary, FinalCaseBoundary, QualificationBoundary, ConclusionAt,
      FinalCaseAt, QualificationAt;
    match p
    case Planned(plan, req) => ConclusionKeeps(log, plan, req);
    case Concluded(plan, req, concl) => FinalCaseKeeps(Boundary(log, concl), plan, req);
    case Cased(plan, req, concl, final) => QualificationKeeps(Boundary(log, final), plan, req, concl);
    case Qualified(_, _, _, _, _) => ExtendsSelf(log);
  }

  lemma ExtendsSelf(log: Log)
    ensures Extends(log, log)
  {
  }

  lemma OthersKeep(s: System, s': System)
    requires Safe(s) && Sound(s'.log) && Extends(s.log, s'.log)
    requires forall id :: id in s'.calls ==>
        (id in s.calls && s'.calls[id] == s.calls[id]) || Holds(s'.log, s'.calls[id])
    ensures Safe(s')
  {
    hide Sound, Holds, Extends;
    forall id | id in s'.calls
      ensures Holds(s'.log, s'.calls[id])
    {
      if id in s.calls && s'.calls[id] == s.calls[id] {
        HoldsStill(s.log, s'.log, s.calls[id]);
      }
    }
  }

  lemma MoveKeeps(current: Freshness, s: System, s': System)
    requires Safe(s) && Moves(current, s, s')
    ensures Safe(s')
  {
    hide Sound, Holds, Extends, Advanced, PlanFor;
    ExtendsSelf(s.log);
    if Commits(s, s') {
      ForeignCommitKeeps(s.log, s'.log);
    } else if Starts(current, s, s') {
      var id: nat, req :| id !in s.calls && PlanFor(current, s.log, req).Success?
        && s' == s.(calls := s.calls[id := Planned(PlanFor(current, s.log, req).value, req)]);
      PlanIsHonest(current, s.log, req);
      StartedHolds(s.log, PlanFor(current, s.log, req).value, req);
    } else if Advances(s, s') {
      var id :| id in s.calls && AdvancesCall(s, id, s');
      AdvanceKeeps(s.log, s.calls[id]);
    }
    OthersKeep(s, s');
  }

  lemma StartedHolds(log: Log, plan: Plan, req: Request)
    requires PlanHonest(plan)
    ensures Holds(log, Planned(plan, req))
  {
  }

  lemma {:induction false} CoarseIsSafe(current: Freshness, ss: seq<System>, n: nat)
    requires Coarse(current, ss) && n < |ss|
    ensures Safe(ss[n])
  {
    if n > 0 {
      CoarseIsSafe(current, ss, n - 1);
      MoveKeeps(current, ss[n - 1], ss[n]);
    } else {
      NothingYet();
    }
  }

  lemma NothingYet()
    ensures Safe(System([], map[]))
  {
  }

  lemma ChainOf(log: Log, p: Phase) returns (i: int, j: int, k: int)
    requires p.Qualified? && Holds(log, p)
    ensures 0 <= i < |log| && 0 <= j < |log| && 0 <= k < |log|
    ensures FinalCaseRests(log, i, j) && QualificationRests(log, j, k)
    ensures log[i] == p.concl && log[j] == p.final && log[k] == p.qual
    ensures log[i].body.ConclusionBody? && log[i].body.conclusion.stop == p.plan.stop
  {
    hide PlanHonest;
    i, j, k :| FinalCaseRests(log, i, j) && QualificationRests(log, j, k)
      && log[i] == p.concl && log[j] == p.final && log[k] == p.qual;
  }

  lemma OneChain(log: Log, i: int, j: int, k: int, i': int, j': int, k': int)
    requires Sound(log) && FinalCaseRests(log, i, j) && QualificationRests(log, j, k)
    requires FinalCaseRests(log, i', j') && QualificationRests(log, j', k')
    requires log[i].body.conclusion.stop == log[i'].body.conclusion.stop
    ensures i == i' && j == j' && k == k'
  {
    hide Chained, Ordered;
    assert IsConclusion(log, i) && IsConclusion(log, i') && IsFinalCase(log, j) && IsFinalCase(log, j');
    assert IsQualification(log, k) && IsQualification(log, k');
  }

  // ----- lookup and acceptance apart -----

  /** A call between two boundaries, or one whose lookup found nothing and whose artifact is on its way to the store. */
  datatype Stage = At(phase: Phase) | Offering(phase: Phase, body: Body)

  datatype Store = Store(log: Log, calls: map<nat, Stage>)

  /** What the lookup of a boundary leads to: a refusal, the record it finds, or an artifact drawn from the history it
      sees. */
  ghost function Looked(log: Log, p: Phase): Result<Stage, Error>
    requires log != []
  {
    match Advanced(log, p)
    case Failure(e) => Failure(e)
    case Success((log', p')) => Success(if |log'| == |log| then At(p') else Offering(p, log'[|log|].body))
  }

  /** The phase after the record is found or accepted. */
  ghost function Filled(p: Phase, r: Record): Phase {
    match p
    case Planned(plan, req) => Concluded(plan, req, r)
    case Concluded(plan, req, concl) => Cased(plan, req, concl, r)
    case Cased(plan, req, concl, final) => Qualified(plan, req, concl, final, r)
    case Qualified(_, _, _, _, _) => p
  }

  ghost predicate Begins(current: Freshness, s: Store, s': Store) {
    exists id: nat, req ::
      id !in s.calls && PlanFor(current, s.log, req).Success?
      && s' == s.(calls := s.calls[id := At(Planned(PlanFor(current, s.log, req).value, req))])
  }

  ghost predicate Looks(s: Store, s': Store) {
    s.log != [] && exists id :: id in s.calls && LooksCall(s, id, s')
  }

  ghost predicate LooksCall(s: Store, id: nat, s': Store)
    requires s.log != [] && id in s.calls
  {
    s.calls[id].At? && Looked(s.log, s.calls[id].phase).Success?
    && s' == s.(calls := s.calls[id := Looked(s.log, s.calls[id].phase).value])
  }

  ghost predicate Offers(s: Store, s': Store) {
    s.log != [] && exists id :: id in s.calls && OffersCall(s, id, s')
  }

  /** The store admits what the call offers. */
  ghost predicate OffersCall(s: Store, id: nat, s': Store)
    requires s.log != [] && id in s.calls
  {
    s.calls[id].Offering? && Admit(s.log, s.calls[id].body).Success?
    && var log' := Admit(s.log, s.calls[id].body).value;
       s' == Store(log', s.calls[id := At(Filled(s.calls[id].phase, log'[|log'| - 1]))])
  }

  ghost predicate OthersCommit(s: Store, s': Store) {
    ForeignCommit(s.log, s'.log) && s'.calls == s.calls
  }

  /** A call is refused, by its lookup or by the store, or crashes. */
  ghost predicate Ends(s: Store, s': Store) {
    exists id :: id in s.calls && s' == s.(calls := s.calls - {id})
  }

  ghost predicate Steps(current: Freshness, s: Store, s': Store) {
    OthersCommit(s, s') || Begins(current, s, s') || Looks(s, s') || Offers(s, s') || Ends(s, s')
  }

  ghost predicate Interleaving(current: Freshness, ss: seq<Store>) {
    && ss != [] && ss[0] == Store([], map[])
    && forall i :: 0 <= i < |ss| - 1 ==> Steps(current, ss[i], ss[i + 1])
  }

  // ----- nothing comes between a lookup and an acceptance -----

  /** The log goes on from what was seen, in commits numbered above the head seen. */
  ghost predicate Later(seen: Log, log: Log) {
    && seen != [] && Extends(seen, log)
    && forall i :: |seen| <= i < |log| ==> Head(seen).number < log[i].number
  }

  /** A head is that of one history only. */
  lemma SameHead(seen: Log, log: Log)
    requires Later(seen, log) && Head(log) == Head(seen)
    ensures log == seen
  {
  }

  lemma LaterStill(seen: Log, log: Log, log': Log)
    requires Later(seen, log) && (log' == log || Later(log, log'))
    ensures Later(seen, log')
  {
    assert Head(seen).number <= Head(log).number;
  }

  /** The artifact was drawn by a boundary that found nothing in a history the log goes on from. */
  ghost predicate OfferStands(log: Log, p: Phase, body: Body) {
    exists seen :: Later(seen, log) && Looked(seen, p) == Success(Offering(p, body))
  }

  ghost predicate OffersStand(s: Store) {
    forall id :: id in s.calls && s.calls[id].Offering? ==> OfferStands(s.log, s.calls[id].phase, s.calls[id].body)
  }

  /** What a lookup draws is admitted just where nothing has come between, and then the boundary is as one step. */
  lemma DrawnIsAdmittedIff(seen: Log, log: Log, p: Phase, body: Body)
    requires Later(seen, log) && Looked(seen, p) == Success(Offering(p, body))
    ensures Admit(log, body).Success? <==> log == seen
    ensures log == seen ==>
              Advanced(log, p) == Success((Admit(log, body).value, Filled(p, Admit(log, body).value[|log|])))
  {
    hide Latest;
    DrawnCut(seen, p);
    if Head(log) == Head(seen) {
      SameHead(seen, log);
    }
  }

  lemma DrawnCut(seen: Log, p: Phase)
    requires seen != [] && Looked(seen, p).Success? && Looked(seen, p).value.Offering?
    ensures InputCut(Looked(seen, p).value.body) == Some(Head(seen))
    ensures Advanced(seen, p)
         == Success((Accept(seen, Looked(seen, p).value.body),
             Filled(p, Accept(seen, Looked(seen, p).value.body)[|seen|])))
  {
    hide Latest;
  }

  // ----- every interleaving is one of whole boundaries -----

  /** The calls as they stand between boundaries: an offer has not happened yet. */
  ghost function Erased(s: Store): System {
    System(s.log, map id | id in s.calls :: s.calls[id].phase)
  }

  /** A step is a step of whole boundaries or none, and what is offered stays drawn from what came before. */
  lemma StepRefines(current: Freshness, s: Store, s': Store)
    requires OffersStand(s) && Steps(current, s, s')
    ensures Moves(current, Erased(s), Erased(s')) && OffersStand(s')
  {
    hide OfferStands, PlanFor, Looked, Advanced, Admit, ForeignCommit;
    if OthersCommit(s, s') {
      OffersOutlive(s, s');
    } else if Begins(current, s, s') {
      BeginRefines(current, s, s');
    } else if Looks(s, s') {
      var id :| id in s.calls && LooksCall(s, id, s');
      LookRefines(s, id, s');
    } else if Offers(s, s') {
      var id :| id in s.calls && OffersCall(s, id, s');
      OfferRefines(s, id, s');
    } else {
      var id :| id in s.calls && s' == s.(calls := s.calls - {id});
      assert Erased(s').calls == Erased(s).calls - {id};
    }
  }

  lemma OffersOutlive(s: Store, s': Store)
    requires OffersStand(s) && ForeignCommit(s.log, s'.log) && s'.calls == s.calls
    ensures OffersStand(s')
  {
    hide Looked;
    forall id | id in s.calls && s.calls[id].Offering?
      ensures OfferStands(s'.log, s.calls[id].phase, s.calls[id].body)
    {
      CommitIsLater(s.log, s'.log);
      OfferOutlives(s.log, s'.log, s.calls[id].phase, s.calls[id].body);
    }
  }

  lemma CommitIsLater(log: Log, log': Log)
    requires ForeignCommit(log, log') && log != []
    ensures Later(log, log')
  {
  }

  lemma OfferOutlives(log: Log, log': Log, p: Phase, body: Body)
    requires OfferStands(log, p, body) && (log != [] ==> log' == log || Later(log, log'))
    ensures OfferStands(log', p, body)
  {
    hide Looked, Extends;
    var seen :| Later(seen, log) && Looked(seen, p) == Success(Offering(p, body));
    assert log != [] by { SeenIsThere(seen, log); }
    LaterStill(seen, log, log');
  }

  lemma SeenIsThere(seen: Log, log: Log)
    requires Later(seen, log)
    ensures log != []
  {
  }

  lemma BeginRefines(current: Freshness, s: Store, s': Store)
    requires OffersStand(s) && Begins(current, s, s')
    ensures Moves(current, Erased(s), Erased(s')) && OffersStand(s')
  {
    hide OfferStands, PlanFor;
    var id: nat, req :| id !in s.calls && PlanFor(current, s.log, req).Success?
      && s' == s.(calls := s.calls[id := At(Planned(PlanFor(current, s.log, req).value, req))]);
    assert Erased(s').calls == Erased(s).calls[id := Planned(PlanFor(current, s.log, req).value, req)];
    assert id !in Erased(s).calls && PlanFor(current, Erased(s).log, req).Success?;
    var begun := Planned(PlanFor(current, Erased(s).log, req).value, req);
    assert Erased(s') == Erased(s).(calls := Erased(s).calls[id := begun]);
  }

  lemma LookRefines(s: Store, id: nat, s': Store)
    requires OffersStand(s) && s.log != [] && id in s.calls && LooksCall(s, id, s')
    ensures (Erased(s') == Erased(s) || Advances(Erased(s), Erased(s'))) && OffersStand(s')
  {
    hide OfferStands, Advanced;
    var p := s.calls[id].phase;
    var stage := Looked(s.log, p).value;
    if stage.Offering? {
      assert Erased(s').calls == Erased(s).calls;
      OfferIsFresh(s.log, p);
    } else {
      AdvancedExtends(s.log, p);
      assert Erased(s').calls == Erased(s).calls[id := stage.phase];
      assert AdvancesCall(Erased(s), id, Erased(s'));
    }
  }

  lemma OfferIsFresh(log: Log, p: Phase)
    requires log != [] && Looked(log, p).Success? && Looked(log, p).value.Offering?
    ensures OfferStands(log, p, Looked(log, p).value.body)
  {
    hide Advanced;
    assert Later(log, log);
  }

  lemma AdvancedExtends(log: Log, p: Phase)
    requires log != [] && Advanced(log, p).Success?
    ensures |Advanced(log, p).value.0| == |log| ==> Advanced(log, p).value.0 == log
  {
    hide Latest;
  }

  lemma OfferRefines(s: Store, id: nat, s': Store)
    requires OffersStand(s) && s.log != [] && id in s.calls && OffersCall(s, id, s')
    ensures Advances(Erased(s), Erased(s')) && OffersStand(s')
  {
    hide Looked, Advanced;
    var p, body := s.calls[id].phase, s.calls[id].body;
    var seen :| Later(seen, s.log) && Looked(seen, p) == Success(Offering(p, body));
    DrawnIsAdmittedIff(seen, s.log, p, body);
    assert Erased(s').calls == Erased(s).calls[id := s'.calls[id].phase];
    assert AdvancesCall(Erased(s), id, Erased(s'));
    assert Later(s.log, s'.log);
    hide OfferStands, Later;
    forall other | other in s'.calls && s'.calls[other].Offering?
      ensures OfferStands(s'.log, s'.calls[other].phase, s'.calls[other].body)
    {
      OfferOutlives(s.log, s'.log, s'.calls[other].phase, s'.calls[other].body);
    }
  }

  lemma {:induction false} OffersAlwaysStand(current: Freshness, ss: seq<Store>, n: nat)
    requires Interleaving(current, ss) && n < |ss|
    ensures OffersStand(ss[n])
  {
    hide OfferStands, Steps;
    if n > 0 {
      OffersAlwaysStand(current, ss, n - 1);
      StepRefines(current, ss[n - 1], ss[n]);
    }
  }

  ghost function ErasedAll(ss: seq<Store>): (r: seq<System>)
    ensures |r| == |ss| && forall i :: 0 <= i < |ss| ==> r[i] == Erased(ss[i])
  {
    seq(|ss|, i requires 0 <= i < |ss| => Erased(ss[i]))
  }

  /** Whatever comes between lookups and acceptances, the same happens with each boundary as one step: when the store
      admits what a boundary has drawn, and not before. */
  lemma InterleavingIsCoarse(current: Freshness, ss: seq<Store>)
    requires Interleaving(current, ss)
    ensures Coarse(current, ErasedAll(ss))
  {
    hide Steps, Moves, OffersStand;
    forall i | 0 <= i < |ss| - 1
      ensures Moves(current, Erased(ss[i]), Erased(ss[i + 1]))
    {
      OffersAlwaysStand(current, ss, i);
      StepRefines(current, ss[i], ss[i + 1]);
    }
    assert Erased(ss[0]).calls == map[];
  }

  // ----- safety -----

  /** Safety under interleaving: in every state the history is sound, and every call past a boundary holds records that
      stand in the history and rest on one another. */
  lemma EveryInterleavingIsSafe(current: Freshness, ss: seq<Store>, n: nat)
    requires Interleaving(current, ss) && n < |ss|
    ensures Sound(ss[n].log) && forall id :: id in ss[n].calls ==> Holds(ss[n].log, ss[n].calls[id].phase)
  {
    hide Sound, Holds, Interleaving, Coarse;
    InterleavingIsCoarse(current, ss);
    CoarseIsSafe(current, ErasedAll(ss), n);
    forall id | id in ss[n].calls
      ensures Holds(ss[n].log, ss[n].calls[id].phase)
    {
      assert Erased(ss[n]).calls[id] == ss[n].calls[id].phase;
    }
  }

  lemma {:induction false} HistoryGrows(current: Freshness, ss: seq<Store>, m: nat, n: nat)
    requires Interleaving(current, ss) && m <= n < |ss|
    ensures Extends(ss[m].log, ss[n].log)
  {
    hide Steps;
    if m < n {
      HistoryGrows(current, ss, m, n - 1);
      StepExtends(current, ss[n - 1], ss[n]);
    }
  }

  lemma StepExtends(current: Freshness, s: Store, s': Store)
    requires Steps(current, s, s')
    ensures Extends(s.log, s'.log)
  {
    hide PlanFor, Looked, Foreign;
  }

  /** Calls that finish for one STOP, whenever they do and whoever did what in between, finish with the same three
      records. */
  lemma FinishedCallsAgree(current: Freshness, ss: seq<Store>, m: nat, n: nat, a: nat, b: nat)
    requires Interleaving(current, ss) && m <= n < |ss| && a in ss[m].calls && b in ss[n].calls
    requires ss[m].calls[a].phase.Qualified? && ss[n].calls[b].phase.Qualified?
    requires ss[m].calls[a].phase.plan.stop == ss[n].calls[b].phase.plan.stop
    ensures var p, q := ss[m].calls[a].phase, ss[n].calls[b].phase;
            p.concl == q.concl && p.final == q.final && p.qual == q.qual
  {
    hide Interleaving, Sound, FinalCaseRests, QualificationRests, Holds, Extends;
    EveryInterleavingIsSafe(current, ss, m);
    EveryInterleavingIsSafe(current, ss, n);
    HistoryGrows(current, ss, m, n);
    HoldsStill(ss[m].log, ss[n].log, ss[m].calls[a].phase);
    var i, j, k := ChainOf(ss[n].log, ss[m].calls[a].phase);
    var i', j', k' := ChainOf(ss[n].log, ss[n].calls[b].phase);
    OneChain(ss[n].log, i, j, k, i', j', k');
  }
}
