/** Resuming a finalization call: after a crash at any acceptance, calling again comes to the same history and the
    same answer as never crashing, up to which of the two calls drew each fresh id. */
module FinalizationResume {
  import opened Wrappers
  import opened Finalization

  ghost predicate Artifact(b: Body) {
    b.ConclusionBody? || b.FinalCaseBody? || b.QualificationBody?
  }

  /** Freshness of a STOP does not depend on the artifacts of finalization (stop/operation.py:98-108). */
  ghost predicate Administrative(current: Freshness) {
    forall input, log: Log, r: Record :: Artifact(r.body) ==> (current(input, log + [r]) <==> current(input, log))
  }

  /** Two calls with the same arguments; only their fresh ids differ. */
  ghost predicate SameArguments(a: Request, b: Request) {
    a.termination == b.termination && a.statement == b.statement
  }

  lemma LatestSkips(log: Log, q: Query, r: Record)
    requires !Matches(q, r.body)
    ensures Latest(log + [r], q) == Latest(log, q)
  {
    assert (log + [r])[..|log|] == log;
  }

  lemma LatestIsNew(log: Log, q: Query, r: Record)
    requires Latest(log, q).None? && Matches(q, r.body)
    ensures Latest(log + [r], q) == Some(r)
  {
    assert (log + [r])[..|log|] == log;
  }

  lemma PlanKept(current: Freshness, log: Log, r: Record, req: Request, req': Request)
    requires Administrative(current) && Artifact(r.body) && SameArguments(req, req')
    ensures PlanFor(current, log + [r], req') == PlanFor(current, log, req)
  {
    LatestSkips(log, StopEvaluations, r);
    var stop := Latest(log, StopEvaluations);
    if stop.Some? && stop.value.body.evaluation.stopInput.Some? {
      LatestSkips(log, StopInputs(stop.value.body.evaluation.stopInput.value), r);
    }
  }

  lemma PlanSame(current: Freshness, log: Log, req: Request, req': Request)
    requires SameArguments(req, req')
    ensures PlanFor(current, log, req') == PlanFor(current, log, req)
  {
  }

  /** The next history is the same, or holds one more artifact. */
  ghost predicate Grown(log: Log, log': Log) {
    log' == log || (|log'| == |log| + 1 && log' == log + [log'[|log|]] && Artifact(log'[|log|].body))
  }

  lemma PlanGrown(current: Freshness, log: Log, log': Log, req: Request, req': Request)
    requires Administrative(current) && Grown(log, log') && SameArguments(req, req')
    ensures PlanFor(current, log', req') == PlanFor(current, log, req)
    ensures Latest(log', StopEvaluations) == Latest(log, StopEvaluations)
  {
    hide PlanFor;
    if log' == log {
      PlanSame(current, log, req, req');
    } else {
      PlanKept(current, log, log'[|log|], req, req');
      LatestSkips(log, StopEvaluations, log'[|log|]);
    }
  }

  // ----- a boundary passed stays passed -----

  lemma ConclusionAgain(log: Log, plan: Plan, req: Request, req': Request)
    requires log != [] && ConclusionBoundary(log, plan, req).Success? && SameArguments(req, req')
    ensures var b := ConclusionBoundary(log, plan, req).value;
            && Grown(log, b.log) && b.log != []
            && Latest(b.log, ConclusionsFor(plan.stop)) == Some(b.record)
            && SameConclusion(b.record.body.conclusion, plan, req')
  {
    var b := ConclusionBoundary(log, plan, req).value;
    if Latest(log, ConclusionsFor(plan.stop)).None? {
      LatestIsNew(log, ConclusionsFor(plan.stop), b.record);
    }
  }

  lemma FinalCaseAgain(log: Log, plan: Plan, req: Request, req': Request, c: Digest)
    requires log != [] && FinalCaseBoundary(log, plan, req, c).Success? && SameArguments(req, req')
    ensures var b := FinalCaseBoundary(log, plan, req, c).value;
            && Grown(log, b.log) && b.log != []
            && Latest(b.log, FinalCasesFor(plan.stop, c)) == Some(b.record)
            && SameFinalCase(b.record.body.finalCase, plan, req')
            && Latest(b.log, ConclusionsFor(plan.stop)) == Latest(log, ConclusionsFor(plan.stop))
  {
    var b := FinalCaseBoundary(log, plan, req, c).value;
    if Latest(log, FinalCasesFor(plan.stop, c)).None? {
      LatestIsNew(log, FinalCasesFor(plan.stop, c), b.record);
      LatestSkips(log, ConclusionsFor(plan.stop), b.record);
    }
  }

  lemma QualificationAgain(log: Log, plan: Plan, req: Request, req': Request, c: Digest, f: Digest)
    requires log != [] && QualificationBoundary(log, plan, req, c, f).Success?
    ensures var b := QualificationBoundary(log, plan, req, c, f).value;
            && Grown(log, b.log) && b.log != []
            && QualificationBoundary(b.log, plan, req', c, f) == Success(Boundary(b.log, b.record))
            && Latest(b.log, ConclusionsFor(plan.stop)) == Latest(log, ConclusionsFor(plan.stop))
            && Latest(b.log, FinalCasesFor(plan.stop, c)) == Latest(log, FinalCasesFor(plan.stop, c))
  {
    var b := QualificationBoundary(log, plan, req, c, f).value;
    if Latest(log, QualificationsFor(plan.stop, c, f)).None? {
      LatestIsNew(log, QualificationsFor(plan.stop, c, f), b.record);
      LatestSkips(log, ConclusionsFor(plan.stop), b.record);
      LatestSkips(log, FinalCasesFor(plan.stop, c), b.record);
    }
  }

  // ----- how far a call came -----

  /** The call passed the first boundary, from the history at which its STOP was settled. */
  ghost predicate Passed1(current: Freshness, log0: Log, req: Request, plan: Plan, b1: Boundary) {
    && log0 != [] && Latest(log0, StopEvaluations).Some?
    && PlanFor(current, log0, req) == Success(plan)
    && ConclusionBoundary(log0, plan, req) == Success(b1)
  }

  ghost predicate Passed2(current: Freshness, log0: Log, req: Request, plan: Plan, b1: Boundary, b2: Boundary) {
    && Passed1(current, log0, req, plan, b1) && b1.log != []
    && FinalCaseBoundary(b1.log, plan, req, DigestOf(b1.record.body)) == Success(b2)
  }

  ghost predicate Passed3(current: Freshness, log0: Log, req: Request, plan: Plan, b1: Boundary, b2: Boundary,
                          b3: Boundary)
  {
    && Passed2(current, log0, req, plan, b1, b2) && b2.log != []
    && QualificationBoundary(b2.log, plan, req, DigestOf(b1.record.body), DigestOf(b2.record.body)) == Success(b3)
  }

  /** The call from where its STOP is settled. */
  lemma FromSettledStop(current: Freshness, log: Log, req: Request)
    requires log != [] && Latest(log, StopEvaluations).Some?
    ensures EnsureStop(log, req) == Success(log)
    ensures Conclude(current, log, req) == FromStop(current, log, req)
  {
    var rest := FromStop(current, log, req);
    assert [] + rest.stages == rest.stages;
  }

  lemma ResumeAfter1(current: Freshness, log0: Log, req: Request, req': Request, plan: Plan, b1: Boundary)
    requires Administrative(current) && SameArguments(req, req') && Passed1(current, log0, req, plan, b1)
    ensures b1.log != []
    ensures Conclude(current, b1.log, req') == FromFinalCase(b1.log, plan, req', b1.record)
  {
    ConclusionAgain(log0, plan, req, req');
    PlanGrown(current, log0, b1.log, req, req');
    hide PlanFor, FromFinalCase, Latest, SameConclusion, Matches;
    FromSettledStop(current, b1.log, req');
    assert ConclusionBoundary(b1.log, plan, req') == Success(Boundary(b1.log, b1.record));
    var rest := FromFinalCase(b1.log, plan, req', b1.record);
    assert [] + rest.stages == rest.stages;
  }

  lemma ResumeAfter2(current: Freshness, log0: Log, req: Request, req': Request, plan: Plan, b1: Boundary, b2: Boundary)
    requires Administrative(current) && SameArguments(req, req') && Passed2(current, log0, req, plan, b1, b2)
    ensures b2.log != []
    ensures Conclude(current, b2.log, req') == FromQualification(b2.log, plan, req', b1.record, b2.record)
  {
    var c := DigestOf(b1.record.body);
    ConclusionAgain(log0, plan, req, req');
    PlanGrown(current, log0, b1.log, req, req');
    FinalCaseAgain(b1.log, plan, req, req', c);
    PlanGrown(current, b1.log, b2.log, req', req');
    hide PlanFor, FromQualification, Latest, SameConclusion, SameFinalCase, Matches;
    FromSettledStop(current, b2.log, req');
    assert ConclusionBoundary(b2.log, plan, req') == Success(Boundary(b2.log, b1.record));
    assert FinalCaseBoundary(b2.log, plan, req', c) == Success(Boundary(b2.log, b2.record));
    var rest := FromQualification(b2.log, plan, req', b1.record, b2.record);
    assert [] + rest.stages == rest.stages;
  }

  lemma ResumeAfter3(current: Freshness, log0: Log, req: Request, req': Request, plan: Plan,
                     b1: Boundary, b2: Boundary, b3: Boundary)
    requires Administrative(current) && SameArguments(req, req') && Passed3(current, log0, req, plan, b1, b2, b3)
    ensures b3.log != []
    ensures Conclude(current, b3.log, req')
         == Outcome([], FromQualification(b2.log, plan, req, b1.record, b2.record).result)
  {
    var c, f := DigestOf(b1.record.body), DigestOf(b2.record.body);
    ConclusionAgain(log0, plan, req, req');
    PlanGrown(current, log0, b1.log, req, req');
    FinalCaseAgain(b1.log, plan, req, req', c);
    PlanGrown(current, b1.log, b2.log, req', req');
    QualificationAgain(b2.log, plan, req, req', c, f);
    PlanGrown(current, b2.log, b3.log, req', req');
    hide PlanFor, QualificationBoundary, Latest, SameConclusion, SameFinalCase, Matches;
    FromSettledStop(current, b3.log, req');
    assert ConclusionBoundary(b3.log, plan, req') == Success(Boundary(b3.log, b1.record));
    assert FinalCaseBoundary(b3.log, plan, req', c) == Success(Boundary(b3.log, b2.record));
  }

  // ----- the theorem -----

  /** The histories a call can be left in: unchanged, or after one of its acceptances. */
  ghost predicate LeftAt(current: Freshness, log: Log, req: Request, log': Log) {
    var stages := Conclude(current, log, req).stages;
    log' == log || exists k :: 0 <= k < |stages| && log' == stages[k]
  }

  /** Each fresh id of ids is drawn by a or by b. */
  ghost predicate DrawnBy(ids: Request, a: Request, b: Request) {
    && SameArguments(ids, a)
    && (ids.conclusionId == a.conclusionId || ids.conclusionId == b.conclusionId)
    && (ids.finalCaseId == a.finalCaseId || ids.finalCaseId == b.finalCaseId)
    && (ids.qualificationId == a.qualificationId || ids.qualificationId == b.qualificationId)
    && (ids.gate == a.gate || ids.gate == b.gate)
  }

  /** Resuming in log' answers as, and leaves the history of, some uninterrupted call from log. */
  ghost predicate ResumesAs(current: Freshness, log: Log, req: Request, log': Log, req': Request) {
    exists ids :: DrawnBy(ids, req, req')
      && Conclude(current, log', req').result == Conclude(current, log, ids).result
      && FinalLog(log', Conclude(current, log', req')) == FinalLog(log, Conclude(current, log, ids))
  }

  /** The stages that follow a boundary end where they would end on their own. */
  lemma Chain(log: Log, next: Log, pre: seq<Log>, rest: Outcome)
    requires pre == if next == log then [] else [next]
    ensures FinalLog(log, Outcome(pre + rest.stages, rest.result)) == FinalLog(next, rest)
    ensures forall l :: l in pre + rest.stages ==> l == next || l in rest.stages
  {
  }

  lemma Unfold0(current: Freshness, log: Log, req: Request, log0: Log)
    requires log != [] && EnsureStop(log, req) == Success(log0)
    ensures log0 != [] && Latest(log0, StopEvaluations).Some?
    ensures var o, rest := Conclude(current, log, req), FromStop(current, log0, req);
            && o.result == rest.result && FinalLog(log, o) == FinalLog(log0, rest)
            && forall l :: l in o.stages ==> l == log0 || l in rest.stages
  {
    hide FromStop;
    if log0 != log {
      var n := |log| + 1;
      assert log0[..n + 1] == log0 && log0[..n] == log + [log0[|log|]];
      assert Matches(StopEvaluations, log0[n].body);
    }
    var rest := FromStop(current, log0, req);
    Chain(log, log0, if log0 == log then [] else [log0], rest);
  }

  lemma Unfold1(current: Freshness, log0: Log, req: Request, plan: Plan, b1: Boundary)
    requires Passed1(current, log0, req, plan, b1)
    ensures b1.log != []
    ensures var o, rest := FromStop(current, log0, req), FromFinalCase(b1.log, plan, req, b1.record);
            && o.result == rest.result && FinalLog(log0, o) == FinalLog(b1.log, rest)
            && forall l :: l in o.stages ==> l == b1.log || l in rest.stages
  {
    hide PlanFor, FromFinalCase, ConclusionBoundary;
    Chain(log0, b1.log, Advance(log0, b1), FromFinalCase(b1.log, plan, req, b1.record));
  }

  lemma Unfold2(current: Freshness, log0: Log, req: Request, plan: Plan, b1: Boundary, b2: Boundary)
    requires Passed2(current, log0, req, plan, b1, b2)
    ensures b2.log != []
    ensures var o, rest := FromFinalCase(b1.log, plan, req, b1.record),
        FromQualification(b2.log, plan, req, b1.record, b2.record);
            && o.result == rest.result && FinalLog(b1.log, o) == FinalLog(b2.log, rest)
            && forall l :: l in o.stages ==> l == b2.log || l in rest.stages
  {
    hide Passed1, FromQualification, FinalCaseBoundary;
    Chain(b1.log, b2.log, Advance(b1.log, b2), FromQualification(b2.log, plan, req, b1.record, b2.record));
  }

  /** What follows a boundary depends on the ids still to be drawn only. */
  lemma IdsToCome(log: Log, plan: Plan, a: Request, b: Request, concl: Record)
    requires log != [] && a.statement == b.statement && a.finalCaseId == b.finalCaseId
        && a.qualificationId == b.qualificationId
    ensures FromFinalCase(log, plan, a, concl) == FromFinalCase(log, plan, b, concl)
  {
    hide QualificationBoundary;
    forall l: Log, c, f | l != []
      ensures QualificationBoundary(l, plan, a, c, f) == QualificationBoundary(l, plan, b, c, f)
    {
      LastId(l, plan, a, b, c, f);
    }
  }

  lemma LastId(log: Log, plan: Plan, a: Request, b: Request, c: Digest, f: Digest)
    requires log != [] && a.qualificationId == b.qualificationId
    ensures QualificationBoundary(log, plan, a, c, f) == QualificationBoundary(log, plan, b, c, f)
  {
  }

  lemma GateIrrelevant(current: Freshness, log0: Log, req: Request, gate: Option<(StopInput, StopEvaluation)>)
    requires log0 != []
    ensures FromStop(current, log0, req.(gate := gate)) == FromStop(current, log0, req)
  {
    var req' := req.(gate := gate);
    PlanSame(current, log0, req, req');
    hide FromFinalCase, PlanFor;
    var planned := PlanFor(current, log0, req);
    if planned.Success? {
      var r := ConclusionBoundary(log0, planned.value, req);
      assert ConclusionBoundary(log0, planned.value, req') == r;
      if r.Success? {
        IdsToCome(r.value.log, planned.value, req, req', r.value.record);
      }
    }
  }

  lemma EnsureStopSame(log: Log, req: Request, ids: Request)
    requires log != [] && req.termination == ids.termination && req.gate == ids.gate
    ensures EnsureStop(log, ids) == EnsureStop(log, req)
  {
  }

  /** Passed boundaries are passed alike by any call that draws the same ids there. */
  lemma PassedAlike(current: Freshness, log0: Log, req: Request, ids: Request, plan: Plan, b1: Boundary, b2: Boundary)
    requires Passed1(current, log0, req, plan, b1) && SameArguments(ids, req) && ids.conclusionId == req.conclusionId
    ensures Passed1(current, log0, ids, plan, b1)
    ensures Passed2(current, log0, req, plan, b1, b2) && ids.finalCaseId == req.finalCaseId ==>
              Passed2(current, log0, ids, plan, b1, b2)
  {
    PlanSame(current, log0, req, ids);
    hide PlanFor;
  }

  lemma ResumeGate(current: Freshness, log: Log, req: Request, req': Request, log0: Log)
    requires SameArguments(req, req') && log != [] && EnsureStop(log, req) == Success(log0)
    ensures ResumesAs(current, log, req, log0, req')
  {
    var ids := req'.(gate := req.gate);
    hide Conclude, FromStop, EnsureStop;
    Unfold0(current, log, req, log0);
    EnsureStopSame(log, req, ids);
    Unfold0(current, log, ids, log0);
    FromSettledStop(current, log0, req');
    GateIrrelevant(current, log0, req', req.gate);
    assert DrawnBy(ids, req, req');
  }

  lemma Resume1(current: Freshness, log: Log, req: Request, req': Request, log0: Log, plan: Plan, b1: Boundary)
    requires Administrative(current) && SameArguments(req, req')
    requires log != [] && EnsureStop(log, req) == Success(log0) && Passed1(current, log0, req, plan, b1)
    ensures ResumesAs(current, log, req, b1.log, req')
  {
    var ids := req.(finalCaseId := req'.finalCaseId, qualificationId := req'.qualificationId);
    PassedAlike(current, log0, req, ids, plan, b1, b1);
    hide Conclude, FromStop, EnsureStop, FromFinalCase, Passed1, Administrative;
    ResumeAfter1(current, log0, req, req', plan, b1);
    EnsureStopSame(log, req, ids);
    Unfold0(current, log, ids, log0);
    Unfold1(current, log0, ids, plan, b1);
    IdsToCome(b1.log, plan, req', ids, b1.record);
    assert DrawnBy(ids, req, req');
  }

  lemma Resume2(current: Freshness, log: Log, req: Request, req': Request, log0: Log, plan: Plan, b1: Boundary,
                b2: Boundary)
    requires Administrative(current) && SameArguments(req, req')
    requires log != [] && EnsureStop(log, req) == Success(log0) && Passed2(current, log0, req, plan, b1, b2)
    ensures ResumesAs(current, log, req, b2.log, req')
  {
    var ids := req.(qualificationId := req'.qualificationId);
    PassedAlike(current, log0, req, ids, plan, b1, b2);
    assert Passed1(current, log0, req, plan, b1);
    hide Conclude, FromStop, EnsureStop, FromFinalCase, Passed1, Passed2, Administrative;
    ResumeAfter2(current, log0, req, req', plan, b1, b2);
    EnsureStopSame(log, req, ids);
    Unfold0(current, log, ids, log0);
    Unfold1(current, log0, ids, plan, b1);
    Unfold2(current, log0, ids, plan, b1, b2);
    LastId(b2.log, plan, req', ids, DigestOf(b1.record.body), DigestOf(b2.record.body));
    hide QualificationBoundary;
    assert FromQualification(b2.log, plan, req', b1.record, b2.record)
        == FromQualification(b2.log, plan, ids, b1.record, b2.record);
    assert DrawnBy(ids, req, req');
  }

  lemma Resume3(current: Freshness, log: Log, req: Request, req': Request, log0: Log, plan: Plan,
                b1: Boundary, b2: Boundary, b3: Boundary)
    requires Administrative(current) && SameArguments(req, req')
    requires log != [] && EnsureStop(log, req) == Success(log0) && Passed3(current, log0, req, plan, b1, b2, b3)
    ensures ResumesAs(current, log, req, b3.log, req')
    ensures Conclude(current, b3.log, req') == Outcome([], Conclude(current, log, req).result)
    ensures Conclude(current, log, req).result.Success? && FinalLog(log, Conclude(current, log, req)) == b3.log
  {
    assert Passed1(current, log0, req, plan, b1) && Passed2(current, log0, req, plan, b1, b2);
    var last := FromQualification(b2.log, plan, req, b1.record, b2.record);
    assert last.result.Success? && last.stages == Advance(b2.log, b3);
    assert FinalLog(b2.log, last) == b3.log;
    hide Conclude, FromStop, EnsureStop, FromFinalCase, FromQualification, Passed1, Passed2, Administrative;
    ResumeAfter3(current, log0, req, req', plan, b1, b2, b3);
    Unfold0(current, log, req, log0);
    Unfold1(current, log0, req, plan, b1);
    Unfold2(current, log0, req, plan, b1, b2);
    assert DrawnBy(req, req, req');
  }

  /** Resumption: wherever the first call was cut off, calling again with the same arguments leaves the history and
      gives the answer of a call that was never cut off. */
  lemma Resumption(current: Freshness, log: Log, req: Request, req': Request, log': Log)
    requires Administrative(current) && SameArguments(req, req') && LeftAt(current, log, req, log')
    ensures ResumesAs(current, log, req, log', req')
  {
    if log' == log {
      assert DrawnBy(req', req, req');
    } else {
      var o := Conclude(current, log, req);
      assert log' in o.stages;
      var log0 := EnsureStop(log, req).value;
      Unfold0(current, log, req, log0);
      hide Conclude, EnsureStop, ResumesAs, Administrative;
      if log' == log0 {
        ResumeGate(current, log, req, req', log0);
      } else {
        assert log' in FromStop(current, log0, req).stages;
        ResumptionPastStop(current, log, req, req', log0, log');
      }
    }
  }

  lemma ResumptionPastStop(current: Freshness, log: Log, req: Request, req': Request, log0: Log, log': Log)
    requires Administrative(current) && SameArguments(req, req')
    requires log != [] && EnsureStop(log, req) == Success(log0) && log0 != [] && Latest(log0, StopEvaluations).Some?
    requires log' in FromStop(current, log0, req).stages
    ensures ResumesAs(current, log, req, log', req')
  {
    hide Conclude, EnsureStop, ResumesAs, Administrative, PlanFor, ConclusionBoundary, FinalCaseBoundary,
      QualificationBoundary;
    var plan := PlanFor(current, log0, req).value;
    var b1 := ConclusionBoundary(log0, plan, req).value;
    assert Passed1(current, log0, req, plan, b1);
    Unfold1(current, log0, req, plan, b1);
    if log' == b1.log {
      Resume1(current, log, req, req', log0, plan, b1);
    } else {
      var b2 := FinalCaseBoundary(b1.log, plan, req, DigestOf(b1.record.body)).value;
      assert Passed2(current, log0, req, plan, b1, b2);
      Unfold2(current, log0, req, plan, b1, b2);
      if log' == b2.log {
        Resume2(current, log, req, req', log0, plan, b1, b2);
      } else {
        var b3 := QualificationBoundary(b2.log, plan, req, DigestOf(b1.record.body), DigestOf(b2.record.body)).value;
        assert Passed3(current, log0, req, plan, b1, b2, b3);
        Resume3(current, log, req, req', log0, plan, b1, b2, b3);
      }
    }
  }

  // ----- any number of interruptions -----

  /** Each fresh id of ids is drawn by one of the calls. */
  ghost predicate DrawnByAny(ids: Request, reqs: seq<Request>) {
    && ids.conclusionId in ConclusionIds(reqs) && ids.finalCaseId in FinalCaseIds(reqs)
    && ids.qualificationId in QualificationIds(reqs) && ids.gate in Gates(reqs)
    && (forall i :: 0 <= i < |reqs| ==> SameArguments(ids, reqs[i]))
  }

  ghost function ConclusionIds(reqs: seq<Request>): seq<string> {
    seq(|reqs|, i requires 0 <= i < |reqs| => reqs[i].conclusionId)
  }

  ghost function FinalCaseIds(reqs: seq<Request>): seq<string> {
    seq(|reqs|, i requires 0 <= i < |reqs| => reqs[i].finalCaseId)
  }

  ghost function QualificationIds(reqs: seq<Request>): seq<string> {
    seq(|reqs|, i requires 0 <= i < |reqs| => reqs[i].qualificationId)
  }

  ghost function Gates(reqs: seq<Request>): seq<Option<(StopInput, StopEvaluation)>> {
    seq(|reqs|, i requires 0 <= i < |reqs| => reqs[i].gate)
  }

  /** Calls with the same arguments, each made where the one before it was cut off. */
  ghost predicate Interrupted(current: Freshness, logs: seq<Log>, reqs: seq<Request>) {
    && |logs| == |reqs| >= 1
    && (forall i, j :: 0 <= i < |reqs| && 0 <= j < |reqs| ==> SameArguments(reqs[i], reqs[j]))
    && (forall i :: 0 <= i < |reqs| - 1 ==> LeftAt(current, logs[i], reqs[i], logs[i + 1]))
  }

  /** However often a call is cut off, the last of its repetitions answers, and leaves the history of, one call that was
      never cut off. */
  lemma {:induction false} EveryResumption(current: Freshness, logs: seq<Log>, reqs: seq<Request>)
    returns (ids: Request)
    requires Administrative(current) && Interrupted(current, logs, reqs)
    ensures DrawnByAny(ids, reqs)
    ensures var last, whole := Conclude(current, logs[|logs| - 1], reqs[|reqs| - 1]), Conclude(current, logs[0], ids);
            last.result == whole.result && FinalLog(logs[|logs| - 1], last) == FinalLog(logs[0], whole)
    decreases |reqs|
  {
    hide Conclude, FinalLog, LeftAt, Administrative;
    if |reqs| == 1 {
      ids := reqs[0];
      OnlyCall(ids);
      assert reqs == [ids];
    } else {
      var later := EveryResumption(current, logs[1..], reqs[1..]);
      assert SameArguments(later, reqs[1..][0]);
      assert LeftAt(current, logs[0], reqs[0], logs[1]);
      Resumption(current, logs[0], reqs[0], later, logs[1]);
      ids :| DrawnBy(ids, reqs[0], later)
        && Conclude(current, logs[1], later).result == Conclude(current, logs[0], ids).result
        && FinalLog(logs[1], Conclude(current, logs[1], later)) == FinalLog(logs[0], Conclude(current, logs[0], ids));
      AddFirst(ids, reqs, later);
    }
  }

  lemma AddFirst(ids: Request, reqs: seq<Request>, later: Request)
    requires |reqs| >= 2 && DrawnBy(ids, reqs[0], later) && DrawnByAny(later, reqs[1..])
    requires forall i, j :: 0 <= i < |reqs| && 0 <= j < |reqs| ==> SameArguments(reqs[i], reqs[j])
    ensures DrawnByAny(ids, reqs)
  {
    assert ConclusionIds(reqs) == [reqs[0].conclusionId] + ConclusionIds(reqs[1..]);
    assert FinalCaseIds(reqs) == [reqs[0].finalCaseId] + FinalCaseIds(reqs[1..]);
    assert QualificationIds(reqs) == [reqs[0].qualificationId] + QualificationIds(reqs[1..]);
    assert Gates(reqs) == [reqs[0].gate] + Gates(reqs[1..]);
  }

  lemma OnlyCall(req: Request)
    ensures DrawnByAny(req, [req])
  {
    assert ConclusionIds([req])[0] == req.conclusionId && FinalCaseIds([req])[0] == req.finalCaseId;
    assert QualificationIds([req])[0] == req.qualificationId && Gates([req])[0] == req.gate;
  }

  /** Repeating a finished call appends nothing and gives the same report, digests included. */
  lemma FinishedCallRepeats(current: Freshness, log: Log, req: Request, req': Request)
    requires Administrative(current) && SameArguments(req, req')
    requires Conclude(current, log, req).result.Success?
    ensures Conclude(current, FinalLog(log, Conclude(current, log, req)), req')
         == Outcome([], Conclude(current, log, req).result)
  {
    var log0 := EnsureStop(log, req).value;
    Unfold0(current, log, req, log0);
    hide Conclude, EnsureStop, Administrative, PlanFor, ConclusionBoundary, FinalCaseBoundary, QualificationBoundary;
    var plan := PlanFor(current, log0, req).value;
    var b1 := ConclusionBoundary(log0, plan, req).value;
    assert Passed1(current, log0, req, plan, b1);
    Unfold1(current, log0, req, plan, b1);
    var b2 := FinalCaseBoundary(b1.log, plan, req, DigestOf(b1.record.body)).value;
    assert Passed2(current, log0, req, plan, b1, b2);
    Unfold2(current, log0, req, plan, b1, b2);
    var b3 := QualificationBoundary(b2.log, plan, req, DigestOf(b1.record.body), DigestOf(b2.record.body)).value;
    Resume3(current, log, req, req', log0, plan, b1, b2, b3);
  }
}
