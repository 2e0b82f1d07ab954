/** What every run of finalization calls keeps, with crashes after any acceptance and foreign commits between. */
module FinalizationRuns {
  import opened Wrappers
  import opened Finalization

  // ----- the invariant -----

  ghost predicate Ordered(log: Log) {
    forall i, j :: 0 <= i <= j < |log| ==> log[i].number <= log[j].number
  }

  /** The digest of a STOP evaluation that pins a STOP input. */
  ghost predicate Grounded(stop: Digest) {
    && stop.DigestOf? && stop.body.StopEvaluationBody?
    && var input := stop.body.evaluation.stopInput;
       input.Some? && input.value.DigestOf? && input.value.body.StopInputBody?
  }

  ghost function EvaluationOf(stop: Digest): StopEvaluation
    requires Grounded(stop)
  {
    stop.body.evaluation
  }

  ghost function InputOf(stop: Digest): StopInput
    requires Grounded(stop)
  {
    EvaluationOf(stop).stopInput.value.body.input
  }

  /** A conclusion carries its STOP's risks and assurance, and is COMPLETED only on a passed, adequate STOP. */
  ghost predicate ConclusionHonest(c: Conclusion) {
    && Grounded(c.stop)
    && c.risks == InputOf(c.stop).risks
    && c.assurance == EvaluationOf(c.stop).assurance
    && c.candidate == InputOf(c.stop).candidate
    && (c.termination.Completed? ==>
          EvaluationOf(c.stop).decision.Pass? && EvaluationOf(c.stop).assurance.AdequateForDeclaredScope?)
  }

  /** A final case rests on an earlier conclusion of the same STOP and carries its risks. */
  ghost predicate FinalCaseRests(log: Log, i: int, j: int) {
    && 0 <= i < j < |log| && log[i].number < log[j].number
    && log[i].body.ConclusionBody? && log[j].body.FinalCaseBody?
    && var c, f := log[i].body.conclusion, log[j].body.finalCase;
       && f.conclusion == DigestOf(log[i].body) && f.stop == c.stop && f.risks == c.risks
  }

  /** A qualification rests on an earlier final case, carries its risks, and materializes the readiness of the STOP. */
  ghost predicate QualificationRests(log: Log, j: int, k: int) {
    && 0 <= j < k < |log| && log[j].number < log[k].number
    && log[j].body.FinalCaseBody? && log[k].body.QualificationBody?
    && var f, q := log[j].body.finalCase, log[k].body.qualification;
       && q.basis.StopAxisMaterialization?
       && q.finalCase == DigestOf(log[j].body) && q.conclusion == f.conclusion && q.stop == f.stop && q.risks == f.risks
       && Grounded(q.stop) && f.conclusion.DigestOf? && f.conclusion.body.ConclusionBody?
       && q.result == if f.conclusion.body.conclusion.termination.Completed? then EvaluationOf(q.stop).readiness
                      else Finalization.Readiness.QualificationBlocked
  }

  ghost predicate IsConclusion(log: Log, i: int) {
    0 <= i < |log| && log[i].body.ConclusionBody?
  }

  ghost predicate IsFinalCase(log: Log, j: int) {
    0 <= j < |log| && log[j].body.FinalCaseBody?
  }

  /** A qualification that materializes a STOP. */
  ghost predicate IsQualification(log: Log, k: int) {
    0 <= k < |log| && log[k].body.QualificationBody? && log[k].body.qualification.basis.StopAxisMaterialization?
  }

  /** No STOP has two conclusions, two final cases or two materializing qualifications. */
  ghost predicate AtMostOne(log: Log) {
    && (forall i, j :: IsConclusion(log, i) && IsConclusion(log, j) && i != j
          ==> log[i].body.conclusion.stop != log[j].body.conclusion.stop)
    && (forall i, j :: IsFinalCase(log, i) && IsFinalCase(log, j) && i != j
          ==> log[i].body.finalCase.stop != log[j].body.finalCase.stop)
    && (forall i, j :: IsQualification(log, i) && IsQualification(log, j) && i != j
          ==> log[i].body.qualification.stop != log[j].body.qualification.stop)
  }

  /** Every artifact is honest about its STOP and rests on an earlier artifact. */
  ghost predicate Chained(log: Log) {
    && (forall i :: IsConclusion(log, i) ==> ConclusionHonest(log[i].body.conclusion))
    && (forall j :: IsFinalCase(log, j) ==> exists i :: FinalCaseRests(log, i, j))
    && (forall k :: IsQualification(log, k) ==> exists j :: QualificationRests(log, j, k))
  }

  ghost predicate Sound(log: Log) {
    Ordered(log) && AtMostOne(log) && Chained(log)
  }

  // ----- each boundary keeps it -----

  /** The plan speaks of its STOP. */
  ghost predicate PlanHonest(plan: Plan) {
    && Grounded(plan.stop)
    && plan.evaluation == EvaluationOf(plan.stop) && plan.input == InputOf(plan.stop)
    && (plan.termination.Completed? ==>
          plan.evaluation.decision.Pass? && plan.evaluation.assurance.AdequateForDeclaredScope?)
  }

  lemma PlanIsHonest(current: Freshness, log: Log, req: Request)
    requires PlanFor(current, log, req).Success?
    ensures PlanHonest(PlanFor(current, log, req).value)
  {
  }

  ghost predicate Extends(log: Log, log': Log) {
    |log| <= |log'| && forall i :: 0 <= i < |log| ==> log'[i] == log[i]
  }

  lemma RestsExtend(log: Log, log': Log)
    requires Extends(log, log')
    ensures forall i, j :: FinalCaseRests(log, i, j) ==> FinalCaseRests(log', i, j)
    ensures forall j, k :: QualificationRests(log, j, k) ==> QualificationRests(log', j, k)
  {
  }

  /** The record is new for its STOP. */
  ghost predicate NewForItsStop(log: Log, b: Body) {
    && (b.ConclusionBody? ==>
          forall i :: IsConclusion(log, i) ==> log[i].body.conclusion.stop != b.conclusion.stop)
    && (b.FinalCaseBody? ==>
          forall i :: IsFinalCase(log, i) ==> log[i].body.finalCase.stop != b.finalCase.stop)
    && (b.QualificationBody? && b.qualification.basis.StopAxisMaterialization? ==>
          forall i :: IsQualification(log, i) ==> log[i].body.qualification.stop != b.qualification.stop)
  }

  /** The last record is honest and rests on an earlier one. */
  ghost predicate LastRests(log: Log)
    requires log != []
  {
    var n := |log| - 1;
    && (IsConclusion(log, n) ==> ConclusionHonest(log[n].body.conclusion))
    && (IsFinalCase(log, n) ==> exists i :: FinalCaseRests(log, i, n))
    && (IsQualification(log, n) ==> exists j :: QualificationRests(log, j, n))
  }

  lemma OldRecords(log: Log, r: Record)
    ensures forall i :: i != |log| ==>
              && (IsConclusion(log + [r], i) <==> IsConclusion(log, i))
              && (IsFinalCase(log + [r], i) <==> IsFinalCase(log, i))
              && (IsQualification(log + [r], i) <==> IsQualification(log, i))
  {
  }

  lemma StillAtMostOne(log: Log, r: Record)
    requires AtMostOne(log) && NewForItsStop(log, r.body)
    ensures AtMostOne(log + [r])
  {
    OldRecords(log, r);
  }

  lemma StillChained(log: Log, r: Record)
    requires Chained(log) && LastRests(log + [r])
    ensures Chained(log + [r])
  {
    hide FinalCaseRests, QualificationRests, ConclusionHonest;
    OldRecords(log, r);
    RestsExtend(log, log + [r]);
  }

  /** One more record keeps the invariant when it is new for its STOP and rests on what is there. */
  lemma OneMoreRecord(log: Log, r: Record)
    requires Sound(log) && NewForItsStop(log, r.body) && LastRests(log + [r])
    requires forall i :: 0 <= i < |log| ==> log[i].number <= r.number
    ensures Sound(log + [r])
  {
    StillAtMostOne(log, r);
    StillChained(log, r);
    hide AtMostOne, Chained, NewForItsStop, LastRests;
  }

  lemma ConclusionKeeps(log: Log, plan: Plan, req: Request)
    requires Sound(log) && log != [] && PlanHonest(plan)
    requires ConclusionBoundary(log, plan, req).Success?
    ensures var b := ConclusionBoundary(log, plan, req).value;
            && Sound(b.log) && Extends(log, b.log) && ConclusionAt(b, plan)
  {
    var b := ConclusionBoundary(log, plan, req).value;
    if b.log != log {
      var r := b.log[|log|];
      OneMoreRecord(log, r);
      assert b.log == log + [r];
      assert b.log[|log|] == b.record;
    } else {
      assert b.record in log;
      var i :| 0 <= i < |log| && log[i] == b.record;
      assert IsConclusion(log, i);
    }
  }

  /** The boundary's record is the conclusion of the plan's STOP, with its termination state. */
  ghost predicate ConclusionAt(b: Boundary, plan: Plan) {
    exists i :: IsConclusion(b.log, i) && b.log[i] == b.record
      && b.record.body.conclusion.stop == plan.stop && b.record.body.conclusion.termination == plan.termination
  }

  /** Every final case of a conclusion's STOP rests on that conclusion. */
  lemma FinalCasesRest(log: Log, i: int, j: int)
    requires Sound(log) && IsConclusion(log, i) && IsFinalCase(log, j)
    requires log[j].body.finalCase.stop == log[i].body.conclusion.stop
    ensures FinalCaseRests(log, i, j)
  {
    var i' :| FinalCaseRests(log, i', j);
    assert IsConclusion(log, i');
  }

  lemma FinalCaseIsFound(log: Log, i: int, j: int)
    requires Sound(log) && IsConclusion(log, i) && IsFinalCase(log, j)
    requires log[j].body.finalCase.stop == log[i].body.conclusion.stop
    ensures Matches(FinalCasesFor(log[i].body.conclusion.stop, DigestOf(log[i].body)), log[j].body)
  {
    hide Sound;
    FinalCasesRest(log, i, j);
  }

  lemma FinalCaseKeeps(b0: Boundary, plan: Plan, req: Request)
    requires Sound(b0.log) && b0.log != [] && ConclusionAt(b0, plan) && PlanHonest(plan)
    requires FinalCaseBoundary(b0.log, plan, req, DigestOf(b0.record.body)).Success?
    ensures var b := FinalCaseBoundary(b0.log, plan, req, DigestOf(b0.record.body)).value;
            && Sound(b.log) && Extends(b0.log, b.log) && FinalCaseAt(b, plan, b0.record)
  {
    var log, d := b0.log, DigestOf(b0.record.body);
    var b := FinalCaseBoundary(log, plan, req, d).value;
    var i :| IsConclusion(log, i) && log[i] == b0.record
      && b0.record.body.conclusion.stop == plan.stop && b0.record.body.conclusion.termination == plan.termination;
    assert b0.record.body.conclusion.risks == plan.input.risks;
    hide AtMostOne, Chained, Ordered, Grounded;
    if b.log != log {
      FinalCaseAdded(log, b, plan, req, i);
    } else {
      assert b.record in log;
      var j :| 0 <= j < |log| && log[j] == b.record;
      FinalCasesRest(log, i, j);
    }
  }

  lemma FinalCaseAdded(log: Log, b: Boundary, plan: Plan, req: Request, i: int)
    requires Sound(log) && log != [] && PlanHonest(plan) && IsConclusion(log, i)
    requires log[i].body.conclusion.stop == plan.stop && log[i].body.conclusion.termination == plan.termination
    requires log[i].body.conclusion.risks == plan.input.risks
    requires var d := DigestOf(log[i].body);
             && Latest(log, FinalCasesFor(plan.stop, d)).None?
             && b.log == Accept(log, FinalCaseBody(NewFinalCase(log, plan, req, d))) && b.record == b.log[|log|]
    ensures Sound(b.log) && Extends(log, b.log) && FinalCaseAt(b, plan, log[i])
  {
    hide AtMostOne, Chained;
    var r := b.log[|log|];
    assert b.log == log + [r];
    assert FinalCaseRests(b.log, i, |log|) by { hide Sound; }
    forall j | IsFinalCase(log, j)
      ensures log[j].body.finalCase.stop != plan.stop
    {
      if log[j].body.finalCase.stop == plan.stop {
        FinalCaseIsFound(log, i, j);
      }
    }
    OneMoreRecord(log, r);
  }

  /** The boundary's record is a final case that rests on the conclusion. */
  ghost predicate FinalCaseAt(b: Boundary, plan: Plan, concl: Record) {
    && concl.body.ConclusionBody? && concl.body.conclusion.stop == plan.stop
    && concl.body.conclusion.termination == plan.termination
    && exists i, j :: FinalCaseRests(b.log, i, j) && b.log[i] == concl && b.log[j] == b.record
  }

  /** Every materializing qualification of a final case's STOP rests on that final case. */
  lemma QualificationsRest(log: Log, j: int, k: int)
    requires Sound(log) && IsFinalCase(log, j) && IsQualification(log, k)
    requires log[k].body.qualification.stop == log[j].body.finalCase.stop
    ensures QualificationRests(log, j, k)
  {
    var j' :| QualificationRests(log, j', k);
    assert IsFinalCase(log, j');
  }

  /** The boundary's record is a qualification that rests on the final case, which rests on the conclusion. */
  ghost predicate QualificationAt(b: Boundary, plan: Plan, concl: Record, final: Record) {
    && concl.body.ConclusionBody? && concl.body.conclusion.stop == plan.stop
    && concl.body.conclusion.termination == plan.termination
    && exists i, j, k ::
         && FinalCaseRests(b.log, i, j) && QualificationRests(b.log, j, k)
         && b.log[i] == concl && b.log[j] == final && b.log[k] == b.record
  }

  lemma QualificationKeeps(b0: Boundary, plan: Plan, req: Request, concl: Record)
    requires Sound(b0.log) && b0.log != [] && FinalCaseAt(b0, plan, concl) && PlanHonest(plan)
    requires QualificationBoundary(b0.log, plan, req, DigestOf(concl.body), DigestOf(b0.record.body)).Success?
    ensures var b := QualificationBoundary(b0.log, plan, req, DigestOf(concl.body), DigestOf(b0.record.body)).value;
            && Sound(b.log) && Extends(b0.log, b.log)
            && QualificationAt(b, plan, concl, b0.record)
  {
    hide Sound, QualificationRests, PlanHonest, QualificationAt, NewQualification, QualificationBoundary,
      Extends, Latest, Accept;
    var log, c, f := b0.log, DigestOf(concl.body), DigestOf(b0.record.body);
    var b := QualificationBoundary(log, plan, req, c, f).value;
    var i, j :| FinalCaseRests(log, i, j) && log[i] == concl && log[j] == b0.record;
    QualificationOutcome(log, plan, req, c, f);
    if b.log == log {
      QualificationFound(b, plan, concl, b0.record, i, j);
    } else {
      QualificationAdded(log, b, plan, req, concl, b0.record, i, j);
    }
  }

  lemma QualificationFound(b: Boundary, plan: Plan, concl: Record, final: Record, i: int, j: int)
    requires Sound(b.log) && FinalCaseRests(b.log, i, j) && b.log[i] == concl && b.log[j] == final
    requires concl.body.ConclusionBody? && concl.body.conclusion.stop == plan.stop
    requires concl.body.conclusion.termination == plan.termination
    requires b.record in b.log
    requires Matches(QualificationsFor(plan.stop, DigestOf(concl.body), DigestOf(final.body)), b.record.body)
    ensures QualificationAt(b, plan, concl, final) && Extends(b.log, b.log)
  {
    hide Sound, QualificationRests;
    var k :| 0 <= k < |b.log| && b.log[k] == b.record;
    QualificationsRest(b.log, j, k);
  }

  lemma QualificationAdded(log: Log, b: Boundary, plan: Plan, req: Request, concl: Record, final: Record, i: int,
                           j: int)
    requires Sound(log) && PlanHonest(plan) && FinalCaseRests(log, i, j) && log[i] == concl && log[j] == final
    requires concl.body.ConclusionBody? && concl.body.conclusion.stop == plan.stop
    requires concl.body.conclusion.termination == plan.termination
    requires var c, f := DigestOf(concl.body), DigestOf(final.body);
             && Latest(log, QualificationsFor(plan.stop, c, f)).None?
             && b.log == Accept(log, QualificationBody(NewQualification(log, plan, req, c, f)))
             && b.record == b.log[|log|]
    ensures Sound(b.log) && Extends(log, b.log) && QualificationAt(b, plan, concl, final)
  {
    hide Sound, PlanHonest, QualificationRests, NewQualification;
    NewQualificationKeeps(log, plan, req, i, j);
  }

  /** The boundary finds its record, or there is none and it appends one. */
  lemma QualificationOutcome(log: Log, plan: Plan, req: Request, c: Digest, f: Digest)
    requires log != [] && QualificationBoundary(log, plan, req, c, f).Success?
    ensures var b := QualificationBoundary(log, plan, req, c, f).value;
            var query := QualificationsFor(plan.stop, c, f);
            || (b.log == log && b.record in log && Matches(query, b.record.body))
            || (Latest(log, query).None?
                && b.log == Accept(log, QualificationBody(NewQualification(log, plan, req, c, f)))
                && b.record == b.log[|log|] && b.log != log)
  {
    hide NewQualification, Latest;
  }

  lemma NewQualificationKeeps(log: Log, plan: Plan, req: Request, i: int, j: int)
    requires Sound(log) && PlanHonest(plan) && FinalCaseRests(log, i, j)
    requires log[i].body.conclusion.stop == plan.stop && log[i].body.conclusion.termination == plan.termination
    requires Latest(log, QualificationsFor(plan.stop, DigestOf(log[i].body), DigestOf(log[j].body))).None?
    ensures var q := NewQualification(log, plan, req, DigestOf(log[i].body), DigestOf(log[j].body));
            var log' := Accept(log, QualificationBody(q));
            Sound(log') && FinalCaseRests(log', i, j) && QualificationRests(log', j, |log|)
  {
    var q := NewQualification(log, plan, req, DigestOf(log[i].body), DigestOf(log[j].body));
    var log' := Accept(log, QualificationBody(q));
    NewQualificationRests(log, plan, req, i, j);
    NoQualificationYet(log, plan, i, j);
    RestsExtend(log, log');
    hide FinalCaseRests, QualificationRests, LastRests, AtMostOne, Chained;
    OneMoreRecord(log, log'[|log|]);
  }

  lemma NewQualificationRests(log: Log, plan: Plan, req: Request, i: int, j: int)
    requires Sound(log) && PlanHonest(plan) && FinalCaseRests(log, i, j)
    requires log[i].body.conclusion.stop == plan.stop && log[i].body.conclusion.termination == plan.termination
    ensures var q := NewQualification(log, plan, req, DigestOf(log[i].body), DigestOf(log[j].body));
            var log' := Accept(log, QualificationBody(q));
            QualificationRests(log', j, |log|) && LastRests(log')
  {
    assert IsConclusion(log, i);
    var q := NewQualification(log, plan, req, DigestOf(log[i].body), DigestOf(log[j].body));
    assert QualificationRests(Accept(log, QualificationBody(q)), j, |log|);
  }

  lemma QualificationIsFound(log: Log, i: int, j: int, k: int)
    requires Sound(log) && FinalCaseRests(log, i, j) && IsQualification(log, k)
    requires log[k].body.qualification.stop == log[i].body.conclusion.stop
    ensures Matches(QualificationsFor(log[i].body.conclusion.stop, DigestOf(log[i].body), DigestOf(log[j].body)),
        log[k].body)
  {
    hide Sound;
    QualificationsRest(log, j, k);
  }

  lemma NoQualificationYet(log: Log, plan: Plan, i: int, j: int)
    requires Sound(log) && FinalCaseRests(log, i, j) && log[i].body.conclusion.stop == plan.stop
    requires Latest(log, QualificationsFor(plan.stop, DigestOf(log[i].body), DigestOf(log[j].body))).None?
    ensures forall k :: IsQualification(log, k) ==> log[k].body.qualification.stop != plan.stop
  {
    hide Sound;
    forall k | IsQualification(log, k)
      ensures log[k].body.qualification.stop != plan.stop
    {
      if log[k].body.qualification.stop == plan.stop {
        QualificationIsFound(log, i, j, k);
      }
    }
  }

  // ----- whole calls and whole runs -----

  /** The report names a conclusion, a final case resting on it and a qualification resting on that, as they stand
      in the log: so their sequence numbers ascend, their risks are the STOP's, and the rest of the chain holds. */
  ghost predicate ReportTrue(log: Log, rep: Report) {
    && log != [] && rep.headSeq == Head(log).number
    && exists i, j, k ::
         && FinalCaseRests(log, i, j) && QualificationRests(log, j, k)
         && rep.conclusion == DigestOf(log[i].body) && rep.conclusionSeq == log[i].number
         && rep.finalCase == DigestOf(log[j].body) && rep.finalCaseSeq == log[j].number
         && rep.qualification == DigestOf(log[k].body) && rep.qualificationSeq == log[k].number
         && rep.termination == log[i].body.conclusion.termination
         && rep.readiness == log[k].body.qualification.result
  }

  ghost predicate OutcomeSound(log: Log, o: Outcome) {
    && (forall i :: 0 <= i < |o.stages| ==> Sound(o.stages[i]) && Extends(log, o.stages[i]))
    && (o.result.Success? ==> ReportTrue(FinalLog(log, o), o.result.value))
  }

  lemma MakeReport(b: Boundary, plan: Plan, concl: Record, final: Record)
    requires QualificationAt(b, plan, concl, final) && b.record.body.QualificationBody?
    ensures b.log != []
    ensures ReportTrue(b.log, Report(plan.termination, plan.evaluation.assurance, b.record.body.qualification.result,
                                     DigestOf(concl.body), DigestOf(final.body), DigestOf(b.record.body),
                                     concl.number, final.number, b.record.number, Head(b.log).number))
  {
    var i, j, k :| FinalCaseRests(b.log, i, j) && QualificationRests(b.log, j, k)
      && b.log[i] == concl && b.log[j] == final && b.log[k] == b.record;
    hide Grounded;
  }

  /** A boundary followed by a sound outcome is sound. */
  lemma BoundaryThen(log: Log, b: Boundary, rest: Outcome)
    requires Sound(b.log) && Extends(log, b.log) && OutcomeSound(b.log, rest)
    ensures OutcomeSound(log, Outcome(Advance(log, b) + rest.stages, rest.result))
  {
    hide Sound, ReportTrue;
    var o := Outcome(Advance(log, b) + rest.stages, rest.result);
    assert FinalLog(log, o) == FinalLog(b.log, rest);
  }

  lemma FromQualificationSound(b0: Boundary, plan: Plan, req: Request, concl: Record)
    requires Sound(b0.log) && b0.log != [] && FinalCaseAt(b0, plan, concl) && PlanHonest(plan)
    ensures OutcomeSound(b0.log, FromQualification(b0.log, plan, req, concl, b0.record))
  {
    hide Sound, FinalCaseAt, QualificationAt, ReportTrue, PlanHonest, Extends;
    var r := QualificationBoundary(b0.log, plan, req, DigestOf(concl.body), DigestOf(b0.record.body));
    if r.Success? {
      QualificationKeeps(b0, plan, req, concl);
      MakeReport(r.value, plan, concl, b0.record);
    }
  }

  lemma FromFinalCaseSound(b0: Boundary, plan: Plan, req: Request)
    requires Sound(b0.log) && b0.log != [] && ConclusionAt(b0, plan) && PlanHonest(plan)
    ensures OutcomeSound(b0.log, FromFinalCase(b0.log, plan, req, b0.record))
  {
    hide Sound, ReportTrue, PlanHonest, ConclusionAt, FinalCaseAt, FinalCaseBoundary, FromQualification, Extends;
    var r := FinalCaseBoundary(b0.log, plan, req, DigestOf(b0.record.body));
    if r.Success? {
      FinalCaseKeeps(b0, plan, req);
      FromQualificationSound(r.value, plan, req, b0.record);
      BoundaryThen(b0.log, r.value, FromQualification(r.value.log, plan, req, b0.record, r.value.record));
    }
  }

  lemma FromConclusionSound(log: Log, plan: Plan, req: Request)
    requires Sound(log) && log != [] && PlanHonest(plan)
    ensures OutcomeSound(log, FromConclusion(log, plan, req))
  {
    hide Sound, ReportTrue, PlanHonest, ConclusionAt, ConclusionBoundary, FromFinalCase, Extends;
    var r := ConclusionBoundary(log, plan, req);
    if r.Success? {
      ConclusionKeeps(log, plan, req);
      FromFinalCaseSound(r.value, plan, req);
      BoundaryThen(log, r.value, FromFinalCase(r.value.log, plan, req, r.value.record));
    }
  }

  /** A record that no finalization call of a STOP writes. */
  ghost predicate Foreign(b: Body) {
    !b.ConclusionBody? && !b.FinalCaseBody? && !(b.QualificationBody? && b.qualification.basis.StopAxisMaterialization?)
  }

  lemma ForeignKeeps(log: Log, r: Record)
    requires Sound(log) && Foreign(r.body) && (log != [] ==> Head(log).number <= r.number)
    ensures Sound(log + [r])
  {
    assert forall i :: 0 <= i < |log| ==> log[i].number <= r.number;
    OneMoreRecord(log, r);
  }

  /** A commit of others: its records, none of them an artifact of a STOP's finalization, stand under the number after
      the head's. */
  ghost predicate ForeignCommit(log: Log, log': Log) {
    && |log| < |log'| && Extends(log, log')
    && forall i :: |log| <= i < |log'| ==>
         && Foreign(log'[i].body) && log'[i].policy == log'[|log|].policy
         && log'[i].number == if log == [] then 1 else Head(log).number + 1
  }

  lemma ForeignCommitKeeps(log: Log, log': Log)
    requires Sound(log) && ForeignCommit(log, log')
    ensures Sound(log')
  {
    hide Sound;
    ForeignPrefix(log, log', |log'|);
    assert log'[..|log'|] == log';
  }

  lemma {:induction false} ForeignPrefix(log: Log, log': Log, n: nat)
    requires Sound(log) && ForeignCommit(log, log') && |log| <= n <= |log'|
    ensures Sound(log'[..n])
  {
    hide Sound, Foreign;
    if n == |log| {
      assert log'[..n] == log;
    } else {
      ForeignPrefix(log, log', n - 1);
      ForeignKeeps(log'[..n - 1], log'[n - 1]);
      assert log'[..n] == log'[..n - 1] + [log'[n - 1]];
    }
  }

  /** Evaluating the STOP gate is such a commit. */
  lemma GateIsForeign(log: Log, gate: (StopInput, StopEvaluation))
    requires log != []
    ensures ForeignCommit(log, AcceptGate(log, gate))
  {
  }

  lemma EnsureStopKeeps(log: Log, req: Request)
    requires Sound(log) && log != [] && EnsureStop(log, req).Success?
    ensures Sound(EnsureStop(log, req).value) && Extends(log, EnsureStop(log, req).value)
  {
    hide Sound, Foreign, AcceptGate, Latest;
    if EnsureStop(log, req).value != log {
      GateIsForeign(log, req.gate.value);
      ForeignCommitKeeps(log, EnsureStop(log, req).value);
    }
  }

  /** Every history a call passes through is sound, and a finished call reports the truth. */
  lemma ConcludeSound(current: Freshness, log: Log, req: Request)
    requires Sound(log)
    ensures OutcomeSound(log, Conclude(current, log, req))
  {
    hide Sound, ReportTrue, PlanHonest, PlanFor, FromConclusion, EnsureStop;
    if log != [] && EnsureStop(log, req).Success? {
      EnsureStopKeeps(log, req);
      var log' := EnsureStop(log, req).value;
      if PlanFor(current, log', req).Success? {
        PlanIsHonest(current, log', req);
        FromConclusionSound(log', PlanFor(current, log', req).value, req);
      }
    }
  }

  /** One event: a call that runs until it answers or crashes after any of its acceptances, or a foreign commit. */
  ghost predicate Next(current: Freshness, log: Log, log': Log) {
    || log' == log
    || (exists req, k :: CrashesAt(current, log, req, k, log'))
    || ForeignCommit(log, log')
  }

  /** The call is cut off, or has just answered, after its k-th acceptance. */
  ghost predicate CrashesAt(current: Freshness, log: Log, req: Request, k: int, log': Log) {
    0 <= k < |Conclude(current, log, req).stages| && log' == Conclude(current, log, req).stages[k]
  }

  ghost predicate Run(current: Freshness, logs: seq<Log>) {
    && logs != [] && logs[0] == []
    && forall i :: 0 <= i < |logs| - 1 ==> Next(current, logs[i], logs[i + 1])
  }

  /** Safety: in every history of every run, no STOP has two conclusions, final cases or qualifications, and every
      artifact carries its STOP's risks, rests on an earlier one, and is COMPLETED only after a passed STOP. */
  lemma {:induction false} EveryRunIsSound(current: Freshness, logs: seq<Log>, n: nat)
    requires Run(current, logs) && n < |logs|
    ensures Sound(logs[n])
  {
    if n > 0 {
      EveryRunIsSound(current, logs, n - 1);
      hide Sound, Conclude;
      var log, log' := logs[n - 1], logs[n];
      assert Next(current, log, log');
      if log' == log {
      } else if exists req, k :: CrashesAt(current, log, req, k, log') {
        var req, k :| CrashesAt(current, log, req, k, log');
        ConcludeSound(current, log, req);
      } else {
        ForeignCommitKeeps(log, log');
      }
    }
  }

  /** What a finished call of a run has established. */
  lemma FinishedCall(current: Freshness, logs: seq<Log>, n: nat, req: Request)
    requires Run(current, logs) && n < |logs| && Conclude(current, logs[n], req).result.Success?
    ensures var rep := Conclude(current, logs[n], req).result.value;
            && rep.conclusionSeq < rep.finalCaseSeq < rep.qualificationSeq <= rep.headSeq
            && rep.conclusion.DigestOf? && rep.conclusion.body.ConclusionBody?
            && rep.finalCase.DigestOf? && rep.finalCase.body.FinalCaseBody?
            && rep.qualification.DigestOf? && rep.qualification.body.QualificationBody?
            && var c, f, q := rep.conclusion.body.conclusion, rep.finalCase.body.finalCase,
                              rep.qualification.body.qualification;
               && Grounded(c.stop) && c.stop == f.stop == q.stop
               && f.conclusion == q.conclusion == rep.conclusion && q.finalCase == rep.finalCase
               && c.risks == f.risks == q.risks == InputOf(c.stop).risks
               && rep.readiness == q.result && rep.termination == c.termination
               && (rep.termination.Completed? ==>
                     && EvaluationOf(c.stop).decision.Pass? && EvaluationOf(c.stop).assurance.AdequateForDeclaredScope?
                     && rep.readiness == EvaluationOf(c.stop).readiness)
               && (!rep.termination.Completed? ==> rep.readiness.QualificationBlocked?)
  {
    hide Conclude;
    EveryRunIsSound(current, logs, n);
    ConcludeSound(current, logs[n], req);
    var o := Conclude(current, logs[n], req);
    var log, rep := FinalLog(logs[n], o), o.result.value;
    assert Sound(log);
    var i, j, k :|
      && FinalCaseRests(log, i, j) && QualificationRests(log, j, k)
      && rep.conclusion == DigestOf(log[i].body) && rep.conclusionSeq == log[i].number
      && rep.finalCase == DigestOf(log[j].body) && rep.finalCaseSeq == log[j].number
      && rep.qualification == DigestOf(log[k].body) && rep.qualificationSeq == log[k].number
      && rep.termination == log[i].body.conclusion.termination
      && rep.readiness == log[k].body.qualification.result;
    assert IsConclusion(log, i);
  }

  // ----- what the artifacts of a finished call say -----

  ghost predicate ConclusionSays(b: Body, plan: Plan, req: Request) {
    && b.ConclusionBody?
    && var c := b.conclusion;
       && c.stop == plan.stop && c.termination == plan.termination && c.statement == req.statement
       && c.sourceGeneration == plan.input.sourceGeneration && c.candidate == plan.input.candidate
  }

  ghost predicate FinalCaseSays(b: Body, plan: Plan, req: Request, concl: Body) {
    && b.FinalCaseBody?
    && var f := b.finalCase;
       && f.stop == plan.stop && f.conclusion == DigestOf(concl) && f.statement == TextDigest(req.statement)
       && f.candidate == plan.input.candidate && f.challengers == plan.input.challengers
  }

  ghost predicate QualificationSays(b: Body, plan: Plan, concl: Body, final: Body) {
    && b.QualificationBody?
    && var q := b.qualification;
       && q.stop == plan.stop && q.conclusion == DigestOf(concl) && q.finalCase == DigestOf(final)
       && q.releasePolicy == plan.policy && q.result == ResultFor(plan) && q.basis.StopAxisMaterialization?
  }

  lemma ConclusionBoundarySays(log: Log, plan: Plan, req: Request)
    requires log != [] && ConclusionBoundary(log, plan, req).Success?
    ensures ConclusionSays(ConclusionBoundary(log, plan, req).value.record.body, plan, req)
  {
    hide Latest;
  }

  lemma FinalCaseBoundarySays(log: Log, plan: Plan, req: Request, concl: Body)
    requires log != [] && FinalCaseBoundary(log, plan, req, DigestOf(concl)).Success?
    ensures FinalCaseSays(FinalCaseBoundary(log, plan, req, DigestOf(concl)).value.record.body, plan, req, concl)
  {
    hide Latest;
  }

  lemma QualificationBoundarySays(log: Log, plan: Plan, req: Request, concl: Body, final: Body)
    requires log != [] && QualificationBoundary(log, plan, req, DigestOf(concl), DigestOf(final)).Success?
    ensures QualificationSays(QualificationBoundary(log, plan, req, DigestOf(concl), DigestOf(final)).value.record.body,
                              plan, concl, final)
  {
    hide Latest;
  }

  /** The three artifacts of a report say what the call asked for and what the STOP pinned, whether this call accepted
      them or found them: the statement, the termination state, the candidate, the challengers and the release
      policy. */
  ghost predicate ReportSays(rep: Report, plan: Plan, req: Request) {
    && rep.conclusion.DigestOf? && ConclusionSays(rep.conclusion.body, plan, req)
    && rep.finalCase.DigestOf? && FinalCaseSays(rep.finalCase.body, plan, req, rep.conclusion.body)
    && rep.qualification.DigestOf?
        && QualificationSays(rep.qualification.body, plan, rep.conclusion.body, rep.finalCase.body)
    && (req.termination.Some? ==> plan.termination == req.termination.value)
  }

  /** A finished call answers what was asked, on the basis of the latest STOP, which was current. */
  lemma FinishedCallSays(current: Freshness, log: Log, req: Request) returns (settled: Log, plan: Plan)
    requires Conclude(current, log, req).result.Success?
    ensures EnsureStop(log, req) == Success(settled) && PlanFor(current, settled, req) == Success(plan)
    ensures current(plan.input, settled)
    ensures ReportSays(Conclude(current, log, req).result.value, plan, req)
  {
    hide Latest, ConclusionBoundary, FinalCaseBoundary, QualificationBoundary, ConclusionSays, FinalCaseSays,
      QualificationSays;
    settled := EnsureStop(log, req).value;
    plan := PlanFor(current, settled, req).value;
    ConclusionBoundarySays(settled, plan, req);
    var b1 := ConclusionBoundary(settled, plan, req).value;
    FinalCaseBoundarySays(b1.log, plan, req, b1.record.body);
    var b2 := FinalCaseBoundary(b1.log, plan, req, DigestOf(b1.record.body)).value;
    QualificationBoundarySays(b2.log, plan, req, b1.record.body, b2.record.body);
  }
}
