/** assurance/finalization_service.py and assurance/residual_risk_finalization.py: the conclusion of a
    campaign in three resumable boundaries over an append-only history.

    The history store is a sequence of accepted records. A digest is an injective function of what it
    digests, so it is modelled by the digested body itself. */
module Finalization {
  import opened Wrappers

  datatype Digest = DigestOf(body: Body) | TextDigest(text: string)

  datatype Ref = Ref(kind: string, digest: Digest)

  datatype Decision = Pass | OtherDecision(name: string)
  datatype Assurance = AdequateForDeclaredScope | BoundedAssurance | Insufficient
  datatype Readiness = Ready | ReadyWithResidualRisk | TechnicallyNotReady | QualificationBlocked
  datatype Termination = Open | Completed | CompletedLimited | UnknownTermination(name: string)
  datatype AssessmentBasis = StopAxisMaterialization | FreshReleaseQualification | ReleaseReassessment

  /** A history cut: the sequence number of its head and the governing policy there. */
  datatype Cut = Cut(number: nat, policy: string)

  datatype StopInput = StopInput(sourceGeneration: Ref, candidate: Option<Ref>, challengers: set<Ref>,
                                 risks: set<Digest>, releasePolicy: Option<Digest>, snapshot: string)

  datatype StopEvaluation = StopEvaluation(stopInput: Option<Digest>, decision: Decision, assurance: Assurance,
                                           readiness: Readiness)

  datatype Conclusion = Conclusion(id: string, sourceGeneration: Ref, stop: Digest, termination: Termination,
                                   assurance: Assurance, statement: string, cut: Cut, risks: set<Digest>,
                                   candidate: Option<Ref>, limitedBasis: Option<Digest>)

  datatype FinalCase = FinalCase(id: string, conclusion: Digest, stop: Digest, statement: Digest, cut: Cut,
                                 risks: set<Digest>, candidate: Option<Ref>, challengers: set<Ref>,
                                 limitedBasis: Option<Digest>)

  datatype Qualification = Qualification(id: string, conclusion: Digest, finalCase: Digest, stop: Digest,
                                         sourceGeneration: Ref, releasePolicy: Digest, cut: Cut,
                                         basis: AssessmentBasis, result: Readiness, risks: set<Digest>,
                                         reasonCodes: seq<string>)

  datatype Body =
    | StopInputBody(input: StopInput)
    | StopEvaluationBody(evaluation: StopEvaluation)
    | ConclusionBody(conclusion: Conclusion)
    | FinalCaseBody(finalCase: FinalCase)
    | QualificationBody(qualification: Qualification)
    | OtherBody(kind: string, content: string)

  /** One accepted object: the sequence number and governing policy of its commit, and its body. */
  datatype Record = Record(number: nat, policy: string, body: Body)

  type Log = seq<Record>

  /** The freshness check of the STOP authority: is the STOP's material basis current in this history? */
  type Freshness = (StopInput, Log) -> bool

  datatype Error =
    | CampaignNotFound | StopEvaluationRequired | StopGateFailed | StopInputReferenceRequired
    | AcceptedRecordNotFound | StaleStop | ReleasePolicyContextRequired
    | CompletedRequiresStopPass | CompletedRequiresAdequateAssurance | ResidualRiskReadinessMismatch
    | InvalidTerminationState | CompletedRequiresCandidateCase
    | ReplayConflict | DriftDetected | ReleasePolicyBindingMismatch | HistoryCutInputMismatch

  /** The arguments of a call, the fresh ids it would draw, and what evaluating the STOP gate would yield. */
  datatype Request = Request(termination: Option<Termination>, statement: string,
                             conclusionId: string, finalCaseId: string, qualificationId: string,
                             gate: Option<(StopInput, StopEvaluation)>)

  datatype Report = Report(termination: Termination, assurance: Assurance, readiness: Readiness,
                           conclusion: Digest, finalCase: Digest, qualification: Digest,
                           conclusionSeq: nat, finalCaseSeq: nat, qualificationSeq: nat, headSeq: nat)

  // ----- reading the history -----

  datatype Query =
    | StopEvaluations
    | StopInputs(digest: Digest)
    | ConclusionsFor(stop: Digest)
    | FinalCasesFor(stop: Digest, conclusion: Digest)
    | QualificationsFor(stop: Digest, conclusion: Digest, finalCase: Digest)

  predicate Matches(q: Query, b: Body) {
    match q
    case StopEvaluations => b.StopEvaluationBody?
    case StopInputs(d) => b.StopInputBody? && DigestOf(b) == d
    case ConclusionsFor(s) => b.ConclusionBody? && b.conclusion.stop == s
    case FinalCasesFor(s, c) => b.FinalCaseBody? && b.finalCase.conclusion == c && b.finalCase.stop == s
    case QualificationsFor(s, c, f) =>
      && b.QualificationBody? && b.qualification.conclusion == c && b.qualification.finalCase == f
      && b.qualification.stop == s && b.qualification.basis.StopAxisMaterialization?
  }

  /** The body was accepted before: a later acceptance of it leaves its record, and the number of that, as they are. */
  predicate AlreadyAccepted(log: Log, b: Body) {
    exists i | 0 <= i < |log| :: log[i].body == b
  }

  /** Of the accepted bodies that match, the record of the one first accepted last; of several in one commit, the first,
      which has the smallest digest. */
  function Latest(log: Log, q: Query): (r: Option<Record>)
    ensures r.Some? ==> r.value in log && Matches(q, r.value.body)
    ensures r.None? ==> forall i :: 0 <= i < |log| ==> !Matches(q, log[i].body)
  {
    if log == [] then None
    else
      var n := |log| - 1;
      var before := Latest(log[..n], q);
      if Matches(q, log[n].body) && !AlreadyAccepted(log[..n], log[n].body)
         && (before.None? || before.value.number < log[n].number)
      then Some(log[n]) else before
  }

  function Head(log: Log): Cut
    requires log != []
  {
    Cut(log[|log| - 1].number, log[|log| - 1].policy)
  }

  /** _accept_one: the artifact in a commit of its own, under the policy of the head. */
  function Accept(log: Log, b: Body): Log
    requires log != []
  {
    log + [Record(Head(log).number + 1, Head(log).policy, b)]
  }

  /** The cut of the history from which an artifact was drawn. */
  function InputCut(b: Body): Option<Cut> {
    match b
    case ConclusionBody(conclusion) => Some(conclusion.cut)
    case FinalCaseBody(finalCase) => Some(finalCase.cut)
    case QualificationBody(qualification) => Some(qualification.cut)
    case _ => None
  }

  /** The acceptance rule of the store: an artifact follows exactly the history from which it was drawn. */
  function Admit(log: Log, b: Body): Result<Log, Error>
    requires log != []
  {
    if InputCut(b).Some? && InputCut(b).value != Head(log) then Failure(HistoryCutInputMismatch)
    else Success(Accept(log, b))
  }

  // ----- what a call resolves before the first boundary -----

  /** evaluate_stop_gate accepts the STOP input and its evaluation in one commit. */
  function AcceptGate(log: Log, gate: (StopInput, StopEvaluation)): Log
    requires log != []
  {
    var h := Head(log);
    log + [Record(h.number + 1, h.policy, StopInputBody(gate.0)),
        Record(h.number + 1, h.policy, StopEvaluationBody(gate.1))]
  }

  /** The history after making sure that a STOP evaluation exists. */
  function EnsureStop(log: Log, req: Request): Result<Log, Error>
    requires log != []
  {
    if Latest(log, StopEvaluations).Some? then Success(log)
    else if req.termination == Some(Completed) then Failure(StopEvaluationRequired)
    else if req.gate.None? then Failure(StopGateFailed)
    else Success(AcceptGate(log, req.gate.value))
  }

  /** The STOP a call works on, and the termination state it settles. */
  datatype Plan = Plan(stop: Digest, evaluation: StopEvaluation, input: StopInput, policy: Digest,
                       termination: Termination)

  function TerminationFor(req: Request, e: StopEvaluation): Termination {
    if req.termination.Some? then req.termination.value
    else if e.decision.Pass? && e.assurance.AdequateForDeclaredScope? then Completed
    else CompletedLimited
  }

  function PlanFor(current: Freshness, log: Log, req: Request): Result<Plan, Error> {
    match Latest(log, StopEvaluations)
    case None => Failure(StopEvaluationRequired)
    case Some(stopRecord) =>
      var e := stopRecord.body.evaluation;
      if e.stopInput.None? then Failure(StopInputReferenceRequired)
      else match Latest(log, StopInputs(e.stopInput.value))
        case None => Failure(AcceptedRecordNotFound)
        case Some(inputRecord) =>
          var input := inputRecord.body.input;
          var termination := TerminationFor(req, e);
          if !current(input, log) then Failure(StaleStop)
          else if input.releasePolicy.None? then Failure(ReleasePolicyContextRequired)
          else if termination.Completed? && !e.decision.Pass? then Failure(CompletedRequiresStopPass)
          else if termination.Completed? && !e.assurance.AdequateForDeclaredScope?
              then Failure(CompletedRequiresAdequateAssurance)
          else if termination.Completed? && input.risks != {} && !e.readiness.ReadyWithResidualRisk?
              then Failure(ResidualRiskReadinessMismatch)
          else Success(Plan(DigestOf(stopRecord.body), e, input, input.releasePolicy.value, termination))
  }

  // ----- the three boundaries -----

  function NewConclusion(log: Log, plan: Plan, req: Request): Conclusion
    requires log != []
  {
    Conclusion(req.conclusionId, plan.input.sourceGeneration, plan.stop, plan.termination, plan.evaluation.assurance,
               req.statement, Head(log), plan.input.risks, plan.input.candidate,
               if plan.termination.CompletedLimited? then Some(plan.stop) else None)
  }

  /** An accepted conclusion says what this call would say. */
  predicate SameConclusion(c: Conclusion, plan: Plan, req: Request) {
    && c.termination == plan.termination && c.statement == req.statement
    && c.sourceGeneration == plan.input.sourceGeneration && c.candidate == plan.input.candidate
    && (plan.input.risks != {} ==> c.risks == plan.input.risks)
  }

  /** A boundary: the history it leaves and the record it found or accepted there. */
  datatype Boundary = Boundary(log: Log, record: Record)

  function ConclusionBoundary(log: Log, plan: Plan, req: Request): (r: Result<Boundary, Error>)
    requires log != []
    ensures r.Success? ==> r.value.record.body.ConclusionBody? && log <= r.value.log
  {
    match Latest(log, ConclusionsFor(plan.stop))
    case Some(found) =>
      if SameConclusion(found.body.conclusion, plan, req) then Success(Boundary(log, found))
          else Failure(ReplayConflict)
    case None =>
      if plan.termination.UnknownTermination? then Failure(InvalidTerminationState)
      else if plan.termination.Completed? && plan.input.candidate.None? then Failure(CompletedRequiresCandidateCase)
      else
        var log' := Accept(log, ConclusionBody(NewConclusion(log, plan, req)));
        Success(Boundary(log', log'[|log|]))
  }

  function NewFinalCase(log: Log, plan: Plan, req: Request, conclusion: Digest): FinalCase
    requires log != []
  {
    FinalCase(req.finalCaseId, conclusion, plan.stop, TextDigest(req.statement), Head(log), plan.input.risks,
              plan.input.candidate, plan.input.challengers,
              if plan.termination.CompletedLimited? && plan.input.risks != {} then Some(plan.stop) else None)
  }

  predicate SameFinalCase(f: FinalCase, plan: Plan, req: Request) {
    && f.statement == TextDigest(req.statement)
    && f.candidate == plan.input.candidate && f.challengers == plan.input.challengers
    && (plan.input.risks != {} ==> f.risks == plan.input.risks)
  }

  function FinalCaseBoundary(log: Log, plan: Plan, req: Request, conclusion: Digest): (r: Result<Boundary, Error>)
    requires log != []
    ensures r.Success? ==> r.value.record.body.FinalCaseBody? && log <= r.value.log
  {
    match Latest(log, FinalCasesFor(plan.stop, conclusion))
    case Some(found) =>
      if SameFinalCase(found.body.finalCase, plan, req) then Success(Boundary(log, found)) else Failure(ReplayConflict)
    case None =>
      var log' := Accept(log, FinalCaseBody(NewFinalCase(log, plan, req, conclusion)));
      Success(Boundary(log', log'[|log|]))
  }

  function ResultFor(plan: Plan): Readiness {
    if plan.termination.Completed? then plan.evaluation.readiness else QualificationBlocked
  }

  function NewQualification(log: Log, plan: Plan, req: Request, conclusion: Digest, finalCase: Digest): Qualification
    requires log != []
  {
    Qualification(req.qualificationId, conclusion, finalCase, plan.stop, plan.input.sourceGeneration,
                  TextDigest(Head(log).policy), Head(log), StopAxisMaterialization, ResultFor(plan), plan.input.risks,
                  if plan.input.risks != {} then ["STOP_AXIS_MATERIALIZATION_QUALIFIED"] else [])
  }

  function QualificationBoundary(log: Log, plan: Plan, req: Request, conclusion: Digest, finalCase: Digest)
    : (r: Result<Boundary, Error>)
    requires log != []
    ensures r.Success? ==> r.value.record.body.QualificationBody? && log <= r.value.log
  {
    var policy := TextDigest(Head(log).policy);
    if Head(log).policy == "" then Failure(ReleasePolicyContextRequired)
    else if plan.policy != policy then Failure(DriftDetected)
    else match Latest(log, QualificationsFor(plan.stop, conclusion, finalCase))
      case Some(found) =>
        var q := found.body.qualification;
        if q.result != ResultFor(plan) then Failure(ReplayConflict)
        else if plan.input.risks != {} && q.risks != plan.input.risks then Failure(ReplayConflict)
        else if q.releasePolicy != policy then Failure(ReleasePolicyBindingMismatch)
        else if plan.input.risks == {} && q.sourceGeneration != plan.input.sourceGeneration then Failure(ReplayConflict)
        else Success(Boundary(log, found))
      case None =>
        var log' := Accept(log, QualificationBody(NewQualification(log, plan, req, conclusion, finalCase)));
        Success(Boundary(log', log'[|log|]))
  }

  // ----- a whole call -----

  /** The histories after each acceptance of a call, in order, and its answer. */
  datatype Outcome = Outcome(stages: seq<Log>, result: Result<Report, Error>)

  function Advance(log: Log, b: Boundary): seq<Log> {
    if b.log == log then [] else [b.log]
  }

  function FromQualification(log: Log, plan: Plan, req: Request, concl: Record, final: Record): Outcome
    requires log != []
  {
    match QualificationBoundary(log, plan, req, DigestOf(concl.body), DigestOf(final.body))
    case Failure(e) => Outcome([], Failure(e))
    case Success(b) =>
      Outcome(Advance(log, b),
              Success(Report(plan.termination, plan.evaluation.assurance, ResultFor(plan),
                             DigestOf(concl.body), DigestOf(final.body), DigestOf(b.record.body),
                             concl.number, final.number, b.record.number, Head(b.log).number)))
  }

  function FromFinalCase(log: Log, plan: Plan, req: Request, concl: Record): Outcome
    requires log != []
  {
    match FinalCaseBoundary(log, plan, req, DigestOf(concl.body))
    case Failure(e) => Outcome([], Failure(e))
    case Success(b) =>
      var rest := FromQualification(b.log, plan, req, concl, b.record);
      Outcome(Advance(log, b) + rest.stages, rest.result)
  }

  function FromConclusion(log: Log, plan: Plan, req: Request): Outcome
    requires log != []
  {
    match ConclusionBoundary(log, plan, req)
    case Failure(e) => Outcome([], Failure(e))
    case Success(b) =>
      var rest := FromFinalCase(b.log, plan, req, b.record);
      Outcome(Advance(log, b) + rest.stages, rest.result)
  }

  function FromStop(current: Freshness, log: Log, req: Request): Outcome
    requires log != []
  {
    match PlanFor(current, log, req)
    case Failure(e) => Outcome([], Failure(e))
    case Success(plan) => FromConclusion(log, plan, req)
  }

  /** conclude_campaign as installed: with residual risks or without, on one path. */
  function Conclude(current: Freshness, log: Log, req: Request): Outcome {
    if log == [] then Outcome([], Failure(CampaignNotFound))
    else match EnsureStop(log, req)
      case Failure(e) => Outcome([], Failure(e))
      case Success(log') =>
        var rest := FromStop(current, log', req);
        Outcome((if log' == log then [] else [log']) + rest.stages, rest.result)
  }

  function FinalLog(log: Log, o: Outcome): Log {
    if o.stages == [] then log else o.stages[|o.stages| - 1]
  }

  /** One record under the next number and the policy of the head: the history that the boundaries speak of. */
  lemma AcceptedOne(before: Log, after: Log, b: Body)
    requires before != [] && |after| == |before| + 1 && before <= after
    requires after[|before|] == Record(before[|before| - 1].number + 1, before[|before| - 1].policy, b)
    ensures after == Accept(before, b)
  {
  }

  /** What a boundary draws from a history is admitted to that history. */
  lemma DrawnHere(log: Log, plan: Plan, req: Request, concl: Digest, final: Digest)
    requires log != []
    ensures InputCut(ConclusionBody(NewConclusion(log, plan, req))) == Some(Head(log))
    ensures InputCut(FinalCaseBody(NewFinalCase(log, plan, req, concl))) == Some(Head(log))
    ensures InputCut(QualificationBody(NewQualification(log, plan, req, concl, final))) == Some(Head(log))
  {
  }

  // ----- the service -----

  class FinalizationService {
    const current: Freshness
    var log: Log
    /** Every history the store has been left in after an acceptance: where a crash can interrupt a call. */
    ghost var history: seq<Log>

    constructor (current: Freshness, log: Log)
      ensures this.current == current && this.log == log && history == []
    {
      this.current, this.log, this.history := current, log, [];
    }

    method AcceptOne(b: Body) returns (r: Result<nat, Error>)
      requires log != []
      modifies this
      ensures r.Failure? <==> InputCut(b).Some? && InputCut(b).value != Head(old(log))
      ensures r.Failure? ==> r.error == HistoryCutInputMismatch && log == old(log) && history == old(history)
      ensures r.Success? ==>
                && |log| == |old(log)| + 1 && old(log) <= log && log[|old(log)|].body == b
                && log[|old(log)|].number == r.value == old(log)[|old(log)| - 1].number + 1
                && log[|old(log)|].policy == old(log)[|old(log)| - 1].policy
                && history == old(history) + [log]
    {
      var admitted := Admit(log, b);
      if admitted.Failure? {
        return Failure(admitted.error);
      }
      log := admitted.value;
      history := history + [log];
      return Success(Head(log).number);
    }

    method EvaluateStopGate(gate: (StopInput, StopEvaluation))
      requires log != []
      modifies this
      ensures log == AcceptGate(old(log), gate) && history == old(history) + [log]
    {
      log := AcceptGate(log, gate);
      history := history + [log];
    }

    method ConcludeCampaign(req: Request) returns (r: Result<Report, Error>)
      modifies this
      ensures var o := Conclude(current, old(log), req);
              r == o.result && log == FinalLog(old(log), o) && history == old(history) + o.stages
    {
      hide PlanFor, FromConclusion;
      if log == [] {
        return Failure(CampaignNotFound);
      }
      if Latest(log, StopEvaluations).None? {
        if req.termination == Some(Completed) {
          return Failure(StopEvaluationRequired);
        }
        if req.gate.None? {
          return Failure(StopGateFailed);
        }
        EvaluateStopGate(req.gate.value);
      }
      var planned := PlanFor(current, log, req);
      if planned.Failure? {
        return Failure(planned.error);
      }
      r := ConcludePlanned(planned.value, req);
    }

    /** The boundaries of conclude_campaign, once the STOP is resolved. */
    method ConcludePlanned(plan: Plan, req: Request) returns (r: Result<Report, Error>)
      requires log != []
      modifies this
      ensures var o := FromConclusion(old(log), plan, req);
              r == o.result && log == FinalLog(old(log), o) && history == old(history) + o.stages
    {
      hide FromFinalCase, Latest, NewConclusion;
      // Boundary 1 consumes only the accepted STOP and the basis visible at its cut.
      var concl: Record;
      var existing := Latest(log, ConclusionsFor(plan.stop));
      if existing.Some? {
        if !SameConclusion(existing.value.body.conclusion, plan, req) {
          return Failure(ReplayConflict);
        }
        concl := existing.value;
      } else {
        if plan.termination.UnknownTermination? {
          return Failure(InvalidTerminationState);
        }
        if plan.termination.Completed? && plan.input.candidate.None? {
          return Failure(CompletedRequiresCandidateCase);
        }
        ghost var before, b := log, ConclusionBody(NewConclusion(log, plan, req));
        DrawnHere(log, plan, req, plan.stop, plan.stop);
        var _ := AcceptOne(ConclusionBody(NewConclusion(log, plan, req)));
        AcceptedOne(before, log, b);
        concl := log[|log| - 1];
      }
      r := FinishCampaign(plan, req, concl);
    }

    /** The last two boundaries of conclude_campaign. */
    method FinishCampaign(plan: Plan, req: Request, concl: Record) returns (r: Result<Report, Error>)
      requires log != []
      modifies this
      ensures var o := FromFinalCase(old(log), plan, req, concl);
              r == o.result && log == FinalLog(old(log), o) && history == old(history) + o.stages
    {
      hide FromQualification, Latest, NewFinalCase;
      // Boundary 2 refreshes the history: the conclusion must be accepted by now.
      var conclDigest := DigestOf(concl.body);
      var final: Record;
      var existingFinal := Latest(log, FinalCasesFor(plan.stop, conclDigest));
      if existingFinal.Some? {
        if !SameFinalCase(existingFinal.value.body.finalCase, plan, req) {
          return Failure(ReplayConflict);
        }
        final := existingFinal.value;
      } else {
        ghost var before, b := log, FinalCaseBody(NewFinalCase(log, plan, req, conclDigest));
        DrawnHere(log, plan, req, conclDigest, conclDigest);
        var _ := AcceptOne(FinalCaseBody(NewFinalCase(log, plan, req, conclDigest)));
        AcceptedOne(before, log, b);
        final := log[|log| - 1];
      }
      r := QualifyRelease(plan, req, concl, final);
    }

    /** The last boundary of conclude_campaign. */
    method QualifyRelease(plan: Plan, req: Request, concl: Record, final: Record) returns (r: Result<Report, Error>)
      requires log != []
      modifies this
      ensures var o := FromQualification(old(log), plan, req, concl, final);
              r == o.result && log == FinalLog(old(log), o) && history == old(history) + o.stages
    {
      hide Latest, NewQualification;
      // Boundary 3 refreshes again; the qualification binds both artifacts and the policy the STOP froze.
      var conclDigest, finalDigest := DigestOf(concl.body), DigestOf(final.body);
      var policy := TextDigest(Head(log).policy);
      if Head(log).policy == "" {
        return Failure(ReleasePolicyContextRequired);
      }
      if plan.policy != policy {
        return Failure(DriftDetected);
      }
      var qual: Record;
      var existingQual := Latest(log, QualificationsFor(plan.stop, conclDigest, finalDigest));
      if existingQual.Some? {
        var q := existingQual.value.body.qualification;
        if q.result != ResultFor(plan) || (plan.input.risks != {} && q.risks != plan.input.risks) {
          return Failure(ReplayConflict);
        }
        if q.releasePolicy != policy {
          return Failure(ReleasePolicyBindingMismatch);
        }
        if plan.input.risks == {} && q.sourceGeneration != plan.input.sourceGeneration {
          return Failure(ReplayConflict);
        }
        qual := existingQual.value;
      } else {
        ghost var before, b := log, QualificationBody(NewQualification(log, plan, req, conclDigest, finalDigest));
        DrawnHere(log, plan, req, conclDigest, finalDigest);
        var _ := AcceptOne(QualificationBody(NewQualification(log, plan, req, conclDigest, finalDigest)));
        AcceptedOne(before, log, b);
        qual := log[|log| - 1];
      }
      return Success(Report(plan.termination, plan.evaluation.assurance, ResultFor(plan),
                            conclDigest, finalDigest, DigestOf(qual.body),
                            concl.number, final.number, qual.number, Head(log).number));
    }
  }
}
