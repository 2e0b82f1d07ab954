/** The guarded state machine of deepen/state_model.py: one step, and the replay of a trace.

    Variable values, contexts and history cuts are opaque; guards, effects and
    forbidden-state conditions are arbitrary total functions. */
module StateModels {
  import opened Wrappers

  type Value(==, !new, 0)
  type Context(==, !new, 0)
  type Cut(==, !new, 0)
  type Vars = map<string, Value>
  type Action = (string, Option<Context>)

  datatype Config = Config(state: string, vars: Vars)

  datatype Guard = Guard(name: string, holds: (Vars, Option<Context>) -> bool)

  datatype Transition = Transition(
    id: string, source: string, target: string, event: string,
    guards: seq<Guard>, effect: Option<(Vars, Option<Context>) -> Vars>)

  datatype ForbiddenState = ForbiddenState(
    id: string, stateName: Option<string>, condition: Option<(string, Vars) -> bool>)
  {
    predicate Matches(c: Config) {
      || stateName == Some(c.state)
      || (condition.Some? && condition.value(c.state, c.vars))
    }
  }

  datatype Model = Model(
    id: string, revision: int, cut: Cut, variables: Vars, states: set<string>,
    initialStates: seq<string>, transitions: seq<Transition>, forbidden: seq<ForbiddenState>)

  datatype StepError =
    | StaleHistoryCut
    | UnknownInitialState
    | UnknownCurrentState
    | IllegalTransition
    | GuardEvaluationFailed
    | ForbiddenStateReached(id: string)

  /** The checks made when a model is built. */
  predicate WellFormed(m: Model) {
    && m.id != ""
    && m.revision >= 1
    && m.initialStates != []
    && (forall i | 0 <= i < |m.initialStates| ::
          && m.initialStates[i] in m.states
          && !IsForbidden(m, Config(m.initialStates[i], m.variables)))
    && (forall k | 0 <= k < |m.transitions| ::
          m.transitions[k].source in m.states && m.transitions[k].target in m.states)
  }

  predicate IsForbidden(m: Model, c: Config) {
    exists i | 0 <= i < |m.forbidden| :: m.forbidden[i].Matches(c)
  }

  /** i is the first forbidden state that c matches. */
  predicate FirstMatch(m: Model, c: Config, i: int) {
    && 0 <= i < |m.forbidden|
    && m.forbidden[i].Matches(c)
    && forall j | 0 <= j < i :: !m.forbidden[j].Matches(c)
  }

  predicate Enabled(t: Transition, c: Config, ctx: Option<Context>) {
    && t.source == c.state
    && forall i | 0 <= i < |t.guards| :: t.guards[i].holds(c.vars, ctx)
  }

  function Fire(t: Transition, c: Config, ctx: Option<Context>): Config {
    Config(t.target, if t.effect.Some? then t.effect.value(c.vars, ctx) else c.vars)
  }

  predicate Candidate(m: Model, k: int, c: Config, event: string) {
    0 <= k < |m.transitions| && m.transitions[k].source == c.state && m.transitions[k].event == event
  }

  /** Transition k may be taken from c on the event. */
  predicate Passes(m: Model, k: int, c: Config, event: string, ctx: Option<Context>) {
    Candidate(m, k, c, event) && Enabled(m.transitions[k], c, ctx)
  }

  /** Transition k is the one a step takes: the first that passes. */
  predicate Selected(m: Model, k: int, c: Config, event: string, ctx: Option<Context>) {
    Passes(m, k, c, event, ctx) && forall j | 0 <= j < k :: !Passes(m, j, c, event, ctx)
  }

  /** How arriving in d is reported: as d, or as the first forbidden state that it matches. */
  ghost predicate Arrives(m: Model, d: Config, r: Result<Config, StepError>) {
    if IsForbidden(m, d) then exists i :: FirstMatch(m, d, i) && r == Failure(ForbiddenStateReached(m.forbidden[i].id))
    else r == Success(d)
  }

  /** What a step answers, stated without a search. */
  ghost predicate StepAnswers(m: Model, c: Config, event: string, ctx: Option<Context>, cut: Option<Cut>,
                              r: Result<Config, StepError>)
  {
    if cut.Some? && cut.value != m.cut then
      r == Failure(StaleHistoryCut)
    else if c.state !in m.states then
      r == Failure(UnknownCurrentState)
    else if !exists k :: Candidate(m, k, c, event) then
      r == Failure(IllegalTransition)
    else if !exists k :: Passes(m, k, c, event, ctx) then
      r == Failure(GuardEvaluationFailed)
    else
      exists k :: Selected(m, k, c, event, ctx) && Arrives(m, Fire(m.transitions[k], c, ctx), r)
  }

  lemma ArrivesUnique(m: Model, d: Config, r: Result<Config, StepError>, r': Result<Config, StepError>)
    requires Arrives(m, d, r) && Arrives(m, d, r')
    ensures r == r'
  {
    hide IsForbidden;
  }

  lemma StepAnswersUnique(m: Model, c: Config, event: string, ctx: Option<Context>, cut: Option<Cut>,
                          r: Result<Config, StepError>, r': Result<Config, StepError>)
    requires StepAnswers(m, c, event, ctx, cut, r) && StepAnswers(m, c, event, ctx, cut, r')
    ensures r == r'
  {
    hide IsForbidden, Enabled, Fire, Arrives;
    forall k, k' | Selected(m, k, c, event, ctx) && Selected(m, k', c, event, ctx)
      ensures k == k'
    {
    }
    forall d: Config | Arrives(m, d, r) && Arrives(m, d, r')
      ensures r == r'
    {
      ArrivesUnique(m, d, r, r');
    }
  }

  method FirstForbidden(m: Model, c: Config) returns (i: Option<int>)
    ensures i.None? ==> !IsForbidden(m, c)
    ensures i.Some? ==> IsForbidden(m, c) && FirstMatch(m, c, i.value)
  {
    for j := 0 to |m.forbidden|
      invariant forall h | 0 <= h < j :: !m.forbidden[h].Matches(c)
    {
      if m.forbidden[j].Matches(c) {
        return Some(j);
      }
    }
    return None;
  }

  /** StateModel.step: the first transition, in declaration order, whose guards pass. */
  method Step(m: Model, state: string, event: string, currentVars: Option<Vars>,
              ctx: Option<Context>, cut: Option<Cut>) returns (r: Result<Config, StepError>)
    ensures StepAnswers(m, Config(state, if currentVars.Some? then currentVars.value else m.variables),
                        event, ctx, cut, r)
  {
    var c := Config(state, if currentVars.Some? then currentVars.value else m.variables);
    if cut.Some? && cut.value != m.cut {
      return Failure(StaleHistoryCut);
    }
    if state !in m.states {
      return Failure(UnknownCurrentState);
    }
    var anyCandidate := false;
    for k := 0 to |m.transitions|
      invariant anyCandidate <==> exists j | 0 <= j < k :: Candidate(m, j, c, event)
      invariant forall j | 0 <= j < k :: !Passes(m, j, c, event, ctx)
    {
      if Candidate(m, k, c, event) {
        anyCandidate := true;
        if Enabled(m.transitions[k], c, ctx) {
          assert Selected(m, k, c, event, ctx);
          var d := Fire(m.transitions[k], c, ctx);
          var hit := FirstForbidden(m, d);
          if hit.Some? {
            return Failure(ForbiddenStateReached(m.forbidden[hit.value].id));
          }
          return Success(d);
        }
      }
    }
    return Failure(if anyCandidate then GuardEvaluationFailed else IllegalTransition);
  }

  /** The first n configurations of a replay are cs, each step's success leading to the next. */
  ghost predicate Replays(m: Model, start: Config, trace: seq<Action>, cut: Option<Cut>, cs: seq<Config>)
  {
    && |cs| == |trace| + 1
    && cs[0] == start
    && forall i | 0 <= i < |trace| ::
         StepAnswers(m, cs[i], trace[i].0, trace[i].1, cut, Success(cs[i + 1]))
  }

  /** What a replay answers: every configuration, or the error of the first step that fails. */
  ghost predicate ReplayAnswers(m: Model, start: Config, trace: seq<Action>, cut: Option<Cut>,
                                r: Result<seq<Config>, StepError>)
  {
    if start.state !in m.initialStates && start.state !in m.states then
      r == Failure(UnknownInitialState)
    else if r.Success? then
      Replays(m, start, trace, cut, r.value)
    else
      exists n, cs :: FailsAt(m, start, trace, cut, n, cs, r.error)
  }

  /** The replay passes through cs and fails with e at step n. */
  ghost predicate FailsAt(m: Model, start: Config, trace: seq<Action>, cut: Option<Cut>,
                          n: nat, cs: seq<Config>, e: StepError)
  {
    && n < |trace|
    && Replays(m, start, trace[..n], cut, cs)
    && StepAnswers(m, cs[n], trace[n].0, trace[n].1, cut, Failure(e))
  }

  /** StateModel.replay. */
  method Replay(m: Model, initialState: string, trace: seq<Action>, initialVars: Option<Vars>, cut: Option<Cut>)
    returns (r: Result<seq<Config>, StepError>)
    ensures ReplayAnswers(m, Config(initialState, if initialVars.Some? then initialVars.value else m.variables),
                          trace, cut, r)
  {
    if initialState !in m.initialStates && initialState !in m.states {
      return Failure(UnknownInitialState);
    }
    var start := Config(initialState, if initialVars.Some? then initialVars.value else m.variables);
    var cs := [start];
    for i := 0 to |trace|
      invariant Replays(m, start, trace[..i], cut, cs)
    {
      var last := cs[i];
      var next := Step(m, last.state, trace[i].0, Some(last.vars), trace[i].1, cut);
      if next.Failure? {
        assert FailsAt(m, start, trace, cut, i, cs, next.error);
        return Failure(next.error);
      }
      assert trace[..i + 1] == trace[..i] + [trace[i]];
      cs := cs + [next.value];
    }
    assert trace[..|trace|] == trace;
    return Success(cs);
  }

  /** A replay that got through two different ways got through the same way. */
  lemma {:induction false} ReplaysUnique(m: Model, start: Config, trace: seq<Action>, cut: Option<Cut>,
                                         cs: seq<Config>, ds: seq<Config>, i: nat)
    requires Replays(m, start, trace, cut, cs) && Replays(m, start, trace, cut, ds)
    requires i <= |trace|
    ensures cs[i] == ds[i]
  {
    hide StepAnswers;
    if i > 0 {
      ReplaysUnique(m, start, trace, cut, cs, ds, i - 1);
      StepAnswersUnique(m, cs[i - 1], trace[i - 1].0, trace[i - 1].1, cut, Success(cs[i]), Success(ds[i]));
    }
  }
}
