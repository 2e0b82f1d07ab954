/** deepen/adapters.py: property and stateful testing with shrinking counterexamples. */
module Adapters {
  import opened Wrappers
  import opened StateModels
  import opened Subsequences

  /** allowedCommands is None for the capability ALL. */
  datatype Capability = Capability(maxOperations: int, allowedCommands: Option<set<string>>)

  datatype AdapterError = CapabilityLimitExceeded | CapabilityUnauthorizedCommand | PropertyTestNoCases | PropertyRaised

  predicate Allows(c: Capability, command: string) {
    c.allowedCommands.None? || command in c.allowedCommands.value
  }

  // ----- shrinking inputs -----

  /** What the generator of a property test yields. */
  datatype Input<T> = Number(n: int) | Items(xs: seq<T>) | Atom(t: T)

  /** What evaluating the property on a value comes to. */
  datatype Outcome = Holds | Fails | Raises

  /** c is the first value the integer shrinker tries after n, of 0, half and one less, on which the property does not
      hold; n itself when it holds on them all. */
  function NextInt(n: int, check: int -> Outcome): (c: int)
    ensures if n < 0 then c == n else 0 <= c <= n
    ensures c == n && n > 0 ==> check(0) == check(n / 2) == check(n - 1) == Holds
    ensures c != n ==> check(c) != Holds
  {
    if 0 < n && check(0) != Holds then 0
    else if 0 <= n / 2 < n && check(n / 2) != Holds then n / 2
    else if 0 <= n - 1 && check(n - 1) != Holds then n - 1
    else n
  }

  /** The integer shrinker; None where the property raises on what it tries. */
  function ShrinkInt(n: int, check: int -> Outcome): (r: Option<int>)
    requires check(n) == Fails
    ensures r.Some? ==> check(r.value) == Fails && if n < 0 then r.value == n else 0 <= r.value <= n
    ensures r.Some? && n >= 0 && r.value > 0 ==> check(0) == check(r.value / 2) == check(r.value - 1) == Holds
    ensures r.None? ==> exists k :: 0 <= k <= n && check(k) == Fails && check(NextInt(k, check)) == Raises
    decreases if n < 0 then 0 else n
  {
    var c := NextInt(n, check);
    if c == n then Some(n) else if check(c) == Raises then None else ShrinkInt(c, check)
  }

  /** Where failures are upward closed, the shrunk integer is the least on which the property does not hold. */
  lemma ShrunkIntIsLeast(n: int, check: int -> Outcome)
    requires n >= 0 && check(n) == Fails
    requires forall i, j :: 0 <= i <= j && check(i) != Holds ==> check(j) != Holds
    ensures ShrinkInt(n, check).Some? ==> forall k :: 0 <= k < ShrinkInt(n, check).value ==> check(k) == Holds
  {
    var r := ShrinkInt(n, check);
    if r.Some? {
      forall k | 0 <= k < r.value
        ensures check(k) == Holds
      {
        assert check(r.value - 1) == Holds;
      }
    }
  }

  function Drop<T>(xs: seq<T>, i: nat): (r: seq<T>)
    requires i < |xs|
    ensures |r| == |xs| - 1
    ensures forall j :: 0 <= j < |r| ==> r[j] == if j < i then xs[j] else xs[j + 1]
  {
    xs[..i] + xs[i + 1..]
  }

  lemma DropIsSubsequence<T>(ys: seq<T>, xs: seq<T>, i: nat)
    requires i < |xs| && Subsequence(ys, Drop(xs, i))
    ensures Subsequence(ys, xs)
  {
    var ks :| At(Drop(xs, i), ys, ks);
    var ls := seq(|ks|, j requires 0 <= j < |ks| => if ks[j] < i then ks[j] else ks[j] + 1);
    assert At(xs, ys, ls);
  }

  /** A failing list from which no single element can be dropped without the property holding again. */
  ghost predicate OneMinimal<T>(xs: seq<T>, check: seq<T> -> Outcome) {
    check(xs) == Fails && forall i :: 0 <= i < |xs| ==> check(Drop(xs, i)) == Holds
  }

  /** A failing list where the first element to drop that does not make the property hold makes it raise. */
  ghost predicate RaisesAt<T>(xs: seq<T>, i: nat, check: seq<T> -> Outcome) {
    && i < |xs| && check(xs) == Fails && check(Drop(xs, i)) == Raises
    && forall j :: 0 <= j < i ==> check(Drop(xs, j)) == Holds
  }

  /** The list shrinker: drop the first element that can go, and start over. */
  method ShrinkList<T>(xs: seq<T>, check: seq<T> -> Outcome) returns (r: Option<seq<T>>)
    requires check(xs) == Fails
    ensures r.Some? ==> OneMinimal(r.value, check) && Subsequence(r.value, xs)
    ensures r.None? ==> exists ys, i: nat :: Subsequence(ys, xs) && RaisesAt(ys, i, check)
    decreases |xs|
  {
    SubsequenceSelf(xs);
    for i := 0 to |xs|
      invariant forall j :: 0 <= j < i ==> check(Drop(xs, j)) == Holds
    {
      var smaller := Drop(xs, i);
      if check(smaller) == Raises {
        assert RaisesAt(xs, i, check);
        return None;
      }
      if check(smaller) == Fails {
        r := ShrinkList(smaller, check);
        if r.Some? {
          DropIsSubsequence(r.value, xs, i);
        } else {
          ghost var ys, k: nat :| Subsequence(ys, smaller) && RaisesAt(ys, k, check);
          DropIsSubsequence(ys, xs, i);
        }
        return r;
      }
    }
    return Some(xs);
  }

  /** What shrinking a failing input promises. */
  ghost predicate Shrunk<T>(from: Input<T>, to: Input<T>, check: Input<T> -> Outcome) {
    && check(to) == Fails
    && match from
       case Number(n) =>
         && to.Number? && (n < 0 ==> to == from) && (n >= 0 ==> 0 <= to.n <= n)
         && (n >= 0 && to.n > 0 ==> check(Number(0)) == check(Number(to.n / 2)) == check(Number(to.n - 1)) == Holds)
       case Items(xs) =>
         && to.Items? && Subsequence(to.xs, xs)
         && forall i :: 0 <= i < |to.xs| ==> check(Items(Drop(to.xs, i))) == Holds
       case Atom(_) => to == from
  }

  /** Shrinking comes to a failing input where what is tried next makes the property raise. */
  ghost predicate ShrinkRaises<T(!new)>(from: Input<T>, check: Input<T> -> Outcome) {
    match from
    case Number(n) =>
      var onNumbers := (i: int) => check(Number(i));
      exists k :: 0 <= k <= n && onNumbers(k) == Fails && onNumbers(NextInt(k, onNumbers)) == Raises
    case Items(xs) =>
      var onLists := (ys: seq<T>) => check(Items(ys));
      exists ys, i: nat :: Subsequence(ys, xs) && RaisesAt(ys, i, onLists)
    case Atom(_) => false
  }

  /** _shrink_input. */
  method ShrinkInput<T(!new)>(input: Input<T>, check: Input<T> -> Outcome) returns (r: Option<Input<T>>)
    requires check(input) == Fails
    ensures r.Some? ==> Shrunk(input, r.value, check)
    ensures r.None? ==> ShrinkRaises(input, check)
  {
    match input
    case Number(n) =>
      var onNumbers := (i: int) => check(Number(i));
      var k := ShrinkInt(n, onNumbers);
      return if k.None? then None else Some(Number(k.value));
    case Items(xs) =>
      var onLists := (ys: seq<T>) => check(Items(ys));
      var ys := ShrinkList(xs, onLists);
      if ys.None? {
        return None;
      }
      assert forall i :: 0 <= i < |ys.value| ==> onLists(Drop(ys.value, i)) == Holds;
      return Some(Items(ys.value));
    case Atom(_) =>
      return Some(input);
  }

  datatype PropertyTestResult<T> = PropertyTestResult(casesTested: nat, passed: bool, failingInput: Option<Input<T>>,
                                                      shrunkInput: Option<Input<T>>)

  /** The first drawn value on which the property does not hold makes it raise, or comes to raise when it is shrunk. */
  ghost predicate TestRaises<T(!new)>(count: nat, generated: nat -> Input<T>, check: Input<T> -> Outcome) {
    exists k: nat :: k < count && FirstNotHolding(k, generated, check)
      && (check(generated(k)) == Raises || ShrinkRaises(generated(k), check))
  }

  ghost predicate FirstNotHolding<T>(k: nat, generated: nat -> Input<T>, check: Input<T> -> Outcome) {
    check(generated(k)) != Holds && forall j: nat :: j < k ==> check(generated(j)) == Holds
  }

  /** run_property_test; generated(k) is the k-th value drawn. */
  method RunPropertyTest<T(!new)>(capability: Capability, count: int, generated: nat -> Input<T>,
                                  check: Input<T> -> Outcome)
    returns (r: Result<PropertyTestResult<T>, AdapterError>)
    ensures count > capability.maxOperations ==> r == Failure(CapabilityLimitExceeded)
    ensures count <= capability.maxOperations && count <= 0 ==> r == Failure(PropertyTestNoCases)
    ensures 0 < count <= capability.maxOperations && r.Failure? ==>
        r.error == PropertyRaised && TestRaises(count, generated, check)
    ensures r.Success? ==>
              && (r.value.passed <==> forall k: nat :: k < count ==> check(generated(k)) == Holds)
              && 1 <= r.value.casesTested <= count
              && (r.value.passed ==> r.value == PropertyTestResult(count, true, None, None))
              && (!r.value.passed ==>
                    && FirstNotHolding(r.value.casesTested - 1, generated, check)
                    && r.value.failingInput == Some(generated(r.value.casesTested - 1))
                    && check(r.value.failingInput.value) == Fails
                    && r.value.shrunkInput.Some?
                    && Shrunk(r.value.failingInput.value, r.value.shrunkInput.value, check))
  {
    hide Shrunk, ShrinkRaises;
    if count > capability.maxOperations {
      return Failure(CapabilityLimitExceeded);
    }
    if count <= 0 {
      return Failure(PropertyTestNoCases);
    }
    for k := 0 to count
      invariant forall j: nat :: j < k ==> check(generated(j)) == Holds
    {
      var input := generated(k);
      if check(input) == Raises {
        assert FirstNotHolding(k, generated, check);
        return Failure(PropertyRaised);
      }
      if check(input) == Fails {
        assert FirstNotHolding(k, generated, check);
        var shrunk := ShrinkInput(input, check);
        if shrunk.None? {
          return Failure(PropertyRaised);
        }
        return Success(PropertyTestResult(k + 1, false, Some(input), shrunk));
      }
    }
    return Success(PropertyTestResult(count, true, None, None));
  }

  // ----- stateful testing -----

  /** A system under test: the new state and the reported state of each step, a step that raises reporting None, and
      what reset does. A system without reset has the identity; draws that a reset does not repeat are part of the
      state. */
  datatype Behaviour<!S> = Behaviour(step: (S, Action) -> (S, Option<string>), reset: S -> S)

  class SystemUnderTest<S> {
    const behaviour: Behaviour<S>
    var state: S

    constructor (behaviour: Behaviour<S>, state: S)
      ensures this.behaviour == behaviour && this.state == state
    {
      this.behaviour, this.state := behaviour, state;
    }

    method Reset()
      modifies this
      ensures state == behaviour.reset(old(state))
    {
      state := behaviour.reset(state);
    }

    method Step(a: Action) returns (reported: Option<string>)
      modifies this
      ensures (state, reported) == behaviour.step(old(state), a)
    {
      var (s, name) := behaviour.step(state, a);
      state := s;
      return name;
    }
  }

  /** The calls a tester makes on the system. */
  datatype Call = StepCall(a: Action) | ResetCall

  function Called<S>(b: Behaviour<S>, s: S, call: Call): S {
    match call
    case StepCall(a) => b.step(s, a).0
    case ResetCall => b.reset(s)
  }

  function CalledAll<S>(b: Behaviour<S>, s: S, calls: seq<Call>): S {
    if calls == [] then s else Called(b, CalledAll(b, s, calls[..|calls| - 1]), calls[|calls| - 1])
  }

  /** The system comes from s to s' by some calls. */
  ghost predicate Reaches<S>(b: Behaviour<S>, s: S, s': S) {
    exists calls :: CalledAll(b, s, calls) == s'
  }

  lemma ReachesItself<S>(b: Behaviour<S>, s: S)
    ensures Reaches(b, s, s)
  {
    assert CalledAll(b, s, []) == s;
  }

  lemma ReachesNext<S>(b: Behaviour<S>, s: S, s': S, call: Call)
    requires Reaches(b, s, s')
    ensures Reaches(b, s, Called(b, s', call))
  {
    var calls :| CalledAll(b, s, calls) == s';
    assert (calls + [call])[..|calls|] == calls;
    assert CalledAll(b, s, calls + [call]) == Called(b, s', call);
  }

  lemma {:induction false} ReachesFurther<S>(b: Behaviour<S>, s: S, s': S, calls: seq<Call>)
    requires Reaches(b, s, s')
    ensures Reaches(b, s, CalledAll(b, s', calls))
    decreases |calls|
  {
    if calls != [] {
      var n := |calls| - 1;
      ReachesFurther(b, s, s', calls[..n]);
      ReachesNext(b, s, CalledAll(b, s', calls[..n]), calls[n]);
    }
  }

  lemma ReachesTransitive<S>(b: Behaviour<S>, s: S, s': S, s'': S)
    requires Reaches(b, s, s') && Reaches(b, s', s'')
    ensures Reaches(b, s, s'')
  {
    var calls :| CalledAll(b, s', calls) == s'';
    ReachesFurther(b, s, s', calls);
  }

  /** The state that the model steps to, its variables at their initial values; None where it raises. */
  ghost predicate ModelStep(m: Model, state: string, a: Action, next: Option<string>) {
    exists r :: StepAnswers(m, Config(state, m.variables), a.0, a.1, None, r)
      && next == if r.Success? then Some(r.value.state) else None
  }

  lemma ModelStepUnique(m: Model, state: string, a: Action, n: Option<string>, n': Option<string>)
    requires ModelStep(m, state, a, n) && ModelStep(m, state, a, n')
    ensures n == n'
  {
    hide StepAnswers;
    var c := Config(state, m.variables);
    var r :| StepAnswers(m, c, a.0, a.1, None, r) && n == if r.Success? then Some(r.value.state) else None;
    var r' :| StepAnswers(m, c, a.0, a.1, None, r') && n' == if r'.Success? then Some(r'.value.state) else None;
    StepAnswersUnique(m, c, a.0, a.1, None, r, r');
  }

  method StepModel(m: Model, state: string, a: Action) returns (next: Option<string>)
    ensures ModelStep(m, state, a, next)
  {
    hide StepAnswers;
    var r := Step(m, state, a.0, None, a.1, None);
    return if r.Success? then Some(r.value.state) else None;
  }

  /** From these states the trace makes one side raise, or the two report different states. */
  ghost predicate Diverges<S>(m: Model, b: Behaviour<S>, state: string, s: S, trace: seq<Action>)
    decreases |trace|
  {
    trace != [] &&
    (ModelStep(m, state, trace[0], None) ||
     exists next :: ModelStep(m, state, trace[0], Some(next)) &&
       (b.step(s, trace[0]).1 != Some(next) || Diverges(m, b, next, b.step(s, trace[0]).0, trace[1..])))
  }

  /** The failure shows when the trace is run after a reset in s. */
  ghost predicate Reproduces<S>(m: Model, b: Behaviour<S>, initial: string, s: S, trace: seq<Action>) {
    Diverges(m, b, initial, b.reset(s), trace)
  }

  /** How the first action settles divergence, given what the model does on it. */
  lemma DivergesByFirst<S>(m: Model, b: Behaviour<S>, state: string, s: S, trace: seq<Action>, next: Option<string>)
    requires trace != [] && ModelStep(m, state, trace[0], next)
    ensures next.None? ==> Diverges(m, b, state, s, trace)
    ensures next.Some? ==>
              (Diverges(m, b, state, s, trace) <==>
                 || b.step(s, trace[0]).1 != next
                 || Diverges(m, b, next.value, b.step(s, trace[0]).0, trace[1..]))
  {
    hide ModelStep;
    if next.Some? {
      forall n' | ModelStep(m, state, trace[0], n')
        ensures n' == next
      {
        ModelStepUnique(m, state, trace[0], next, n');
      }
    }
  }

  /** _reproduces_failure. */
  method ReproducesFailure<S>(m: Model, initial: string, trace: seq<Action>, sut: SystemUnderTest<S>) returns (r: bool)
    modifies sut
    ensures r <==> Reproduces(m, sut.behaviour, initial, old(sut.state), trace)
    ensures Reaches(sut.behaviour, old(sut.state), sut.state)
  {
    hide ModelStep, Diverges, Reaches;
    var b := sut.behaviour;
    ghost var s0 := sut.state;
    ReachesItself(b, s0);
    ReachesNext(b, s0, s0, ResetCall);
    sut.Reset();
    var st := initial;
    for i := 0 to |trace|
      invariant Diverges(m, b, initial, b.reset(s0), trace) <==> Diverges(m, b, st, sut.state, trace[i..])
      invariant Reaches(b, s0, sut.state)
    {
      var next := StepModel(m, st, trace[i]);
      DivergesByFirst(m, b, st, sut.state, trace[i..], next);
      assert trace[i..][0] == trace[i] && trace[i..][1..] == trace[i + 1..];
      if next.None? {
        return true;
      }
      ReachesNext(b, s0, sut.state, StepCall(trace[i]));
      var reported := sut.Step(trace[i]);
      if reported.None? || reported.value != next.value {
        return true;
      }
      st := next.value;
    }
    assert trace[|trace|..] == [];
    NothingDiverges(m, b, st, sut.state);
    return false;
  }

  lemma NothingDiverges<S>(m: Model, b: Behaviour<S>, state: string, s: S)
    ensures !Diverges(m, b, state, s, [])
  {
  }

  /** The trace has been run after a reset in some state that the system was in since s, and showed the failure, or
      not. */
  ghost predicate Tried<S(!new)>(m: Model, b: Behaviour<S>, initial: string, s: S, trace: seq<Action>, shows: bool) {
    exists s' :: Reaches(b, s, s') && (Reproduces(m, b, initial, s', trace) <==> shows)
  }

  /** Each trace with one earlier action dropped has been tried without the failure showing. The last action stays. */
  ghost predicate TraceMinimal<S(!new)>(m: Model, b: Behaviour<S>, initial: string, s: S, trace: seq<Action>) {
    forall i :: 0 <= i < |trace| - 1 ==> Tried(m, b, initial, s, Drop(trace, i), false)
  }

  /** The trace is a shrinking of the prefix: part of it in order, ending in the same action, minimal, and, where it is
      shorter, one that has shown the failure. */
  ghost predicate ShrunkTrace<S(!new)>(m: Model, b: Behaviour<S>, initial: string, s: S, prefix: seq<Action>,
                                       trace: seq<Action>)
  {
    && Subsequence(trace, prefix)
    && (prefix != [] ==> trace != [] && trace[|trace| - 1] == prefix[|prefix| - 1])
    && (trace == prefix || Tried(m, b, initial, s, trace, true))
    && TraceMinimal(m, b, initial, s, trace)
  }

  lemma TriedEarlier<S(!new)>(m: Model, b: Behaviour<S>, initial: string, s: S, s': S, trace: seq<Action>, shows: bool)
    requires Reaches(b, s, s') && Tried(m, b, initial, s', trace, shows)
    ensures Tried(m, b, initial, s, trace, shows)
  {
    hide Reaches, Reproduces;
    var t :| Reaches(b, s', t) && (Reproduces(m, b, initial, t, trace) <==> shows);
    ReachesTransitive(b, s, s', t);
  }

  lemma ShrunkEarlier<S(!new)>(m: Model, b: Behaviour<S>, initial: string, s: S, s': S, prefix: seq<Action>, i: nat,
                               trace: seq<Action>)
    requires i < |prefix| - 1 && Reaches(b, s, s') && ShrunkTrace(m, b, initial, s', Drop(prefix, i), trace)
    requires Tried(m, b, initial, s, Drop(prefix, i), true)
    ensures ShrunkTrace(m, b, initial, s, prefix, trace)
  {
    hide Reaches, Subsequence, Tried;
    DropIsSubsequence(trace, prefix, i);
    if Tried(m, b, initial, s', trace, true) {
      TriedEarlier(m, b, initial, s, s', trace, true);
    }
    forall k | 0 <= k < |trace| - 1
      ensures Tried(m, b, initial, s, Drop(trace, k), false)
    {
      TriedEarlier(m, b, initial, s, s', Drop(trace, k), false);
    }
  }

  /** _shrink_trace. */
  method ShrinkTrace<S(!new)>(m: Model, initial: string, failingPrefix: seq<Action>, sut: SystemUnderTest<S>)
    returns (r: seq<Action>)
    modifies sut
    ensures ShrunkTrace(m, sut.behaviour, initial, old(sut.state), failingPrefix, r)
    decreases |failingPrefix|
  {
    hide Reaches, Reproduces, Subsequence, ShrunkTrace, Tried;
    var b := sut.behaviour;
    ghost var s0 := sut.state;
    if |failingPrefix| <= 1 {
      Unshrunk(m, b, initial, s0, failingPrefix);
      return failingPrefix;
    }
    ReachesItself(b, s0);
    for i := 0 to |failingPrefix| - 1
      invariant Reaches(b, s0, sut.state)
      invariant forall j :: 0 <= j < i ==> Tried(m, b, initial, s0, Drop(failingPrefix, j), false)
    {
      var candidate := Drop(failingPrefix, i);
      ghost var s := sut.state;
      var reproduces := ReproducesFailure(m, initial, candidate, sut);
      NowTried(m, b, initial, s0, s, candidate, reproduces);
      ReachesTransitive(b, s0, s, sut.state);
      if reproduces {
        s := sut.state;
        r := ShrinkTrace(m, initial, candidate, sut);
        ShrunkEarlier(m, b, initial, s0, s, failingPrefix, i, r);
        return r;
      }
    }
    Unshrunk(m, b, initial, s0, failingPrefix);
    return failingPrefix;
  }

  lemma NowTried<S(!new)>(m: Model, b: Behaviour<S>, initial: string, s: S, s': S, trace: seq<Action>, shows: bool)
    requires Reaches(b, s, s') && (Reproduces(m, b, initial, s', trace) <==> shows)
    ensures Tried(m, b, initial, s, trace, shows)
  {
  }

  lemma Unshrunk<S(!new)>(m: Model, b: Behaviour<S>, initial: string, s: S, prefix: seq<Action>)
    requires TraceMinimal(m, b, initial, s, prefix)
    ensures ShrunkTrace(m, b, initial, s, prefix, prefix)
  {
    hide Subsequence, Tried;
    SubsequenceSelf(prefix);
  }

  datatype StatefulTestResult = StatefulTestResult(finalState: string, stepsExecuted: nat, passed: bool,
                                                   failingStep: Option<nat>, failingAction: Option<Action>,
                                                   shrunkTrace: seq<Action>)

  /** What a stateful test from these states promises. */
  ghost predicate Tested<S(!new)>(m: Model, b: Behaviour<S>, initial: string, s: S, sequence: seq<Action>,
                                  r: StatefulTestResult)
  {
    && (r.passed <==> !Diverges(m, b, initial, s, sequence))
    && (r.passed ==>
          && r.failingStep.None? && r.failingAction.None? && r.shrunkTrace == [] && r.stepsExecuted == |sequence|)
    && (!r.passed ==>
          && r.failingStep.Some? && r.failingStep.value < |sequence|
          && r.failingStep.value <= r.stepsExecuted <= r.failingStep.value + 1
          && r.failingAction == Some(sequence[r.failingStep.value])
          && FirstDivergence(m, b, initial, s, sequence, r.failingStep.value)
          && exists s' :: Reaches(b, s, s')
              && ShrunkTrace(m, b, initial, s', sequence[..r.failingStep.value + 1], r.shrunkTrace))
  }

  /** The k-th action is the first on which the two sides part. */
  ghost predicate FirstDivergence<S>(m: Model, b: Behaviour<S>, state: string, s: S, sequence: seq<Action>, k: nat)
    requires k < |sequence|
  {
    Diverges(m, b, state, s, sequence[..k + 1]) && !Diverges(m, b, state, s, sequence[..k])
  }

  /** The model steps from state along the trace to last. */
  ghost predicate ModelPath(m: Model, state: string, trace: seq<Action>, last: string)
    decreases |trace|
  {
    if trace == [] then last == state
    else
      var n := |trace| - 1;
      exists p :: ModelPath(m, state, trace[..n], p) && ModelStep(m, p, trace[n], Some(last))
  }

  /** The number of actions looked at. */
  function LookedAt(sequence: seq<Action>, r: StatefulTestResult): nat {
    if r.failingStep.Some? then r.failingStep.value + 1 else |sequence|
  }

  /** Only permitted actions are looked at, and the final state is the model's after those on which the two agreed. */
  ghost predicate WithinCapability(capability: Capability, m: Model, initial: string, sequence: seq<Action>,
                                   r: StatefulTestResult)
  {
    var n := LookedAt(sequence, r);
    && n <= |sequence|
    && (forall j :: 0 <= j < n ==> Allows(capability, sequence[j].0))
    && ModelPath(m, initial, sequence[..if r.failingStep.Some? then n - 1 else n], r.finalState)
  }

  lemma OneMoreModelStep(m: Model, state: string, sequence: seq<Action>, k: nat, p: string, next: string)
    requires k < |sequence| && ModelPath(m, state, sequence[..k], p) && ModelStep(m, p, sequence[k], Some(next))
    ensures ModelPath(m, state, sequence[..k + 1], next)
  {
    hide ModelStep;
    assert sequence[..k + 1][..k] == sequence[..k];
  }

  /** Two sides that agree on the first k actions diverge on a longer run exactly as they do from where these lead. */
  ghost predicate AgreeUpTo<S>(m: Model, b: Behaviour<S>, initial: string, s0: S, sequence: seq<Action>, k: nat,
                               st: string, s: S)
    requires k <= |sequence|
  {
    forall n :: k <= n <= |sequence| ==>
      (Diverges(m, b, initial, s0, sequence[..n]) <==> Diverges(m, b, st, s, sequence[k..n]))
  }

  lemma AgreeOnce<S>(m: Model, b: Behaviour<S>, initial: string, s0: S, sequence: seq<Action>, k: nat,
                     st: string, s: S, st': string, s': S)
    requires k < |sequence| && AgreeUpTo(m, b, initial, s0, sequence, k, st, s)
    requires ModelStep(m, st, sequence[k], Some(st')) && b.step(s, sequence[k]) == (s', Some(st'))
    ensures AgreeUpTo(m, b, initial, s0, sequence, k + 1, st', s')
  {
    hide ModelStep, Diverges;
    forall n | k + 1 <= n <= |sequence|
      ensures Diverges(m, b, initial, s0, sequence[..n]) <==> Diverges(m, b, st', s', sequence[k + 1..n])
    {
      assert sequence[k..n][0] == sequence[k] && sequence[k..n][1..] == sequence[k + 1..n];
      DivergesByFirst(m, b, st, s, sequence[k..n], Some(st'));
    }
  }

  lemma Agreed<S>(m: Model, b: Behaviour<S>, initial: string, s0: S, sequence: seq<Action>)
    ensures AgreeUpTo(m, b, initial, s0, sequence, 0, initial, s0) && ModelPath(m, initial, sequence[..0], initial)
  {
    hide Diverges;
    assert forall n :: 0 <= n <= |sequence| ==> sequence[..n] == sequence[0..n];
  }

  lemma StillAgree<S>(m: Model, b: Behaviour<S>, initial: string, s0: S, sequence: seq<Action>, k: nat, st: string,
                      s: S)
    requires k <= |sequence| && AgreeUpTo(m, b, initial, s0, sequence, k, st, s)
    ensures !Diverges(m, b, initial, s0, sequence[..k])
  {
    hide Diverges;
    assert sequence[k..k] == [];
    NothingDiverges(m, b, st, s);
  }

  lemma PartsHere<S>(m: Model, b: Behaviour<S>, initial: string, s0: S, sequence: seq<Action>, k: nat,
                     st: string, s: S, next: Option<string>)
    requires k < |sequence| && AgreeUpTo(m, b, initial, s0, sequence, k, st, s)
    requires ModelStep(m, st, sequence[k], next)
    requires next.Some? ==> b.step(s, sequence[k]).1 != next
    ensures FirstDivergence(m, b, initial, s0, sequence, k) && Diverges(m, b, initial, s0, sequence)
  {
    hide ModelStep, Diverges;
    assert sequence[..|sequence|] == sequence;
    assert sequence[k..k + 1][0] == sequence[k] && sequence[k..][0] == sequence[k];
    DivergesByFirst(m, b, st, s, sequence[k..k + 1], next);
    DivergesByFirst(m, b, st, s, sequence[k..], next);
    assert sequence[k..k] == [];
    NothingDiverges(m, b, st, s);
  }

  /** execute_stateful_test. */
  method ExecuteStatefulTest<S(!new)>(capability: Capability, m: Model, initial: string, sequence: seq<Action>,
                                      sut: SystemUnderTest<S>)
    returns (r: Result<StatefulTestResult, AdapterError>)
    modifies sut
    ensures |sequence| > capability.maxOperations ==> r == Failure(CapabilityLimitExceeded)
    ensures r.Failure? && |sequence| <= capability.maxOperations ==>
              && r.error.CapabilityUnauthorizedCommand?
              && exists k :: 0 <= k < |sequence| && !Allows(capability, sequence[k].0)
                   && !Diverges(m, sut.behaviour, initial, old(sut.state), sequence[..k])
    ensures r.Success? ==> Tested(m, sut.behaviour, initial, old(sut.state), sequence, r.value)
    ensures r.Success? ==> WithinCapability(capability, m, initial, sequence, r.value)
  {
    hide ModelStep, Diverges, ShrunkTrace, AgreeUpTo, ModelPath, Reaches;
    if |sequence| > capability.maxOperations {
      return Failure(CapabilityLimitExceeded);
    }
    var currentState := initial;
    var b := sut.behaviour;
    ghost var s0 := sut.state;
    Agreed(m, b, initial, s0, sequence);
    ReachesItself(b, s0);
    for idx := 0 to |sequence|
      invariant Reaches(b, s0, sut.state)
      invariant AgreeUpTo(m, b, initial, s0, sequence, idx, currentState, sut.state)
      invariant ModelPath(m, initial, sequence[..idx], currentState)
      invariant forall j :: 0 <= j < idx ==> Allows(capability, sequence[j].0)
    {
      var a := sequence[idx];
      if !Allows(capability, a.0) {
        StillAgree(m, b, initial, s0, sequence, idx, currentState, sut.state);
        return Failure(CapabilityUnauthorizedCommand);
      }
      ghost var s := sut.state;
      ReachesNext(b, s0, s, StepCall(a));
      var next := StepModel(m, currentState, a);
      var parts, steps := true, idx;
      if next.Some? {
        var reported := sut.Step(a);
        if reported.Some? {
          steps := idx + 1;
          parts := reported.value != next.value;
        }
      }
      if parts {
        PartsHere(m, b, initial, s0, sequence, idx, currentState, s, next);
        var shrunk := ShrinkTrace(m, initial, sequence[..idx + 1], sut);
        return Success(StatefulTestResult(currentState, steps, false, Some(idx), Some(a), shrunk));
      }
      AgreeOnce(m, b, initial, s0, sequence, idx, currentState, s, next.value, sut.state);
      OneMoreModelStep(m, initial, sequence, idx, currentState, next.value);
      currentState := next.value;
    }
    assert sequence[..|sequence|] == sequence;
    StillAgree(m, b, initial, s0, sequence, |sequence|, currentState, sut.state);
    return Success(StatefulTestResult(currentState, |sequence|, true, None, None, []));
  }

  /** reset always brings the system to the one state. */
  ghost predicate ResetsTo<S(!new)>(b: Behaviour<S>, start: S) {
    forall s :: b.reset(s) == start
  }

  /** A failed test of a system that reset brings back to where the test started hands back a trace that shows the
      failure again, whatever the system was used for in between, ends in the failing action, and shows nothing once any
      single earlier action is dropped. */
  lemma FailedTestReproduces<S(!new)>(m: Model, b: Behaviour<S>, initial: string, start: S, sequence: seq<Action>,
                                      r: StatefulTestResult, s: S)
    requires ResetsTo(b, start) && Tested(m, b, initial, start, sequence, r) && !r.passed
    ensures Reproduces(m, b, initial, s, r.shrunkTrace)
    ensures forall i :: 0 <= i < |r.shrunkTrace| - 1 ==> !Reproduces(m, b, initial, s, Drop(r.shrunkTrace, i))
    ensures r.shrunkTrace != [] && Some(r.shrunkTrace[|r.shrunkTrace| - 1]) == r.failingAction
  {
    hide Diverges, Reaches;
    var prefix := sequence[..r.failingStep.value + 1];
    assert Reproduces(m, b, initial, s, prefix);
  }
}
