/** deepen/temporal.py: ordering constraints over event traces. */
module Temporal {
  import opened Wrappers
  import opened Subsequences

  datatype Constraint =
    | Before(a: string, b: string)
    | After(a: string, b: string)
    | MustEventuallyFollow(a: string, b: string)
    | MustNeverFollow(a: string, b: string)
    | StrictOrder(sequence: seq<string>)
    | BoundedFollow(a: string, b: string, maxSteps: int)

  type Cut(==, !new, 0)

  datatype ConstraintError = InvalidSequence | MissingEvents | InvalidBound | StaleHistoryCut

  /** The checks made when a constraint is built. */
  function Checked(c: Constraint): Option<ConstraintError> {
    match c
    case StrictOrder(s) => if |s| < 2 then Some(InvalidSequence) else None
    case BoundedFollow(a, b, k) =>
      if a == "" || b == "" then Some(MissingEvents) else if k < 1 then Some(InvalidBound) else None
    case _ => if c.a == "" || c.b == "" then Some(MissingEvents) else None
  }

  /** What a violation reports: the offending step, for a forbidden follow-up the two steps, and for a strict
      order the number of elements matched. */
  datatype Violation =
    | AtStep(step: nat)
    | Follows(trigger: nat, violation: nat)
    | Matched(count: nat)

  // ----- what each relation means -----

  ghost predicate OccursBefore(events: seq<string>, x: string, n: int) {
    exists i :: 0 <= i < n <= |events| && events[i] == x
  }

  ghost predicate OccursIn(events: seq<string>, x: string, from: int, end: int) {
    exists i :: 0 <= from <= i < end && i < |events| && events[i] == x
  }

  /** x stands at n with no y before it. */
  ghost predicate Unprepared(events: seq<string>, x: string, y: string, n: int) {
    0 <= n < |events| && events[n] == x && !OccursBefore(events, y, n)
  }

  /** x stands at n and y does not within the given number of later steps. */
  ghost predicate Unanswered(events: seq<string>, x: string, y: string, n: int, within: nat) {
    0 <= n < |events| && events[n] == x && !OccursIn(events, y, n + 1, n + 1 + within)
  }

  /** x stands at i and y later at j. */
  ghost predicate FollowedBy(events: seq<string>, x: string, y: string, i: int, j: int) {
    0 <= i < j < |events| && events[i] == x && events[j] == y
  }

  /** The definition that evaluate decides. A prerequisite relation between an event and itself always holds. */
  ghost predicate Satisfied(c: Constraint, events: seq<string>) {
    match c
    case Before(a, b) => a == b || forall n :: !Unprepared(events, b, a, n)
    case After(a, b) => a == b || forall n :: !Unprepared(events, a, b, n)
    case MustEventuallyFollow(a, b) => forall n :: !Unanswered(events, a, b, n, |events|)
    case MustNeverFollow(a, b) => forall i, j :: !FollowedBy(events, a, b, i, j)
    case StrictOrder(s) => Subsequence(s, events)
    case BoundedFollow(a, b, k) => k >= 0 ==> forall n :: !Unanswered(events, a, b, n, k)
  }

  // ----- evaluation -----

  /** BEFORE, and AFTER with the events exchanged: the first b without an earlier a. */
  method EvaluatePrerequisite(events: seq<string>, a: string, b: string) returns (v: Option<Violation>)
    ensures v.None? <==> a == b || forall n :: !Unprepared(events, b, a, n)
    ensures v.Some? ==> v.value.AtStep? && Unprepared(events, b, a, v.value.step)
    ensures v.Some? ==> forall n :: n < v.value.step ==> !Unprepared(events, b, a, n)
  {
    var seenA := false;
    for idx := 0 to |events|
      invariant seenA <==> OccursBefore(events, a, idx)
      invariant a != b ==> forall n :: n < idx ==> !Unprepared(events, b, a, n)
    {
      if events[idx] == a {
        seenA := true;
      } else if events[idx] == b {
        if !seenA {
          assert Unprepared(events, b, a, idx);
          return Some(AtStep(idx));
        }
      }
    }
    return None;
  }

  method OccursWithin(events: seq<string>, x: string, from: nat, end: nat) returns (r: bool)
    ensures r <==> OccursIn(events, x, from, end)
  {
    var i := from;
    while i < end && i < |events|
      invariant from <= i
      invariant forall j :: from <= j < i && j < |events| ==> events[j] != x
      decreases end - i
    {
      if events[i] == x {
        return true;
      }
      i := i + 1;
    }
    return false;
  }

  /** MUST_EVENTUALLY_FOLLOW and BOUNDED_FOLLOW: the first a that b does not follow in time. */
  method EvaluateFollow(events: seq<string>, a: string, b: string, within: nat) returns (v: Option<Violation>)
    ensures v.None? <==> forall n :: !Unanswered(events, a, b, n, within)
    ensures v.Some? ==> v.value.AtStep? && Unanswered(events, a, b, v.value.step, within)
    ensures v.Some? ==> forall n :: n < v.value.step ==> !Unanswered(events, a, b, n, within)
  {
    for idx := 0 to |events|
      invariant forall n :: n < idx ==> !Unanswered(events, a, b, n, within)
    {
      if events[idx] == a {
        var answered := OccursWithin(events, b, idx + 1, idx + 1 + within);
        if !answered {
          assert Unanswered(events, a, b, idx, within);
          return Some(AtStep(idx));
        }
      }
    }
    return None;
  }

  method EvaluateNever(events: seq<string>, a: string, b: string) returns (v: Option<Violation>)
    ensures v.None? <==> forall i, j :: !FollowedBy(events, a, b, i, j)
    ensures v.Some? ==> v.value.Follows? && FollowedBy(events, a, b, v.value.trigger, v.value.violation)
    ensures v.Some? ==> forall i, j :: i < v.value.trigger ==> !FollowedBy(events, a, b, i, j)
  {
    for idx := 0 to |events|
      invariant forall i, j :: i < idx ==> !FollowedBy(events, a, b, i, j)
    {
      if events[idx] == a {
        for later := idx + 1 to |events|
          invariant forall j :: j < later ==> !FollowedBy(events, a, b, idx, j)
        {
          if events[later] == b {
            assert FollowedBy(events, a, b, idx, later);
            return Some(Follows(idx, later));
          }
        }
      }
    }
    return None;
  }

  /** STRICT_ORDER: the greedy scan, which matches as long a prefix as can be embedded. */
  method EvaluateOrder(events: seq<string>, s: seq<string>) returns (v: Option<Violation>)
    requires s != []
    ensures v.None? <==> Subsequence(s, events)
    ensures v.Some? ==>
              && v.value.Matched? && v.value.count < |s|
              && Subsequence(s[..v.value.count], events) && !Subsequence(s[..v.value.count + 1], events)
  {
    var matched: seq<nat> := [];
    var seqIdx := 0;
    for idx := 0 to |events|
      invariant seqIdx == |matched| < |s|
      invariant At(events, s[..seqIdx], matched) && (matched != [] ==> matched[|matched| - 1] < idx)
      invariant Greedy(s, events, matched, idx)
    {
      if events[idx] == s[seqIdx] {
        GreedyTakes(s, events, matched, idx);
        matched := matched + [idx];
        seqIdx := seqIdx + 1;
        if seqIdx == |s| {
          assert s[..seqIdx] == s;
          return None;
        }
      } else {
        GreedyWaits(s, events, matched, idx);
      }
    }
    NoLongerPrefix(s, events, matched);
    return Some(Matched(seqIdx));
  }

  /** No embedding of a prefix of s gets ahead of the scan: its i-th element stands no earlier than the i-th match,
      and an element past the matches only from idx on. */
  ghost predicate Greedy(s: seq<string>, events: seq<string>, matched: seq<nat>, idx: nat) {
    forall n, ks :: 0 <= n <= |s| && At(events, s[..n], ks) ==> NotAhead(matched, idx, n, ks)
  }

  ghost predicate NotAhead(matched: seq<nat>, idx: nat, n: nat, ks: seq<nat>)
    requires |ks| == n
  {
    && (forall i :: 0 <= i < n && i < |matched| ==> matched[i] <= ks[i])
    && (n > |matched| ==> ks[|matched|] >= idx)
  }

  lemma GreedyTakes(s: seq<string>, events: seq<string>, matched: seq<nat>, idx: nat)
    requires Greedy(s, events, matched, idx) && |matched| < |s| && idx < |events|
    requires At(events, s[..|matched|], matched) && (matched != [] ==> matched[|matched| - 1] < idx)
    requires events[idx] == s[|matched|]
    ensures At(events, s[..|matched| + 1], matched + [idx])
    ensures Greedy(s, events, matched + [idx], idx + 1)
  {
    var matched', m := matched + [idx], |matched|;
    assert s[..m + 1][..m] == s[..m] && s[..m + 1][m] == s[m];
    forall n, ks | 0 <= n <= |s| && At(events, s[..n], ks)
      ensures NotAhead(matched', idx + 1, n, ks)
    {
      assert NotAhead(matched, idx, n, ks);
      if n > m + 1 {
        assert ks[m] < ks[m + 1];
      }
    }
  }

  lemma GreedyWaits(s: seq<string>, events: seq<string>, matched: seq<nat>, idx: nat)
    requires Greedy(s, events, matched, idx) && |matched| < |s| && idx < |events|
    requires events[idx] != s[|matched|]
    ensures Greedy(s, events, matched, idx + 1)
  {
    forall n, ks | 0 <= n <= |s| && At(events, s[..n], ks)
      ensures NotAhead(matched, idx + 1, n, ks)
    {
      assert NotAhead(matched, idx, n, ks);
      if n > |matched| {
        assert s[..n][|matched|] == s[|matched|];
        assert events[ks[|matched|]] == s[|matched|];
      }
    }
  }

  lemma NoLongerPrefix(s: seq<string>, events: seq<string>, matched: seq<nat>)
    requires Greedy(s, events, matched, |events|) && |matched| < |s|
    ensures !Subsequence(s[..|matched| + 1], events) && !Subsequence(s, events)
  {
    assert s[..|s|] == s;
    NotEmbedded(s, events, matched, |matched| + 1);
    NotEmbedded(s, events, matched, |s|);
  }

  lemma NotEmbedded(s: seq<string>, events: seq<string>, matched: seq<nat>, n: nat)
    requires Greedy(s, events, matched, |events|) && |matched| < n <= |s|
    ensures !Subsequence(s[..n], events)
  {
    if ks :| At(events, s[..n], ks) {
      EmbeddedIsMatched(s, events, matched, n, ks);
    }
  }

  /** Once the scan is over, no prefix longer than the matched one can be embedded. */
  lemma EmbeddedIsMatched(s: seq<string>, events: seq<string>, matched: seq<nat>, n: nat, ks: seq<nat>)
    requires Greedy(s, events, matched, |events|) && n <= |s| && At(events, s[..n], ks)
    ensures n <= |matched|
  {
    assert NotAhead(matched, |events|, n, ks);
  }

  /** v is the first offence against the constraint; for a strict order, the longest prefix that can be embedded. */
  ghost predicate Explains(c: Constraint, events: seq<string>, v: Violation) {
    match c
    case Before(a, b) => v.AtStep? && Unprepared(events, b, a, v.step)
        && forall n :: n < v.step ==> !Unprepared(events, b, a, n)
    case After(a, b) => v.AtStep? && Unprepared(events, a, b, v.step)
        && forall n :: n < v.step ==> !Unprepared(events, a, b, n)
    case MustEventuallyFollow(a, b) =>
      && v.AtStep? && Unanswered(events, a, b, v.step, |events|)
      && forall n :: n < v.step ==> !Unanswered(events, a, b, n, |events|)
    case MustNeverFollow(a, b) =>
      && v.Follows? && FollowedBy(events, a, b, v.trigger, v.violation)
      && forall i, j :: i < v.trigger ==> !FollowedBy(events, a, b, i, j)
    case StrictOrder(s) => v.Matched? && v.count < |s| && Subsequence(s[..v.count], events)
        && !Subsequence(s[..v.count + 1], events)
    case BoundedFollow(a, b, k) =>
      && v.AtStep? && k >= 0 && Unanswered(events, a, b, v.step, k)
      && forall n :: n < v.step ==> !Unanswered(events, a, b, n, k)
  }

  /** OrderingConstraint.evaluate decides the definition of its relation. */
  method Evaluate(c: Constraint, events: seq<string>) returns (v: Option<Violation>)
    requires Checked(c).None?
    ensures v.None? <==> Satisfied(c, events)
    ensures v.Some? ==> Explains(c, events, v.value)
  {
    match c
    case Before(a, b) => v := EvaluatePrerequisite(events, a, b);
    case After(a, b) => v := EvaluatePrerequisite(events, b, a);
    case MustEventuallyFollow(a, b) => v := EvaluateFollow(events, a, b, |events|);
    case MustNeverFollow(a, b) => v := EvaluateNever(events, a, b);
    case StrictOrder(s) => v := EvaluateOrder(events, s);
    case BoundedFollow(a, b, k) => v := EvaluateFollow(events, a, b, k);
  }

  /** The violated constraints among the first k, in order, each with its offence. */
  ghost predicate Violations(constraints: seq<Constraint>, events: seq<string>, k: nat, found: seq<(nat, Violation)>)
    requires k <= |constraints|
  {
    && (forall i :: 0 <= i < k && !Satisfied(constraints[i], events) ==>
        exists j :: 0 <= j < |found| && found[j].0 == i)
    && (forall j :: 0 <= j < |found| ==>
          && found[j].0 < k && !Satisfied(constraints[found[j].0], events)
          && Explains(constraints[found[j].0], events, found[j].1))
    && (forall i, j :: 0 <= i < j < |found| ==> found[i].0 < found[j].0)
  }

  lemma OneMoreViolation(constraints: seq<Constraint>, events: seq<string>, k: nat, found: seq<(nat, Violation)>,
                         v: Violation)
    requires k < |constraints| && Violations(constraints, events, k, found)
    requires !Satisfied(constraints[k], events) && Explains(constraints[k], events, v)
    ensures Violations(constraints, events, k + 1, found + [(k, v)])
  {
    hide Satisfied, Explains;
    var more := found + [(k, v)];
    forall i | 0 <= i < k + 1 && !Satisfied(constraints[i], events)
      ensures exists j :: 0 <= j < |more| && more[j].0 == i
    {
      if i < k {
        var j :| 0 <= j < |found| && found[j].0 == i;
        assert more[j].0 == i;
      } else {
        assert more[|found|].0 == i;
      }
    }
  }

  /** TemporalInvariant.evaluate_trace: the violations, in order; none means SATISFIED. A trace of another history cut
      is refused. */
  method EvaluateTrace(constraints: seq<Constraint>, events: seq<string>, invariantCut: Cut, cut: Option<Cut>)
    returns (r: Result<seq<(nat, Violation)>, ConstraintError>)
    requires forall i :: 0 <= i < |constraints| ==> Checked(constraints[i]).None?
    ensures r.Failure? <==> cut.Some? && cut.value != invariantCut
    ensures r.Failure? ==> r.error.StaleHistoryCut?
    ensures r.Success? ==> Violations(constraints, events, |constraints|, r.value)
  {
    hide Satisfied, Explains;
    if cut.Some? && cut.value != invariantCut {
      return Failure(StaleHistoryCut);
    }
    var found: seq<(nat, Violation)> := [];
    for k := 0 to |constraints|
      invariant Violations(constraints, events, k, found)
    {
      var v := Evaluate(constraints[k], events);
      if v.Some? {
        OneMoreViolation(constraints, events, k, found, v.value);
        found := found + [(k, v.value)];
      }
    }
    return Success(found);
  }

  /** An invariant is satisfied just when all its constraints are. */
  lemma NoViolationIffSatisfied(constraints: seq<Constraint>, events: seq<string>, found: seq<(nat, Violation)>)
    requires Violations(constraints, events, |constraints|, found)
    ensures found == [] <==> forall i :: 0 <= i < |constraints| ==> Satisfied(constraints[i], events)
  {
    hide Satisfied, Explains;
    if found != [] {
      assert !Satisfied(constraints[found[0].0], events);
    }
  }

  // ----- how the relations relate -----

  /** A follow-up within k steps is one within k + 1 steps, and one at all. */
  lemma BoundedFollowWeakens(a: string, b: string, k: nat, events: seq<string>)
    requires Satisfied(BoundedFollow(a, b, k), events)
    ensures Satisfied(BoundedFollow(a, b, k + 1), events)
    ensures Satisfied(MustEventuallyFollow(a, b), events)
  {
    forall n | 0 <= n < |events| && events[n] == a
      ensures OccursIn(events, b, n + 1, n + 1 + (k + 1)) && OccursIn(events, b, n + 1, n + 1 + |events|)
    {
      assert !Unanswered(events, a, b, n, k);
      var i :| 0 <= n + 1 <= i < n + 1 + k && i < |events| && events[i] == b;
    }
  }

  lemma OccursInPrefix(events: seq<string>, y: string, m: nat, n: nat)
    requires OccursBefore(events, y, m) && m <= n <= |events|
    ensures OccursBefore(events[..n], y, m)
  {
    var i :| 0 <= i < m && events[i] == y;
    assert events[..n][i] == y;
  }

  /** BEFORE and MUST_NEVER_FOLLOW are safety properties: what holds of a trace holds of each of its prefixes. */
  lemma PrefixClosed(c: Constraint, events: seq<string>, n: nat)
    requires c.Before? || c.After? || c.MustNeverFollow?
    requires Satisfied(c, events) && n <= |events|
    ensures Satisfied(c, events[..n])
  {
    var prefix := events[..n];
    if c.MustNeverFollow? {
      forall i, j | FollowedBy(prefix, c.a, c.b, i, j)
        ensures FollowedBy(events, c.a, c.b, i, j)
      {
      }
    } else {
      var x, y := if c.Before? then c.b else c.a, if c.Before? then c.a else c.b;
      forall m | Unprepared(prefix, x, y, m)
        ensures Unprepared(events, x, y, m)
      {
        if OccursBefore(events, y, m) {
          OccursInPrefix(events, y, m, n);
        }
      }
    }
  }

  /** A strict order, once satisfied, stays satisfied as the trace goes on. */
  lemma StrictOrderPersists(s: seq<string>, events: seq<string>, more: seq<string>)
    requires Satisfied(StrictOrder(s), events)
    ensures Satisfied(StrictOrder(s), events + more)
  {
    var ks :| At(events, s, ks);
    assert At(events + more, s, ks);
  }
}
