/** assurance/zip_safety.py, the loop of _expanded: what it makes of a member's data under a ceiling, for every
    decompressor. */
module ZipExpansion {
  import opened Wrappers
  import opened ZipMetadata

  // ----- decompressors -----

  /** One call of decompress(input, max_length): an exception, or a chunk and where the decoder stands then. tail is
      what a raw deflate decoder has not consumed; the others keep it and say whether they need input. */
  datatype Reply<S> = Broken
    | Reply(chunk: seq<byte>, state: S, eof: bool, unused: seq<byte>, tail: seq<byte>, needsInput: bool)

  datatype Decoder<!S> = Decoder(start: S, step: (S, seq<byte>, nat) -> Reply<S>)

  /** The decoder keeps to max_length, and holds input or output back only because of it. */
  ghost predicate HonoursLimit<S>(r: Reply<S>, deflate: bool, input: seq<byte>, limit: nat) {
    r.Reply? ==>
      && |r.chunk| <= limit
      && (deflate ==> |r.tail| <= |input| && (r.tail != [] ==> |r.chunk| == limit) && (r.eof ==> r.tail == []))
      && (!deflate && !r.eof && !r.needsInput ==> |r.chunk| == limit)
  }

  ghost predicate Honours<S(!new)>(d: Decoder<S>, deflate: bool) {
    forall s, input, limit :: limit >= 1 ==> HonoursLimit(d.step(s, input, limit), deflate, input, limit)
  }

  /** meaning(s, rest) is all that a decoder in state s makes of the remaining input; a chunk is the next piece of
      it. */
  ghost predicate Faithful<S(!new)>(d: Decoder<S>, deflate: bool, meaning: (S, seq<byte>) -> seq<byte>) {
    forall s, input, limit, rest ::
      NextPiece(d.step(s, input, limit), deflate, meaning(s, input + rest), rest, meaning)
  }

  ghost predicate NextPiece<S>(r: Reply<S>, deflate: bool, whole: seq<byte>, rest: seq<byte>,
                               meaning: (S, seq<byte>) -> seq<byte>) {
    r.Reply? ==>
      && whole == r.chunk + meaning(r.state, (if deflate then r.tail else []) + rest)
      && (r.eof ==> meaning(r.state, (if deflate then r.tail else []) + rest) == [])
  }

  // ----- expansion -----

  function Least(a: int, b: int): int {
    if a < b then a else b
  }

  /** The loop for a stored member: chunks of at most 65536 bytes, or one more than the ceiling leaves. It is the plain
      slice, refused just when that is over the ceiling. */
  method ExpandStored(data: seq<byte>, ceiling: nat) returns (r: Result<seq<byte>, ZipError>, ghost peak: nat)
    ensures r == if |data| <= ceiling then Success(data) else Failure(ResourceLimit)
    ensures peak <= ceiling + 1
  {
    var output: seq<byte>, position: nat := [], 0;
    peak := 0;
    while true
      invariant position <= |data| && output == data[..position] && position <= ceiling && peak <= ceiling + 1
      decreases |data| - position
    {
      var limit := Least(65536, ceiling - |output| + 1);
      var chunk := data[position..Least(position + limit, |data|)];
      position := position + |chunk|;
      if peak < |output| + |chunk| {
        peak := |output| + |chunk|;
      }
      if |output| + |chunk| > ceiling {
        return Failure(ResourceLimit), peak;
      }
      output := output + chunk;
      assert output == data[..position];
      if position == |data| {
        assert output == data;
        return Success(output), peak;
      }
    }
  }

  // ----- the run of a decoder over the data -----

  /** Where the loop stands: what it has put out, how much of the data it has fed, and what the decoder has handed
      back. */
  datatype Progress<S> = Progress(output: seq<byte>, position: nat, pending: seq<byte>, state: S, needsInput: bool)

  function Begin<S>(d: Decoder<S>): Progress<S> {
    Progress([], 0, [], d.start, true)
  }

  /** What is fed next, and how far the data are used then: what was handed back, nothing, or the next piece. */
  function Fed<S>(data: seq<byte>, deflate: bool, p: Progress<S>): (r: (seq<byte>, nat))
    requires p.position <= |data|
    ensures p.position <= r.1 <= |data|
  {
    if deflate && p.pending != [] then (p.pending, p.position)
    else if !deflate && !p.needsInput then ([], p.position)
    else
      var next := Least(p.position + 65536, |data|);
      (data[p.position..next], next)
  }

  /** The max_length of the next call. */
  function Room<S>(p: Progress<S>, ceiling: nat): (limit: nat)
    requires |p.output| <= ceiling
    ensures 1 <= limit <= ceiling - |p.output| + 1
  {
    Least(65536, ceiling - |p.output| + 1)
  }

  ghost predicate InBounds<S>(data: seq<byte>, ceiling: nat, p: Progress<S>) {
    p.position <= |data| && |p.output| <= ceiling
  }

  function ReplyAt<S>(data: seq<byte>, deflate: bool, d: Decoder<S>, ceiling: nat, p: Progress<S>): Reply<S>
    requires p.position <= |data| && |p.output| <= ceiling
  {
    d.step(p.state, Fed(data, deflate, p).0, Room(p, ceiling))
  }

  function After<S>(data: seq<byte>, deflate: bool, p: Progress<S>, r: Reply<S>): Progress<S>
    requires p.position <= |data| && r.Reply?
  {
    Progress(p.output + r.chunk, Fed(data, deflate, p).1, if deflate then r.tail else p.pending, r.state, r.needsInput)
  }

  /** How the run ends at p, if it does. */
  ghost function Ending<S>(data: seq<byte>, deflate: bool, d: Decoder<S>, ceiling: nat, p: Progress<S>)
    : Option<Result<seq<byte>, ZipError>>
    requires InBounds(data, ceiling, p)
  {
    var r := ReplyAt(data, deflate, d, ceiling, p);
    if r.Broken? then Some(Failure(Integrity))
    else
      var q := After(data, deflate, p, r);
      if |q.output| > ceiling then Some(Failure(ResourceLimit))
      else if r.eof then Some(if r.unused == [] && q.position == |data| then Success(q.output) else Failure(Integrity))
      else if r.chunk == [] && q.position == |data| && q.pending == [] then Some(Failure(Integrity))
      else None
  }

  /** ps are the places the loop passes from its start. */
  ghost predicate IsRun<S>(data: seq<byte>, deflate: bool, d: Decoder<S>, ceiling: nat, ps: seq<Progress<S>>) {
    && ps != [] && ps[0] == Begin(d)
    && (forall i :: 0 <= i < |ps| ==> InBounds(data, ceiling, ps[i]))
    && forall i :: 0 <= i < |ps| - 1 ==> GoesOn(data, deflate, d, ceiling, ps[i], ps[i + 1])
  }

  ghost predicate GoesOn<S>(data: seq<byte>, deflate: bool, d: Decoder<S>, ceiling: nat, p: Progress<S>, q: Progress<S>)
    requires InBounds(data, ceiling, p)
  {
    Ending(data, deflate, d, ceiling, p).None? && q == After(data, deflate, p, ReplyAt(data, deflate, d, ceiling, p))
  }

  /** The run over the data from the decoder's start ends with r. */
  ghost predicate EndsWith<S(!new)>(data: seq<byte>, deflate: bool, d: Decoder<S>, ceiling: nat,
                                    r: Result<seq<byte>, ZipError>)
  {
    exists ps :: RunEnds(data, deflate, d, ceiling, ps, r)
  }

  ghost predicate RunEnds<S>(data: seq<byte>, deflate: bool, d: Decoder<S>, ceiling: nat, ps: seq<Progress<S>>,
                             r: Result<seq<byte>, ZipError>) {
    IsRun(data, deflate, d, ceiling, ps) && Ending(data, deflate, d, ceiling, ps[|ps| - 1]) == Some(r)
  }

  lemma {:induction false} RunsAgree<S>(data: seq<byte>, deflate: bool, d: Decoder<S>, ceiling: nat,
                                        ps: seq<Progress<S>>, qs: seq<Progress<S>>, i: nat)
    requires IsRun(data, deflate, d, ceiling, ps) && IsRun(data, deflate, d, ceiling, qs) && i < |ps| && i < |qs|
    ensures ps[i] == qs[i]
  {
    hide Ending, After, ReplyAt;
    if i > 0 {
      RunsAgree(data, deflate, d, ceiling, ps, qs, i - 1);
      assert GoesOn(data, deflate, d, ceiling, ps[i - 1], ps[i]) && GoesOn(data, deflate, d, ceiling, qs[i - 1], qs[i]);
    }
  }

  lemma WentOn<S>(data: seq<byte>, deflate: bool, d: Decoder<S>, ceiling: nat, ps: seq<Progress<S>>, i: nat)
    requires IsRun(data, deflate, d, ceiling, ps) && i < |ps| - 1
    ensures InBounds(data, ceiling, ps[i]) && Ending(data, deflate, d, ceiling, ps[i]).None?
  {
    hide Ending;
    assert GoesOn(data, deflate, d, ceiling, ps[i], ps[i + 1]);
  }

  lemma NoLongerRun<S>(data: seq<byte>, deflate: bool, d: Decoder<S>, ceiling: nat, ps: seq<Progress<S>>,
                       qs: seq<Progress<S>>, r: Result<seq<byte>, ZipError>)
    requires RunEnds(data, deflate, d, ceiling, ps, r) && IsRun(data, deflate, d, ceiling, qs)
    ensures |qs| <= |ps|
  {
    hide Ending, After, ReplyAt;
    var n := |ps| - 1;
    if |qs| > |ps| {
      WentOn(data, deflate, d, ceiling, qs, n);
      RunsAgree(data, deflate, d, ceiling, ps, qs, n);
    }
  }

  /** A run ends in one way. */
  lemma OneEnding<S(!new)>(data: seq<byte>, deflate: bool, d: Decoder<S>, ceiling: nat, r: Result<seq<byte>, ZipError>,
                           r': Result<seq<byte>, ZipError>)
    requires EndsWith(data, deflate, d, ceiling, r) && EndsWith(data, deflate, d, ceiling, r')
    ensures r == r'
  {
    hide Ending, IsRun;
    var ps :| RunEnds(data, deflate, d, ceiling, ps, r);
    var qs :| RunEnds(data, deflate, d, ceiling, qs, r');
    NoLongerRun(data, deflate, d, ceiling, ps, qs, r);
    NoLongerRun(data, deflate, d, ceiling, qs, ps, r');
    assert ps != [] by { RunStarts(data, deflate, d, ceiling, ps); }
    RunsAgree(data, deflate, d, ceiling, ps, qs, |ps| - 1);
  }

  lemma RunStarts<S>(data: seq<byte>, deflate: bool, d: Decoder<S>, ceiling: nat, ps: seq<Progress<S>>)
    requires IsRun(data, deflate, d, ceiling, ps)
    ensures ps != []
  {
  }

  lemma FirstPlace<S>(data: seq<byte>, deflate: bool, d: Decoder<S>, ceiling: nat)
    ensures IsRun(data, deflate, d, ceiling, [Begin(d)])
  {
  }

  lemma NextPlace<S>(data: seq<byte>, deflate: bool, d: Decoder<S>, ceiling: nat, ps: seq<Progress<S>>, q: Progress<S>)
    requires IsRun(data, deflate, d, ceiling, ps) && GoesOn(data, deflate, d, ceiling, ps[|ps| - 1], q)
    requires InBounds(data, ceiling, q)
    ensures IsRun(data, deflate, d, ceiling, ps + [q])
  {
    hide GoesOn, InBounds;
    var more := ps + [q];
    assert forall i :: 0 <= i < |ps| ==> more[i] == ps[i];
    forall i | 0 <= i < |more| - 1
      ensures InBounds(data, ceiling, more[i]) && GoesOn(data, deflate, d, ceiling, more[i], more[i + 1])
    {
      assert InBounds(data, ceiling, ps[i]);
    }
  }

  // ----- well-formed data -----

  /** wf(s, rest) tells that the rest of the data is well formed for a decoder in state s: it does not raise on them,
      and ends exactly where they do. */
  ghost predicate Orderly<S(!new)>(d: Decoder<S>, deflate: bool, wf: (S, seq<byte>) -> bool) {
    forall s, input, limit, rest :: limit >= 1 && wf(s, input + rest) ==>
      StaysOrderly(d.step(s, input, limit), deflate, rest, wf)
  }

  ghost predicate StaysOrderly<S>(r: Reply<S>, deflate: bool, rest: seq<byte>, wf: (S, seq<byte>) -> bool) {
    && r.Reply?
    && (r.eof ==> r.unused == [] && rest == [])
    && (!r.eof ==> wf(r.state, (if deflate then r.tail else []) + rest))
    && (!r.eof && rest == [] && r.chunk == [] ==> deflate && r.tail != [])
  }

  /** What is left of the data at p. */
  ghost function Left<S>(data: seq<byte>, p: Progress<S>): seq<byte>
    requires p.position <= |data|
  {
    p.pending + data[p.position..]
  }

  lemma FedIsFront<S>(data: seq<byte>, deflate: bool, p: Progress<S>)
    requires p.position <= |data| && (!deflate ==> p.pending == [])
    ensures Left(data, p) == Fed(data, deflate, p).0 + data[Fed(data, deflate, p).1..]
  {
  }

  lemma {:induction false} OrderlyRun<S(!new)>(data: seq<byte>, deflate: bool, d: Decoder<S>, ceiling: nat,
                                               ps: seq<Progress<S>>, wf: (S, seq<byte>) -> bool, i: nat)
    requires IsRun(data, deflate, d, ceiling, ps) && i < |ps| && Orderly(d, deflate, wf) && wf(d.start, data)
    ensures InBounds(data, ceiling, ps[i]) && (!deflate ==> ps[i].pending == []) && wf(ps[i].state, Left(data, ps[i]))
  {
    hide Orderly, StaysOrderly;
    if i == 0 {
      assert [] + data[0..] == data;
    } else {
      OrderlyRun(data, deflate, d, ceiling, ps, wf, i - 1);
      var p := ps[i - 1];
      assert GoesOn(data, deflate, d, ceiling, p, ps[i]);
      OrderlyReply(data, deflate, d, ceiling, p, wf);
    }
  }

  lemma OrderlyReply<S(!new)>(data: seq<byte>, deflate: bool, d: Decoder<S>, ceiling: nat, p: Progress<S>,
                              wf: (S, seq<byte>) -> bool)
    requires InBounds(data, ceiling, p) && (!deflate ==> p.pending == []) && wf(p.state, Left(data, p))
        && Orderly(d, deflate, wf)
    ensures var r := ReplyAt(data, deflate, d, ceiling, p);
            r.Reply? && var q := After(data, deflate, p, r);
            && (r.eof ==> r.unused == [] && q.position == |data|)
            && (!r.eof ==> wf(q.state, Left(data, q)) && !(r.chunk == [] && q.position == |data| && q.pending == []))
  {
    var (input, next) := Fed(data, deflate, p);
    FedIsFront(data, deflate, p);
    var r := ReplyAt(data, deflate, d, ceiling, p);
    assert StaysOrderly(r, deflate, data[next..], wf);
  }

  /** Well-formed data are never refused but for their size, whatever the ceiling cuts the output into. */
  lemma OrderlyNeverRefused<S(!new)>(data: seq<byte>, deflate: bool, d: Decoder<S>, ceiling: nat,
                                     wf: (S, seq<byte>) -> bool)
    requires Orderly(d, deflate, wf) && wf(d.start, data)
    ensures !EndsWith(data, deflate, d, ceiling, Failure(Integrity))
  {
    hide Orderly, After, ReplyAt, Left;
    forall ps | IsRun(data, deflate, d, ceiling, ps)
      ensures !RunEnds(data, deflate, d, ceiling, ps, Failure(Integrity))
    {
      OrderlyRun(data, deflate, d, ceiling, ps, wf, |ps| - 1);
      OrderlyReply(data, deflate, d, ceiling, ps[|ps| - 1], wf);
    }
  }

  // ----- the loop over a decompressor -----

  /** The whole of what the data mean is what was put out and what is still to come. */
  ghost predicate Halfway<S>(meaning: (S, seq<byte>) -> seq<byte>, whole: seq<byte>, output: seq<byte>, state: S,
                             rest: seq<byte>)
  {
    whole == output + meaning(state, rest)
  }

  lemma Start<S>(meaning: (S, seq<byte>) -> seq<byte>, state: S, data: seq<byte>)
    ensures Halfway(meaning, meaning(state, data), [], state, [] + data[0..])
  {
    assert [] + data[0..] == data;
  }

  lemma Advance<S(!new)>(d: Decoder<S>, deflate: bool, meaning: (S, seq<byte>) -> seq<byte>, state: S, input: seq<byte>,
                         limit: nat, whole: seq<byte>, output: seq<byte>, rest: seq<byte>)
    requires Honours(d, deflate) && Faithful(d, deflate, meaning) && limit >= 1
    requires Halfway(meaning, whole, output, state, input + rest)
    requires d.step(state, input, limit).Reply?
    ensures var r := d.step(state, input, limit);
            && HonoursLimit(r, deflate, input, limit)
            && Halfway(meaning, whole, output + r.chunk, r.state, (if deflate then r.tail else []) + rest)
            && (r.eof && rest == [] ==> whole == output + r.chunk)
            && |output + r.chunk| <= |whole|
  {
    var r := d.step(state, input, limit);
    assert NextPiece(r, deflate, meaning(state, input + rest), rest, meaning);
    assert output + (r.chunk + meaning(r.state, (if deflate then r.tail else []) + rest))
        == (output + r.chunk) + meaning(r.state, (if deflate then r.tail else []) + rest);
  }

  /** The loop over a decompressor. It ends for every decoder that honours max_length, as the run of the decoder over
      the data does; what it holds is never more than the ceiling and, while a chunk is looked at, one byte; an
      expansion is the whole of what the data mean, and it is refused for size only when that is over the ceiling. */
  method ExpandCoded<S(!new)>(data: seq<byte>, deflate: bool, d: Decoder<S>, ceiling: nat,
                              ghost meaning: (S, seq<byte>) -> seq<byte>)
    returns (r: Result<seq<byte>, ZipError>, ghost peak: nat)
    requires Honours(d, deflate) && Faithful(d, deflate, meaning)
    ensures EndsWith(data, deflate, d, ceiling, r)
    ensures peak <= ceiling + 1
    ensures r.Success? ==> r.value == meaning(d.start, data) && |r.value| <= ceiling
    ensures r == Failure(ResourceLimit) ==> |meaning(d.start, data)| > ceiling
    ensures r.Failure? ==> r.error in {ResourceLimit, Integrity}
  {
    hide Honours, Faithful, Halfway, IsRun;
    ghost var whole := meaning(d.start, data);
    var output: seq<byte>, position: nat, pending: seq<byte>, state, needsInput := [], 0, [], d.start, true;
    peak := 0;
    Start(meaning, d.start, data);
    ghost var ps := [Begin(d)];
    FirstPlace(data, deflate, d, ceiling);
    while true
      invariant position <= |data| && |output| <= ceiling && peak <= ceiling + 1
      invariant !deflate ==> pending == []
      invariant Halfway(meaning, whole, output, state, pending + data[position..])
      invariant IsRun(data, deflate, d, ceiling, ps) && ps != []
      invariant ps[|ps| - 1] == Progress(output, position, pending, state, needsInput)
      decreases ceiling - |output|, |data| - position, |pending|, if needsInput then 0 else 1
    {
      ghost var p := ps[|ps| - 1];
      FedIsFront(data, deflate, p);
      var limit: nat := Least(65536, ceiling - |output| + 1);
      var compressed: seq<byte>, next: nat := pending, position;
      if deflate && pending != [] {
      } else if !deflate && !needsInput {
        compressed := [];
      } else {
        next := Least(position + 65536, |data|);
        compressed := data[position..next];
      }
      assert Fed(data, deflate, p) == (compressed, next);
      var reply := d.step(state, compressed, limit);
      assert reply == ReplyAt(data, deflate, d, ceiling, p);
      if reply.Broken? {
        assert RunEnds(data, deflate, d, ceiling, ps, Failure(Integrity));
        return Failure(Integrity), peak;
      }
      Advance(d, deflate, meaning, state, compressed, limit, whole, output, data[next..]);
      if deflate {
        pending := reply.tail;
      }
      var chunk := reply.chunk;
      if peak < |output| + |chunk| {
        peak := |output| + |chunk|;
      }
      if |output| + |chunk| > ceiling {
        assert RunEnds(data, deflate, d, ceiling, ps, Failure(ResourceLimit));
        return Failure(ResourceLimit), peak;
      }
      output, position := output + chunk, next;
      if reply.eof {
        if reply.unused != [] || position != |data| {
          assert RunEnds(data, deflate, d, ceiling, ps, Failure(Integrity));
          return Failure(Integrity), peak;
        }
        assert RunEnds(data, deflate, d, ceiling, ps, Success(output));
        return Success(output), peak;
      } else if chunk == [] && position == |data| && pending == [] {
        assert RunEnds(data, deflate, d, ceiling, ps, Failure(Integrity));
        return Failure(Integrity), peak;
      }
      state, needsInput := reply.state, reply.needsInput;
      NextPlace(data, deflate, d, ceiling, ps, Progress(output, position, pending, state, needsInput));
      ps := ps + [Progress(output, position, pending, state, needsInput)];
    }
  }
}
