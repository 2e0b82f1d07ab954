/** deepen/crash.py: the durable store, its crash boundaries, and the crash test built on it. */
module CrashRecovery {
  import opened Wrappers

  datatype Boundary =
    | BeforeDurableAcceptance | DuringBoundary | AfterDurableAcceptance | BeforeCommit | AfterCommitBeforeAck

  /** The digest of a payload: injective, and never empty. */
  datatype Hash = HashOf(payload: string)

  datatype Row = Row(payload: string, hash: Hash)

  datatype Head = Head(lastRecordId: string, version: nat)

  /** The committed content of the two tables. */
  datatype Tables = Tables(records: map<string, Row>, head: Option<Head>)

  const EMPTY := Tables(map[], None)

  /** What a call does: answer, refuse, or crash at its boundary. */
  datatype Answer =
    | Accepted(id: string, hash: Hash, version: nat)
    | AlreadyAccepted(id: string, hash: Hash)
    | ConflictingRetry(id: string)
    | Crashed

  /** The two tables after a committed acceptance. */
  function Committed(t: Tables, id: string, payload: string): Tables {
    Tables(t.records[id := Row(payload, HashOf(payload))],
           Some(Head(id, if t.head.None? then 1 else t.head.value.version + 1)))
  }

  predicate CommitsFirst(crash: Option<Boundary>) {
    crash.None? || crash.value.AfterDurableAcceptance? || crash.value.AfterCommitBeforeAck? || crash.value.BeforeCommit?
  }

  /** accept_record on the committed tables. BEFORE_COMMIT is accepted as a crash point and never acted on. */
  ghost predicate Accepts(t: Tables, id: string, payload: string, crash: Option<Boundary>, t': Tables, a: Answer) {
    if id in t.records then
      && t' == t
      && a == if t.records[id].hash == HashOf(payload) then AlreadyAccepted(id, t.records[id].hash)
          else ConflictingRetry(id)
    else if CommitsFirst(crash) then
      && t' == Committed(t, id, payload)
      && a == if crash.None? || crash.value.BeforeCommit? then Accepted(id, HashOf(payload), t'.head.value.version)
          else Crashed
    else
      t' == t && a == Crashed
  }

  /** DurableStoreHarness: a transaction works on its own copy of the tables, which a crash discards. */
  class DurableStoreHarness {
    var records: map<string, Row>
    var head: Option<Head>

    ghost function Value(): Tables
      reads this
    {
      Tables(records, head)
    }

    constructor ()
      ensures Value() == EMPTY
    {
      records, head := map[], None;
    }

    method AcceptRecord(id: string, payload: string, crash: Option<Boundary>) returns (a: Answer)
      modifies this
      ensures Accepts(old(Value()), id, payload, crash, Value(), a)
    {
      var hash := HashOf(payload);
      if id in records {
        if records[id].hash != hash {
          return ConflictingRetry(id);
        }
        return AlreadyAccepted(id, records[id].hash);
      }
      if crash == Some(BeforeDurableAcceptance) {
        return Crashed;
      }
      var txRecords, txHead := records, head;
      txRecords := txRecords[id := Row(payload, hash)];
      if crash == Some(DuringBoundary) {
        return Crashed;
      }
      var version := if txHead.None? then 1 else txHead.value.version + 1;
      txHead := Some(Head(id, version));
      records, head := txRecords, txHead;
      if crash == Some(AfterDurableAcceptance) || crash == Some(AfterCommitBeforeAck) {
        return Crashed;
      }
      return Accepted(id, hash, version);
    }
  }

  // ----- every run -----

  /** NO_ORPHAN_UNACCEPTED_HEAD. */
  predicate HeadExists(t: Tables) {
    t.head.None? || t.head.value.lastRecordId in t.records
  }

  /** NO_TORN_RECORD. */
  predicate RecordsIntact(t: Tables) {
    forall id | id in t.records :: t.records[id].hash == HashOf(t.records[id].payload)
  }

  /** The version counts the records, and both recovery invariants hold. */
  ghost predicate Consistent(t: Tables) {
    && HeadExists(t) && RecordsIntact(t)
    && |t.records| == (if t.head.None? then 0 else t.head.value.version)
    && (t.head.None? ==> t.records == map[])
  }

  datatype Call = Call(id: string, payload: string, crash: Option<Boundary>)

  ghost predicate Run(ts: seq<Tables>, calls: seq<Call>, answers: seq<Answer>) {
    && |ts| == |calls| + 1 && |answers| == |calls|
    && ts[0] == EMPTY
    && forall i :: 0 <= i < |calls| ==>
        Accepts(ts[i], calls[i].id, calls[i].payload, calls[i].crash, ts[i + 1], answers[i])
  }

  lemma CommitKeeps(t: Tables, id: string, payload: string)
    requires Consistent(t) && id !in t.records
    ensures Consistent(Committed(t, id, payload))
    ensures |Committed(t, id, payload).records| == |t.records| + 1
  {
    var t' := Committed(t, id, payload);
    assert t'.records.Keys == t.records.Keys + {id};
    assert |t'.records.Keys| == |t.records.Keys| + 1;
  }

  /** Every state of every run, crashes included, satisfies both invariants, and the head counts the records. */
  lemma {:induction false} AlwaysConsistent(ts: seq<Tables>, calls: seq<Call>, answers: seq<Answer>, n: nat)
    requires Run(ts, calls, answers) && n <= |calls|
    ensures Consistent(ts[n])
  {
    if n > 0 {
      AlwaysConsistent(ts, calls, answers, n - 1);
      var c := calls[n - 1];
      assert Accepts(ts[n - 1], c.id, c.payload, c.crash, ts[n], answers[n - 1]);
      if c.id !in ts[n - 1].records {
        CommitKeeps(ts[n - 1], c.id, c.payload);
      }
    }
  }

  /** A committed record stays as it was committed. */
  lemma {:induction false} RecordsStay(ts: seq<Tables>, calls: seq<Call>, answers: seq<Answer>, m: nat, n: nat,
                                       id: string)
    requires Run(ts, calls, answers) && m <= n <= |calls| && id in ts[m].records
    ensures id in ts[n].records && ts[n].records[id] == ts[m].records[id]
    decreases n - m
  {
    if m < n {
      RecordsStay(ts, calls, answers, m, n - 1, id);
      var c := calls[n - 1];
      assert Accepts(ts[n - 1], c.id, c.payload, c.crash, ts[n], answers[n - 1]);
    }
  }

  /** The call at i committed a new record: some of these calls report a crash all the same. */
  ghost predicate Commits(ts: seq<Tables>, calls: seq<Call>, i: int) {
    0 <= i < |calls| < |ts| && calls[i].id !in ts[i].records && calls[i].id in ts[i + 1].records
  }

  /** Exactly once: of all the calls for one id, crashed and retried in any way, at most one commits; and after any
      call for it that does not crash, one has, and the record holds the payload of that one. */
  lemma ExactlyOnce(ts: seq<Tables>, calls: seq<Call>, answers: seq<Answer>, i: nat, j: nat)
    requires Run(ts, calls, answers) && i < |calls| && j < |calls| && calls[i].id == calls[j].id
    ensures Commits(ts, calls, i) && Commits(ts, calls, j) ==> i == j
    ensures !answers[j].Crashed? ==>
              exists k :: 0 <= k <= j && calls[k].id == calls[j].id && Commits(ts, calls, k)
                && ts[j + 1].records[calls[j].id] == Row(calls[k].payload, HashOf(calls[k].payload))
    ensures answers[j].AlreadyAccepted? || answers[j].Accepted? ==>
              calls[j].id in ts[j + 1].records && ts[j + 1].records[calls[j].id].payload == calls[j].payload
  {
    var id := calls[j].id;
    if Commits(ts, calls, i) && Commits(ts, calls, j) && i != j {
      var first, second := if i < j then i else j, if i < j then j else i;
      RecordsStay(ts, calls, answers, first + 1, second, id);
    }
    assert Accepts(ts[j], id, calls[j].payload, calls[j].crash, ts[j + 1], answers[j]);
    if !answers[j].Crashed? {
      var k := FirstCommit(ts, calls, answers, j + 1, id);
      RecordsStay(ts, calls, answers, k + 1, j + 1, id);
      AlwaysConsistent(ts, calls, answers, j + 1);
    }
  }

  /** A present record was committed by an earlier call, with that call's payload. */
  lemma {:induction false} FirstCommit(ts: seq<Tables>, calls: seq<Call>, answers: seq<Answer>, n: nat, id: string)
    returns (k: nat)
    requires Run(ts, calls, answers) && n <= |calls| && id in ts[n].records
    ensures k < n && calls[k].id == id && Commits(ts, calls, k)
    ensures ts[k + 1].records[id] == Row(calls[k].payload, HashOf(calls[k].payload))
  {
    var c := calls[n - 1];
    assert Accepts(ts[n - 1], c.id, c.payload, c.crash, ts[n], answers[n - 1]);
    if id in ts[n - 1].records {
      k := FirstCommit(ts, calls, answers, n - 1, id);
    } else {
      k := n - 1;
    }
  }

  /** A retry of a crashed call takes effect once: whether or not the crash came after the commit, the retry leaves
      the record in place, with one version more than before the crash. */
  lemma RetryTakesEffectOnce(t0: Tables, t1: Tables, t2: Tables, id: string, payload: string, crash: Boundary,
                             a1: Answer, a2: Answer)
    requires Accepts(t0, id, payload, Some(crash), t1, a1) && a1.Crashed?
    requires Accepts(t1, id, payload, None, t2, a2)
    ensures t2 == Committed(t0, id, payload)
    ensures a2 == if CommitsFirst(Some(crash)) then AlreadyAccepted(id, HashOf(payload))
                  else Accepted(id, HashOf(payload), t2.head.value.version)
  {
  }

  // ----- the crash test -----

  datatype RecoveryStatus = RecoveredClean | RecoveredRolledBack | InvariantFailed

  datatype RestartResult = RestartResult(status: RecoveryStatus, passed: seq<string>, failed: seq<string>,
                                         acceptedBeforeCrash: bool, retrySuccessful: bool,
                                         idempotentResult: Option<Answer>)

  /** The status of a crash test, as a function of what the store held and the boundary. */
  function StatusFor(t: Tables, id: string, boundary: Boundary): RecoveryStatus {
    if id !in t.records && (boundary.AfterDurableAcceptance? || boundary.AfterCommitBeforeAck?)
    then RecoveredClean else RecoveredRolledBack
  }

  /** run_crash_test with the engine's own invariants. A conflicting record is an error of the first call, which
      the test lets through. committed tells whether the first call committed a record. */
  method RunCrashTest(harness: DurableStoreHarness, id: string, payload: string, boundary: Boundary)
    returns (r: Option<RestartResult>, ghost committed: bool)
    requires Consistent(harness.Value())
    modifies harness
    ensures committed <==> id !in old(harness.records) && CommitsFirst(Some(boundary))
    ensures r.None? <==> id in old(harness.records) && old(harness.records)[id].payload != payload
    ensures r.None? ==> harness.Value() == old(harness.Value())
    ensures r.Some? ==>
              && !r.value.status.InvariantFailed? && r.value.failed == []
              && r.value.retrySuccessful && Consistent(harness.Value())
              && harness.Value() == (if id in old(harness.records) then old(harness.Value())
                                     else Committed(old(harness.Value()), id, payload))
              && r.value.status == StatusFor(old(harness.Value()), id, boundary)
              && (r.value.status.RecoveredClean? <==> r.value.acceptedBeforeCrash)
              && (r.value.idempotentResult.Some? && r.value.idempotentResult.value.AlreadyAccepted? <==>
                    committed || id in old(harness.records))
  {
    var crashed := false;
    var acceptedBeforeCrash := false;
    ghost var before := harness.Value();
    if id !in harness.records {
      CommitKeeps(before, id, payload);
    }
    var first := harness.AcceptRecord(id, payload, Some(boundary));
    committed := id !in before.records && id in harness.records;
    if first.ConflictingRetry? {
      return None, committed;
    }
    if first.Crashed? {
      crashed := true;
      if boundary.AfterDurableAcceptance? || boundary.AfterCommitBeforeAck? {
        acceptedBeforeCrash := true;
      }
    }
    var passed, failed := [], [];
    if HeadExists(Tables(harness.records, harness.head)) {
      passed := passed + ["NO_ORPHAN_UNACCEPTED_HEAD"];
    } else {
      failed := failed + ["NO_ORPHAN_UNACCEPTED_HEAD"];
    }
    if RecordsIntact(Tables(harness.records, harness.head)) {
      passed := passed + ["NO_TORN_RECORD"];
    } else {
      failed := failed + ["NO_TORN_RECORD"];
    }
    var retryOk := false;
    var retryResult: Option<Answer> := None;
    if failed == [] {
      var retry := harness.AcceptRecord(id, payload, None);
      if !retry.ConflictingRetry? {
        retryOk, retryResult := true, Some(retry);
      }
    }
    var status :=
      if failed != [] then InvariantFailed
      else if acceptedBeforeCrash then RecoveredClean
      else RecoveredRolledBack;
    return Some(RestartResult(status, passed, failed, acceptedBeforeCrash, retryOk, retryResult)), committed;
  }

  /** The status tells whether the first call committed, for every store and id, exactly when the boundary is not
      BEFORE_COMMIT on a fresh id: there the record is committed and the test reports a rollback. */
  lemma StatusTellsCommit(t: Tables, id: string, payload: string, boundary: Boundary, t': Tables, a: Answer)
    requires Accepts(t, id, payload, Some(boundary), t', a) && !a.ConflictingRetry?
    ensures (StatusFor(t, id, boundary).RecoveredClean? <==> t' != t) <==> !(boundary.BeforeCommit? && id !in t.records)
  {
    if id !in t.records {
      assert id in Committed(t, id, payload).records;
    }
  }

  /** A store and a boundary for which the report is wrong. */
  lemma BeforeCommitMisreported()
    ensures Accepts(EMPTY, "r", "p", Some(BeforeCommit), Committed(EMPTY, "r", "p"), Accepted("r", HashOf("p"), 1))
    ensures StatusFor(EMPTY, "r", BeforeCommit) == RecoveredRolledBack
    ensures Committed(EMPTY, "r", "p") != EMPTY
  {
    assert "r" in Committed(EMPTY, "r", "p").records;
  }
}
