# Verified model of the bdb_audit engines

This project models the algorithmic engines of the audit-automation package `bdb_audit` in Dafny and proves what
each of them promises. It is written beside the Python sources: one module per source file, in the form of that file.
Code that changes things step by step (queues, stacks, stores, caches) is imperative Dafny, proved against a
specification; code made of expressions is functions and lemmas.

- `StateModels`, `Exploration`: a guarded state machine and the bounded breadth-first explorer over it. The explorer takes
  every enabled transition, a replay only the first one; the theorems say which verdicts carry over.
- `ExecutionDag`, `EvidenceGraphs` (over `Digraphs`, `CycleLists`, `Ordering`): two cycle detectors (three colours; a recursion
  stack), which cycles the second one lists, the invalidation closure, and the support computed from what it leaves.
- `Finalization`, `FinalizationRuns`, `FinalizationInterleavings`, `FinalizationResume`: the conclusion of a campaign in three
  resumable boundaries over an append-only history, safety over every run with crashes and over every interleaving of
  lookups, acceptances and foreign commits, and the equivalence of calls resumed any number of times with an
  uninterrupted one.
- `JsonValues`, `JsonText`, `Utf8`, `CanonicalJson`, `Decimals`: canonical JSON (RFC 8259 sections 2, 4, 6 and 7; RFC 3629
  section 3), its byte budget, and the unique decimal and rational forms.
- `Concurrency`, `CrashRecovery`, `Adapters`, `Temporal`: interleavings and their cached replay, the durable store under
  crashes and retries, the shrinking test adapters, and the trace checker (the last two over `Subsequences`).
- `InteractionGraphs`, `Scheduler` (over `Combinations`, `Strings`), `Contribution`: invalidation and rebuilding of the failure
  interaction graph, the ranked schedules, and the contribution projection.
- `ZipPaths`, `ZipMetadata`, `ZipExpansion`, `ZipReader`: canonical member paths, the backward search for the end record, the
  run of a decompressor within a budget, and exactly which archives are read.

## How the model stands for the code

- Guards, effects, properties under test, systems under test, decompressors, checksums and the freshness check of a STOP are
  arbitrary total functions, given as parameters. Random draws are an arbitrary sequence of choices.
- A SHA-256 digest is an injective function of what it digests; fresh ids are parameters of a call. A SQLite transaction
  works on its own copy of the tables, which a commit installs and a crash discards.
- A history is the sequence of accepted records, commit by commit; the records of one kind in a commit stand in the order of
  their digests, as `accepted_records` sorts them. A cut is the number and policy of a head; heads are numbered upwards, so
  the number stands for the commit hash as well.
- A dictionary is a map where only lookups matter, and a list of entries where its order does.
- The explorer keys its visited set by the sorted `repr` of the variables (`_config_key`). Distinct configurations are taken to
  have distinct keys, so `visited` holds the configurations themselves.
- Exceptions are values: every refusal of the source is an error the model answers with.
- The scores of the scheduler are counted in halves and eighths, so no rounding takes place.

Where the code and its own words differ, the model follows the code:

- `add_edge` of the evidence graph is commented as failing closed, but it inserts the edge before it validates. A refused
  edge stays, and the graph then refuses every later edge (`EvidenceGraphs.RefusedForever`,
  `EvidenceGraphs.LoopIsRefusedAndStays`).
- `detect_cycles` is documented as detecting all cycles. It lists some whenever there are any, and every cycle runs along an
  edge on which a listed one closes, but it can miss one (`CycleLists.DiamondMissesOne`). It lists every simple cycle exactly
  when no two of them share an edge on which it closed one (`CycleLists.NothingMissedIff`); before the call, this is known where
  no edge is on two simple cycles (`CycleLists.SeparateCyclesAreListed`), and, where all cycles run through the least node, it
  is decided by the edges into that node (`CycleLists.ThroughLeastIff`).
- `run_crash_test` reports a rollback for the BEFORE_COMMIT boundary although the record was committed, because
  `accept_record` has no such boundary (`CrashRecovery.StatusTellsCommit`, `CrashRecovery.BeforeCommitMisreported`).
- A counterexample of the explorer need not fail when it is replayed, since a replay takes only the first enabled
  transition (`Exploration.ForkReplaysSafely`). It does where the transitions on an event agree along its trace
  (`Exploration.CounterexampleReplays`). For every model and every context-free trace, all that the explorer can follow is
  replayed to its end, forbidden or not, exactly where they agree (`Exploration.RunsReplayIff`,
  `Exploration.EveryRunReplaysIff`).
- Contradicting an edge of the interaction graph overwrites an invalidation and the other way round; the two commute
  exactly where the invalidation does not reach the edge (`InteractionGraphs.ContradictionCommutesIff`).
- Candidate ids and tie keys of the scheduler do not tell all combinations apart (`Scheduler.TieKeysCollide`): two have the same
  key exactly when their ids consist of the same pieces between underscores (`Scheduler.TieKeysCollideIff`). Where no eligible
  id holds an underscore there are no ties (`Scheduler.PlainIdsDoNotTie`); the schedule is a function of the nodes in any case.
- The interaction graph invalidates what an invalidation touches, but later calls can bring a VALID edge and an INVALIDATED
  node together again; `InteractionGraphs.KeepsSettledIff` says exactly which.
- `_metadata` slices before the end record with an index that can be negative. A locator signature found that way only
  ever rejects the archive, but at bytes 1 to 15 it does so with an error of `struct` (`ZipMetadata.StructErrorIff`).

## Model

| member | source | states |
|---|---|---|
| StateModels.Step | src/bdb_audit/deepen/state_model.py:155-217 | A step takes the first transition for the event whose guards pass, fires its effect, and is refused for a stale cut, an unknown state, no candidate, no passing guard, or the first forbidden state it enters, in that order. |
| StateModels.StepAnswersUnique | src/bdb_audit/deepen/state_model.py:155-217 | The search-free description of a step admits one answer only, so it determines what `step` does. |
| StateModels.Replay | src/bdb_audit/deepen/state_model.py:219-239 | A replay answers every configuration passed, or the error of the first step that fails with all steps before it succeeding. |
| StateModels.ReplaysUnique | src/bdb_audit/deepen/state_model.py:233-239 | Two successful replays of one trace pass through the same configurations. |
| Exploration.Explore | src/bdb_audit/deepen/exploration.py:82-230 | For every model and bounds the search ends and its report is true: EXHAUSTED means the visited set is exactly the reachable set, safe, each configuration expanded once; FORBIDDEN means a shortest run to a forbidden configuration; the depth bound means no forbidden configuration within that many steps and some visited one no nearer; the transition bound is reported on the first transition beyond it. |
| Exploration.Expand | src/bdb_audit/deepen/exploration.py:161-212 | Expanding the dequeued configuration visits all its successors one level deeper and keeps the search invariant, or stops with a true report at a forbidden successor or the transition bound. |
| Exploration.Frontier | src/bdb_audit/deepen/exploration.py:149-219 | When everything nearer than a depth is expanded, everything reachable in so many steps has been visited at no greater distance. |
| Exploration.SearchComplete | src/bdb_audit/deepen/exploration.py:149-219 | With the queue empty and nothing cut off, the visited set is the reachable set and the reported depth its greatest distance. |
| Exploration.Counterexample | src/bdb_audit/deepen/exploration.py:190-204 | The first forbidden successor met ends a run that no run to a forbidden configuration is shorter than. |
| Exploration.DepthBounded | src/bdb_audit/deepen/exploration.py:157-159 | When the depth bound was the last to stop the search, no forbidden configuration lies within the bound. |
| Exploration.FailedReplayIsRun | src/bdb_audit/deepen/state_model.py:209-239 | A context-free replay that raises FORBIDDEN_STATE_REACHED exhibits a run to a forbidden configuration of at most its length. |
| Exploration.SafeMeansNoReplayFails | src/bdb_audit/deepen/state_model.py:219-239 | Where the explorer found the model safe to a depth, no context-free replay of at most that length raises FORBIDDEN_STATE_REACHED. |
| Exploration.ExhaustedMeansNoReplayFails | src/bdb_audit/deepen/exploration.py:214-230 | After an exhausted search no context-free replay of any length raises FORBIDDEN_STATE_REACHED, and every configuration it passes was visited. |
| Exploration.CounterexampleReplays | src/bdb_audit/deepen/exploration.py:190-204 | Where the transitions on each event of the reported trace agree in the configurations along it, replaying it raises FORBIDDEN_STATE_REACHED with the reported id, at its last step and at none before. |
| Exploration.ForkReplaysSafely | src/bdb_audit/deepen/state_model.py:183-193 | Agreement is needed: a model whose shortest counterexample replays without any error, two transitions on its event not agreeing. |
| Exploration.RunsReplayIff | src/bdb_audit/deepen/exploration.py:161-212 | For every context-free trace: its runs and those of its beginnings that meet nothing forbidden before their ends are all replayed to their ends, into the configuration or into the error that reports it, exactly when transitions agree along the trace: wherever such a run leads, those on the next event lead to one configuration or to forbidden ones of one id. |
| Exploration.EveryRunReplaysIff | src/bdb_audit/deepen/exploration.py:161-212 | For every model: all runs that the explorer can follow, those into forbidden configurations included, are replayed to their ends exactly when transitions agree everywhere. |
| ExecutionDag.ValidateExecutionDag | src/bdb_audit/execution/dag.py:21-63 | A parsed edge list is rejected exactly when the relation it denotes has a cycle; an accepted one is answered with its sorted nodes and the number of edges. |
| ExecutionDag.ColourSearch.Dfs | src/bdb_audit/execution/dag.py:42-51 | The nested search ends, answers true only on a cycle, and otherwise blackens the node with all it leads to, keeping gray nodes a walk and black nodes ranked. |
| ExecutionDag.BuildAdjacency | src/bdb_audit/execution/dag.py:28-35 | The adjacency lists denote the relation of the edge list, and the node set its endpoints. |
| ExecutionDag.AllBlack | src/bdb_audit/execution/dag.py:53-56 | When every node is black the relation has no cycle. |
| Digraphs.RankedIsAcyclic | src/bdb_audit/execution/dag.py:42-56 | A ranking that falls along every edge rules cycles out; both detectors rest on it. |
| EvidenceGraphs.EvidenceGraph.AddNode | src/bdb_audit/evidence/graph.py:161-183 | Adding a node refuses a duplicate id and an unknown type, and otherwise adds it without edges. |
| EvidenceGraphs.EvidenceGraph.AddEdge | src/bdb_audit/evidence/graph.py:192-204 | Adding an edge refuses missing ends and unknown relations, and otherwise inserts it and reports a cycle exactly when the graph with the edge has one. |
| EvidenceGraphs.EvidenceGraph.DetectCycles | src/bdb_audit/evidence/graph.py:206-230 | The list of cycles is non-empty exactly when the dependencies have a cycle; its entries are simple cycles that run down one tree of visits, and without the edges on which they close no cycle is left. |
| EvidenceGraphs.CycleSearch.Dfs | src/bdb_audit/evidence/graph.py:212-224 | The recursion keeps its stack a walk and a path of the tree of visits; the nodes it has left are ranked along all dependencies but those on which a recorded cycle closes. |
| CycleLists.EveryCycleIsCut | src/bdb_audit/evidence/graph.py:206-230 | Every closed walk of the dependencies runs along an edge on which a listed cycle closes. |
| CycleLists.NothingMissedIff | src/bdb_audit/evidence/graph.py:206-230 | Every simple cycle is listed exactly when no two simple cycles share an edge on which the search closed one. |
| CycleLists.SeparateCyclesAreListed | src/bdb_audit/evidence/graph.py:206-230 | Where no edge is on two simple cycles, every simple cycle is listed. |
| CycleLists.SharedIntoLeastIsMissed | src/bdb_audit/evidence/graph.py:206-230 | Of two simple cycles that share an edge into the least node, at least one is missed. |
| CycleLists.ThroughLeastIff | src/bdb_audit/evidence/graph.py:206-230 | Where every cycle runs through the least node, all are listed exactly when no two share an edge into it. |
| CycleLists.DiamondMissesOne | src/bdb_audit/evidence/graph.py:206-230 | A graph with two cycles of which the search lists one only. |
| EvidenceGraphs.AcyclicUntilRefused | src/bdb_audit/evidence/graph.py:192-237 | In every run of the class both adjacency maps agree, and the graph is acyclic exactly as long as no edge has been refused for a cycle. |
| EvidenceGraphs.RefusedForever | src/bdb_audit/evidence/graph.py:198-204 | After one cycle rejection every later `add_edge` is refused, with the cycle error unless its arguments are wrong already. |
| EvidenceGraphs.LoopIsRefusedAndStays | src/bdb_audit/evidence/graph.py:192-204 | A run in which a loop is refused but stays, so that an edge is refused that the graph without the loop takes. |
| EvidenceGraphs.EvidenceGraph.PropagateInvalidation | src/bdb_audit/evidence/graph.py:247-305 | Exactly the roots and every node with a path of dependencies to a root are marked, roots and dependents each in their way, all else is unchanged, and the report lists and counts them; an unknown root is refused with nothing changed. |
| EvidenceGraphs.EvidenceGraph.Degrade | src/bdb_audit/evidence/graph.py:279-298 | One round of the queue marks the unvisited dependents of the dequeued node, each once, and keeps the closure invariant. |
| EvidenceGraphs.EvidenceGraph.CalculateCurrentSupport | src/bdb_audit/evidence/graph.py:307-355 | The three lists hold, in order, the qualifications of the claim by their bearing, and the status follows from which are empty. |
| EvidenceGraphs.SupportAfter | src/bdb_audit/evidence/graph.py:279-355 | After an invalidation the supporting and the refuting qualifications are those before it, less everything in the closure of the roots. |
| EvidenceGraphs.FlagAfter | src/bdb_audit/evidence/graph.py:272-298 | A completion flag survives an invalidation exactly outside the closure. |
| EvidenceGraphs.FlagsAfterAll | src/bdb_audit/evidence/graph.py:247-298 | After any number of invalidations a completion flag is left exactly outside the closure of all their roots. |
| EvidenceGraphs.OrderDoesNotMatter | src/bdb_audit/evidence/graph.py:247-298 | Completion flags do not depend on the order in which any number of root sets are propagated, nor on propagating them together. |
| Finalization.FinalizationService.ConcludeCampaign | src/bdb_audit/assurance/residual_risk_finalization.py:313-350 | A call leaves, acceptance by acceptance, the histories of the specification and gives its answer, on the zero-risk and the residual-risk path alike. |
| Finalization.FinalizationService.ConcludePlanned | src/bdb_audit/assurance/finalization_service.py:369-414 | From the settled STOP, the first boundary finds a matching conclusion or accepts one, and the rest follows from where it leaves the history. |
| Finalization.FinalizationService.FinishCampaign | src/bdb_audit/assurance/finalization_service.py:416-554 | The second boundary finds or accepts a final case, and the third follows against the history as it stands then. |
| Finalization.FinalizationService.QualifyRelease | src/bdb_audit/assurance/finalization_service.py:474-539 | The third boundary refuses a head without a policy or under another policy than the STOP froze, and otherwise finds a matching qualification or accepts one against the refreshed history. |
| Finalization.FinalizationService.AcceptOne | src/bdb_audit/assurance/finalization_service.py:155-176 | An artifact drawn from another cut than the head's is refused with nothing changed; otherwise the history stays a prefix and one record follows, numbered one more than the old head and under its policy. |
| FinalizationRuns.EveryRunIsSound | src/bdb_audit/assurance/finalization_service.py:264-554 | Over every run of calls, crashes after any acceptance and foreign commits: at most one conclusion, final case and materializing qualification per STOP, each resting on an earlier one, carrying its STOP's risks, and COMPLETED only on PASS with adequate assurance. |
| FinalizationInterleavings.DrawnIsAdmittedIff | src/bdb_audit/history/store.py:333-408 | What a boundary draws after an empty lookup is admitted exactly when nothing has been accepted since the lookup, and then the boundary does what it would do in one step. |
| FinalizationInterleavings.InterleavingIsCoarse | src/bdb_audit/assurance/finalization_service.py:369-539 | Every interleaving of lookups, acceptances, foreign commits and crashes, over any number of calls, is one in which each boundary is a single step. |
| FinalizationInterleavings.EveryInterleavingIsSafe | src/bdb_audit/assurance/finalization_service.py:264-554 | In every state of every such interleaving no STOP has two conclusions, final cases or materializing qualifications, each is honest about its STOP, and each call past a boundary holds records that stand in the history and rest on one another. |
| FinalizationInterleavings.FinishedCallsAgree | src/bdb_audit/assurance/finalization_service.py:369-554 | Calls for one STOP that finish, whenever they do and however they are interleaved, finish with the same three records. |
| FinalizationRuns.ConcludeSound | src/bdb_audit/assurance/finalization_service.py:264-554 | From a sound history every history a call passes through is sound and extends it, and a report names records that stand in the history. |
| FinalizationRuns.FinishedCall | src/bdb_audit/assurance/residual_risk_finalization.py:110-310 | A finished call has three strictly ascending sequence numbers, digests that chain to one STOP, the risk set of the STOP input in all three artifacts, and COMPLETED only with PASS, adequate assurance and the STOP's readiness. |
| FinalizationRuns.FinishedCallSays | src/bdb_audit/assurance/finalization_service.py:264-554 | A finished call settled the latest STOP, which was current, and its three artifacts, accepted or found, say what was asked and what the STOP pinned: statement, termination state, source generation, candidate, challengers and release policy. |
| FinalizationRuns.ConclusionKeeps | src/bdb_audit/assurance/finalization_service.py:369-414 | The first boundary keeps soundness and leaves a conclusion of the planned STOP. |
| FinalizationRuns.FinalCaseKeeps | src/bdb_audit/assurance/finalization_service.py:416-472 | The second boundary keeps soundness and leaves a final case that rests on the conclusion. |
| FinalizationRuns.QualificationKeeps | src/bdb_audit/assurance/finalization_service.py:474-539 | The third boundary keeps soundness and leaves a qualification that rests on the final case. |
| FinalizationResume.Resumption | src/bdb_audit/assurance/finalization_service.py:369-554 | Wherever a call is cut off, calling again with the same arguments leaves the history and gives the answer of a call that was never cut off, each fresh id being drawn by one of the two. |
| FinalizationResume.EveryResumption | src/bdb_audit/assurance/finalization_service.py:369-554 | However often a call is cut off, the last of its repetitions gives the answer, and leaves the history, of one call that was never cut off. |
| FinalizationResume.FinishedCallRepeats | src/bdb_audit/assurance/finalization_service.py:371-554 | Repeating a finished call appends nothing and gives the same report, digests included. |
| JsonValues.Validate | src/bdb_audit/core/canonical_json.py:37-69 | The answer is the first offence in traversal order, unless a budget is set and runs out before it; a valid value passes exactly when its cost fits, and the cell is left lower by that cost. |
| JsonValues.SameIffCanon | src/bdb_audit/core/canonical_json.py:78-79 | Two values are equal, dictionaries without regard to insertion order, exactly when their sorted forms are identical. |
| JsonText.ParsePrinted | src/bdb_audit/core/canonical_json.py:78-118 | Parsing a printed value gives it back and stops where it ends, whatever follows it. |
| JsonText.DocumentRoundTrip | src/bdb_audit/core/canonical_json.py:111-120 | A printed document parses to the value it was printed from. |
| Utf8.DecodeEncode | src/bdb_audit/core/canonical_json.py:83-117 | Strict decoding undoes encoding on all text without surrogates. |
| CanonicalJson.CanonicalBytes | src/bdb_audit/core/canonical_json.py:72-89 | However the encoder cuts up its output, a valid value is refused for size exactly when its encoding is longer than the limit, and is otherwise encoded in full; an invalid one is refused for its first offence, or for size if what precedes that takes more than the limit. |
| CanonicalJson.CostBelowEncoding | src/bdb_audit/core/canonical_json.py:37-64 | The budget that validation takes never exceeds the length of the encoding. |
| CanonicalJson.RoundTrip | src/bdb_audit/core/canonical_json.py:72-122 | `parse(canonical_bytes(v))` equals `v` for every valid value and every limit its bytes fit. |
| CanonicalJson.BytesDecideEquality | src/bdb_audit/core/canonical_json.py:72-89 | Two valid values have the same bytes exactly when they are equal. |
| CanonicalJson.ParseThenEncode | src/bdb_audit/core/canonical_json.py:92-122 | Whatever `parse` accepts is a valid value, and its canonical bytes parse to an equal one. |
| Decimals.ReadingUnique | src/bdb_audit/core/canonical_json.py:22-26 | A string matches the pattern of `decimal` in one way only. |
| Decimals.DecimalUnique | src/bdb_audit/core/canonical_json.py:22-26 | Two accepted decimal strings that denote the same number are identical. |
| Decimals.Euclid | src/bdb_audit/core/canonical_json.py:32-33 | What divides a product and is prime to one factor divides the other. |
| Decimals.RationalUnique | src/bdb_audit/core/canonical_json.py:29-34 | Two accepted fractions with equal cross products are the same pair. |
| Concurrency.GenerateSchedule | src/bdb_audit/deepen/concurrency.py:138-182 | For every sequence of draws the points interleave the programs, every actor's steps in order and once, and every turn goes to the drawn active actor; it fails exactly on no actors or an unknown location. |
| Concurrency.EveryInterleaving | src/bdb_audit/deepen/concurrency.py:159-173 | Every interleaving of the programs is produced by some draws, and those draws produce no other. |
| Concurrency.ChoicesDetermine | src/bdb_audit/deepen/concurrency.py:159-173 | The draws determine the interleaving. |
| Concurrency.ScheduleReplayEngine.Replay | src/bdb_audit/deepen/concurrency.py:184-238 | A replay refuses a stale cut and a reused id with another digest, answers a known schedule from the cache, and otherwise runs the target on every point in order and caches the result. |
| Concurrency.AtMostOnce | src/bdb_audit/deepen/concurrency.py:198-238 | Over every run of completed replays the target is run at most once per schedule id, and exactly for the cached ids. |
| Concurrency.CacheIsStable | src/bdb_audit/deepen/concurrency.py:199-238 | A cached result is never overwritten. |
| Concurrency.ReplayIsIdempotent | src/bdb_audit/deepen/concurrency.py:196-206 | Replaying a schedule again gives the first result, whatever the target; another schedule under its id is refused. |
| CrashRecovery.DurableStoreHarness.AcceptRecord | src/bdb_audit/deepen/crash.py:121-193 | An acceptance answers a known record or refuses a conflicting one without change, commits record and head together, or crashes with exactly what was committed by then. |
| CrashRecovery.AlwaysConsistent | src/bdb_audit/deepen/crash.py:121-234 | In every state of every run, crashes included, the head names a record, no record is torn, and the version counts the records. |
| CrashRecovery.RecordsStay | src/bdb_audit/deepen/crash.py:130-147 | A committed record stays as it was committed. |
| CrashRecovery.ExactlyOnce | src/bdb_audit/deepen/crash.py:121-193 | Of all calls for one id, crashed and retried in any way, at most one commits, and after any call that does not crash one has. |
| CrashRecovery.RetryTakesEffectOnce | src/bdb_audit/deepen/crash.py:130-187 | A retry after a crash leaves the store as one uninterrupted acceptance would. |
| CrashRecovery.RunCrashTest | src/bdb_audit/deepen/crash.py:236-292 | The crash test never fails an invariant, its retry succeeds, the record is in the store once, and the status is as `StatusFor` says; a conflicting record is the one case where the test itself raises. |
| CrashRecovery.StatusTellsCommit | src/bdb_audit/deepen/crash.py:276-281 | The status tells whether the first call committed, exactly when the boundary is not BEFORE_COMMIT on a fresh id. |
| CrashRecovery.BeforeCommitMisreported | src/bdb_audit/deepen/crash.py:175-281 | A store, record and boundary for which the record is committed and a rollback is reported. |
| Adapters.ShrinkInt | src/bdb_audit/deepen/adapters.py:167-175 | Shrinking an integer ends in a failing one no larger, for which zero, half and one less all pass, or where the next of these makes the property raise. |
| Adapters.ShrunkIntIsLeast | src/bdb_audit/deepen/adapters.py:169-175 | Where failures are upward closed, the shrunk integer is the least failing one. |
| Adapters.ShrinkList | src/bdb_audit/deepen/adapters.py:176-182 | A shrunk list is a failing subsequence that passes after any single removal; shrinking stops early only at a removal that makes the property raise. |
| Adapters.RunPropertyTest | src/bdb_audit/deepen/adapters.py:116-165 | A property test passes exactly when every drawn case does, stops at the first that does not, and hands back its shrinking; it raises only where the property raises on that case or while it is shrunk, and counts out of range are refused. |
| Adapters.ReproducesFailure | src/bdb_audit/deepen/adapters.py:323-341 | A trace reproduces exactly when, from what a reset makes of the system's state, model or system raises or they report different states along it. |
| Adapters.ShrinkTrace | src/bdb_audit/deepen/adapters.py:304-321 | A shrunk trace is a subsequence ending in the same action; unless it is the whole prefix it has been run and failed, and with any single earlier action dropped it has been run without failing, each time from a state the system was in. |
| Adapters.ExecuteStatefulTest | src/bdb_audit/deepen/adapters.py:230-302 | A stateful test passes exactly when model and system agree throughout, and otherwise names the first action on which they part and a shrunk trace of the prefix; it looks at permitted actions only and ends in the state the model reached. |
| Adapters.FailedTestReproduces | src/bdb_audit/deepen/adapters.py:257-321 | Where reset always leads back to where the test started, the trace of a failed test shows the failure on every later run, ends in the failing action, and does not show it with any single earlier action dropped. |
| Temporal.Evaluate | src/bdb_audit/deepen/temporal.py:70-160 | Each of the six relations decides its quantified definition on every trace and reports the first offence, a strict order the longest prefix that can be embedded. |
| Temporal.EvaluatePrerequisite | src/bdb_audit/deepen/temporal.py:73-102 | The scan finds the first event without its prerequisite before it, if there is one. |
| Temporal.EvaluateFollow | src/bdb_audit/deepen/temporal.py:104-158 | The scan finds the first event that is not followed in time, if there is one. |
| Temporal.EvaluateNever | src/bdb_audit/deepen/temporal.py:117-128 | The scan finds a forbidden follow-up of the earliest trigger that has one. |
| Temporal.EvaluateOrder | src/bdb_audit/deepen/temporal.py:130-144 | The greedy scan succeeds exactly when the sequence is a subsequence of the trace, and otherwise reports how long a prefix can be embedded. |
| Temporal.EvaluateTrace | src/bdb_audit/deepen/temporal.py:199-223 | A trace of another cut is refused; otherwise exactly the violated constraints are listed, in order, each with its first offence. |
| Temporal.NoViolationIffSatisfied | src/bdb_audit/deepen/temporal.py:221-223 | The answer is SATISFIED exactly when every constraint holds of the trace. |
| Temporal.BoundedFollowWeakens | src/bdb_audit/deepen/temporal.py:104-158 | A follow-up within k steps implies one within k + 1, and one at all. |
| Temporal.PrefixClosed | src/bdb_audit/deepen/temporal.py:73-128 | BEFORE, AFTER and MUST_NEVER_FOLLOW, where they hold of a trace, hold of each of its prefixes. |
| Temporal.StrictOrderPersists | src/bdb_audit/deepen/temporal.py:130-144 | A strict order, once satisfied, stays so as the trace goes on. |
| Combinations.HowMany | src/bdb_audit/attack/scheduler.py:173-173 | The k-element combinations of n nodes number the binomial coefficient. |
| Combinations.ExactlyThePicks | src/bdb_audit/attack/scheduler.py:173-173 | The combinations of an ascending list are exactly its ascending k-element sublists. |
| Combinations.ListedOnce | src/bdb_audit/attack/scheduler.py:173-173 | No combination is listed twice. |
| InteractionGraphs.FailureInteractionGraph.AddNode | src/bdb_audit/attack/interaction_graph.py:181-188 | A node of another cut is refused; otherwise it is added or replaced. |
| InteractionGraphs.FailureInteractionGraph.AddEdge | src/bdb_audit/attack/interaction_graph.py:190-210 | An edge is refused for another cut, for the first endpoint that is not a node, or for its order, in that order, and otherwise added. |
| InteractionGraphs.TakenIffFits | src/bdb_audit/attack/interaction_graph.py:190-210 | An edge is taken exactly when its cut is the graph's, all its endpoints are nodes, and no more than the greatest order. |
| InteractionGraphs.FailureInteractionGraph.ApplyInvalidations | src/bdb_audit/attack/interaction_graph.py:212-272 | Nodes that lose support are invalidated, then edges that lose support or touch an invalid node; the count is the number of nodes and edges that differ afterwards. |
| InteractionGraphs.WhatIsInvalid | src/bdb_audit/attack/interaction_graph.py:215-271 | Which nodes and edges are invalid afterwards, from before, for every graph. |
| InteractionGraphs.InvalidationSettles | src/bdb_audit/attack/interaction_graph.py:240-271 | Afterwards no VALID edge touches an INVALIDATED node. |
| InteractionGraphs.ContradictionKeepsSettled | src/bdb_audit/attack/interaction_graph.py:274-292 | Contradicting an edge does not bring such an edge about. |
| InteractionGraphs.KeepsSettledIff | src/bdb_audit/attack/interaction_graph.py:181-292 | Of all calls on a graph where no VALID edge touches an INVALIDATED node, exactly those keep it so that neither put an INVALIDATED node under a VALID edge nor a VALID edge onto an INVALIDATED node. |
| InteractionGraphs.InvalidationsCompose | src/bdb_audit/attack/interaction_graph.py:212-272 | Invalidating by one set and then by another equals invalidating by their union. |
| InteractionGraphs.CountsAddUp | src/bdb_audit/attack/interaction_graph.py:214-272 | The counts of the two add up to the count of the union. |
| InteractionGraphs.ContradictionCommutesIff | src/bdb_audit/attack/interaction_graph.py:212-292 | Contradicting an edge before or after an invalidation gives the same graph exactly when the invalidation does not reach the edge. |
| InteractionGraphs.FailureInteractionGraph.GenerateCandidateCombinations | src/bdb_audit/attack/interaction_graph.py:320-344 | An order above the greatest is refused; otherwise the first combinations of the eligible nodes are listed, as many as there are or as the bound allows, but one at least where there is one. |
| InteractionGraphs.FailureInteractionGraph.ExportCanonical | src/bdb_audit/attack/interaction_graph.py:346-360 | The export lists nodes and edges by ascending id. |
| InteractionGraphs.FailureInteractionGraph.Rebuild | src/bdb_audit/attack/interaction_graph.py:366-404 | Rebuilding adds nodes and then edges in the order listed and stops at the first error. |
| InteractionGraphs.RebuildInvertsExport | src/bdb_audit/attack/interaction_graph.py:346-404 | Rebuilding the export of a coherent graph gives that graph. |
| InteractionGraphs.EveryGraphRebuilds | src/bdb_audit/attack/interaction_graph.py:156-404 | Whatever calls were made on a graph, its export rebuilds it, so the rebuilt graph exports the same. |
| Scheduler.ScoreCandidate | src/bdb_audit/attack/scheduler.py:108-154 | A candidate is scored by its weights, its families and critical nodes, and whether any pair in it is uncovered, and carries the obligations of its nodes in order. |
| Scheduler.SelectNodes | src/bdb_audit/attack/scheduler.py:191-225 | The nodes admitted to a width are listed ascending, whatever order the dictionary has. |
| Scheduler.ScheduleWidth | src/bdb_audit/attack/scheduler.py:156-232 | A schedule is determined by the nodes, the covered pairs, the obligations and the budget; the insertion order of the nodes does not enter. |
| Scheduler.ScheduleSize | src/bdb_audit/attack/scheduler.py:165-178 | A schedule has the budget or the binomial coefficient of the eligible nodes, whichever is less; a negative budget takes that many off. |
| Scheduler.ScheduleRanked | src/bdb_audit/attack/scheduler.py:176-178 | A schedule is in order of rank, then of tie key. |
| Scheduler.NothingBetterLeftOut | src/bdb_audit/attack/scheduler.py:176-178 | Every combination left out ranks no earlier than every one kept. |
| Scheduler.ScheduledIsSchedulable | src/bdb_audit/attack/scheduler.py:172-178 | Every scheduled candidate is the score of a combination of eligible nodes. |
| Scheduler.ScheduledOnce | src/bdb_audit/attack/scheduler.py:172-178 | No combination is scheduled twice. |
| Scheduler.StableSortedIsStable | src/bdb_audit/attack/scheduler.py:177-177 | Candidates with equal sort keys stay in the order of generation. |
| Scheduler.TieKeysCollideIff | src/bdb_audit/attack/scheduler.py:141-153 | Two combinations have one tie key exactly when their ids, cut at underscores, give the same list of pieces. |
| Scheduler.TieKeysCollide | src/bdb_audit/attack/scheduler.py:141-153 | Two combinations with one tie key. |
| Scheduler.PlainIdsDoNotTie | src/bdb_audit/attack/scheduler.py:141-178 | Where no eligible id holds an underscore, no two scheduled candidates share a tie key and the schedule is strictly ordered by rank and key. |
| Contribution.BuildContributionProjection | src/bdb_audit/adjudication/contribution.py:121-280 | The projection describes exactly the producers that occur, with their findings, counts, root causes and statuses, and the totals count the relations behind them. |
| Contribution.GatherProducers | src/bdb_audit/adjudication/contribution.py:152-181 | The loops over discoveries and claims gather, for every finding with a producer, exactly its producers. |
| Contribution.LeaveOneOut | src/bdb_audit/adjudication/contribution.py:227-232 | The leave-one-out loss is what a recount without the producer comes short by, in findings and in root causes with a producer. |
| Contribution.CoverageDelta | src/bdb_audit/adjudication/contribution.py:234-235 | The coverage delta counts the obligations that nobody covers once the producer is taken away. |
| Contribution.UniquePlusSupport | src/bdb_audit/adjudication/contribution.py:220-225 | Unique and support counts add up to the producer's findings. |
| Contribution.UniqueCountsAddUp | src/bdb_audit/adjudication/contribution.py:270-276 | The unique counts of all producers add up to the total of unique findings. |
| ZipPaths.CanonicalIsFixed | src/bdb_audit/assurance/zip_safety.py:57-65 | A canonical path is safe, relative, free of empty, dot and dot-dot components, and its own canonical path. |
| ZipPaths.SameKeyIffSameParts | src/bdb_audit/assurance/zip_safety.py:57-65 | Two acceptable names normalize to one path exactly when they have the same components. |
| ZipMetadata.FindEnd | src/bdb_audit/assurance/zip_safety.py:70-77 | The backward search finds the greatest valid end record of the whole file, and finds none only if there is none, though it looks at the last 65557 bytes only. |
| ZipMetadata.Metadata | src/bdb_audit/assurance/zip_safety.py:68-96 | The answer is the verdict on the last end record, and a missing record is reported exactly when the file holds none. |
| ZipMetadata.AcceptedDirectoryFits | src/bdb_audit/assurance/zip_safety.py:78-96 | An accepted directory keeps to its quotas and ends before the record, classic or ZIP64, that declares it. |
| ZipMetadata.WrappedLocatorRejects | src/bdb_audit/assurance/zip_safety.py:84-87 | A locator signature found by a slice that wraps round can only reject the archive. |
| ZipMetadata.StructErrorIff | src/bdb_audit/assurance/zip_safety.py:84-85 | Unpacking the locator itself fails exactly for a wrapped signature before an end record at bytes 1 to 15 of an unsplit archive. |
| ZipMetadata.StructErrorHappens | src/bdb_audit/assurance/zip_safety.py:84-85 | Such an archive exists. |
| ZipExpansion.ExpandStored | src/bdb_audit/assurance/zip_safety.py:137-162 | For stored members the chunk loop is the plain slice, refused exactly when it is longer than the ceiling. |
| ZipExpansion.ExpandCoded | src/bdb_audit/assurance/zip_safety.py:137-167 | For every decompressor that honours its limit the loop ends as the run of the decoder over the data ends, from the decoder's start and with the inputs and limits the loop feeds it, and never holds more than the ceiling and one byte; a result is all that the data mean, and a refusal for size says that this is more than the ceiling. |
| ZipExpansion.OneEnding | src/bdb_audit/assurance/zip_safety.py:137-167 | The run of a decoder over given data under a ceiling ends in one way, so that a member whose run finishes is not one whose run ends in refusal. |
| ZipExpansion.OrderlyNeverRefused | src/bdb_audit/assurance/zip_safety.py:137-167 | Data that are well formed for the decoder are never refused but for their size, whatever pieces the ceiling cuts the output into. |
| ZipReader.FinishedIsNotCorrupt | src/bdb_audit/assurance/zip_safety.py:99-170 | A member with the declared size and checksum that is stored, or whose decoder uses up the data as it ends, gives no reason for an integrity refusal. |
| ZipReader.WellFormedIsNotCorrupt | src/bdb_audit/assurance/zip_safety.py:99-170 | Nor does one whose data are well formed for its decoder. |
| ZipReader.Expanded | src/bdb_audit/assurance/zip_safety.py:99-170 | A member is expanded exactly when it neither overflows nor is corrupt, and is refused for size exactly in the first case and for integrity exactly in the second: it overflows when its dictionary is too large or its content exceeds the ceiling before its decoder refuses, and is otherwise corrupt when its content is not of the declared size and checksum or its decoder refuses. |
| ZipReader.ReadMember | src/bdb_audit/assurance/zip_safety.py:216-225 | A member is refused for size exactly when it declares more than the member, total or ratio budget, or opens and overflows the smallest of them; for integrity exactly when it declares no more but does not open or is corrupt under that ceiling; and is read otherwise. |
| ZipReader.ReadBytes | src/bdb_audit/assurance/zip_safety.py:173-229 | An archive is read exactly when it is small enough, its last end record is accepted and counts the listing, and no member has a fault; the members returned total at most the expansion limit, each genuine and within its limits, no two of one path, none missing but those skipped for an unsafe or repeated name where errors are collected. An archive that is not read has one error: of its size, its end record, its count or the first member with a fault, whichever comes first. |

## Left out

- ZipExpansion.ExpandCoded: which data are well formed for deflate, bzip2, LZMA or Zstandard is not modelled, since decoders are parameters.
- ZipReader.ReadBytes: takes the directory listing and the opening of members from the archive library as given; errors are codes, not their messages.
- ExecutionDag.ValidateExecutionDag: starts from parsed edges; the splitting and stripping of edge strings in `parse_edges` is not modelled.
- Adapters.ExecuteStatefulTest: cleanup callbacks and a reset that raises are not modelled; a system without reset has one that changes nothing.
- Adapters.RunPropertyTest: takes generated values as a given sequence, and integers, lists and atoms as their kinds; a generator that raises is not modelled.
- Concurrency.ScheduleReplayEngine.Replay: replays that a raising target interrupts are not modelled; they cache nothing.
- EvidenceGraphs.EvidenceGraph.AddNode: nodes are values held by the graph; a caller that keeps and changes a node it was handed is not modelled.
- FinalizationResume.Resumption: assumes of the freshness check that it disregards finalization's own artifacts, which is how `src/bdb_audit/stop/operation.py:98-108` lists them as administrative.
- FinalizationRuns.EveryRunIsSound: other writers append records that are not artifacts of a STOP's finalization; a writer outside the service that forges one is not modelled.
- Exploration.Explore: returns at the transition bound where the source sets a flag and leaves two loops; a model object without states or transitions cannot be written.
- Contribution.BuildContributionProjection: references are their digests; the extraction of digests from records, producer records, lanes and the order of root-cause references are not modelled.
- Scheduler.ScoreCandidate: scores are exact numbers, not floats; the record of a candidate and its digest are not modelled.
- Guards, effects and conditions that raise or change shared state, and contexts other than those a trace carries.
- Python specifics of canonical JSON: dictionary keys that are not strings, shared or cyclic containers, recursion limits, the digit limit of `int`, and the equality of `True` with `1`.
- SHA-256, uuid, time stamps, SQLite locking, the admission checks of the coordinator and the store other than the comparison of input cuts with the head, the STOP evaluator and the normalization of policy tokens to digests.
- `check_stale`, `query_interactions`, `generate_sequence`, `create_successor`, observations built from results, record bodies: single readings of fields with no property beyond their bodies.
- Reading the file from disk and closing it (`snapshot`, `read_zip`), and the parsing of member headers that the archive library does.
- Legacy document heuristics, command line, terminal interface, release validation and synthetic benchmarks: input and output or fixed scenarios.
