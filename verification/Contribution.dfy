/** adjudication/contribution.py: who contributed what, and what would be lost without each producer. */
module Contribution {
  import opened Wrappers
  import opened Ordering

  datatype Lifecycle = ConfirmedCurrent | OpenFinding | Rejected | OtherLifecycle(name: string)

  /** A discovery or a claim, with the producer it is attributed to, if any. */
  datatype Attribution = Attribution(finding: string, producer: Option<string>)

  datatype RootCause = RootCause(id: string, members: seq<string>)

  datatype Coverage = Coverage(key: string, evidence: seq<string>)

  datatype Facts = Facts(adjudications: seq<(string, Lifecycle)>, discoveries: seq<Attribution>,
                         claims: seq<Attribution>, rootCauses: seq<RootCause>, coverage: seq<Coverage>)

  type ProducerMap = map<string, set<string>>

  // ----- the facts, as relations -----

  ghost function Attributions(facts: Facts): seq<Attribution> {
    facts.discoveries + facts.claims
  }

  /** The producers a finding is attributed to. */
  ghost function ProducersOf(as_: seq<Attribution>, finding: string): set<string> {
    set i | 0 <= i < |as_| && as_[i].finding == finding && as_[i].producer.Some? :: as_[i].producer.value
  }

  /** The findings that have a producer. */
  ghost function Findings(as_: seq<Attribution>): set<string> {
    set i | 0 <= i < |as_| && as_[i].producer.Some? :: as_[i].finding
  }

  ghost function AllProducers(as_: seq<Attribution>): set<string> {
    set i | 0 <= i < |as_| && as_[i].producer.Some? :: as_[i].producer.value
  }

  /** The producers of any of the findings. */
  ghost function ProducersOfAny(as_: seq<Attribution>, findings: seq<string>): set<string> {
    set i, p | 0 <= i < |findings| && p in ProducersOf(as_, findings[i]) :: p
  }

  /** The producers behind each root cause; of two entries for one root cause, the later counts. */
  ghost function RootCauseProducers(as_: seq<Attribution>, rcs: seq<RootCause>): ProducerMap {
    if rcs == [] then map[]
    else
      var n := |rcs| - 1;
      RootCauseProducers(as_, rcs[..n])[rcs[n].id := ProducersOfAny(as_, rcs[n].members)]
  }

  /** The producers behind each obligation; entries for one obligation add up. */
  ghost function CoverageProducers(as_: seq<Attribution>, cs: seq<Coverage>): ProducerMap {
    if cs == [] then map[]
    else
      var n := |cs| - 1;
      var before := CoverageProducers(as_, cs[..n]);
      var more := ProducersOfAny(as_, cs[n].evidence);
      if more == {} then before
      else before[cs[n].key := (if cs[n].key in before then before[cs[n].key] else {}) + more]
  }

  ghost function StatusOf(adjudications: seq<(string, Lifecycle)>, finding: string): Option<Lifecycle> {
    if adjudications == [] then None
    else
      var n := |adjudications| - 1;
      if adjudications[n].0 == finding then Some(adjudications[n].1) else StatusOf(adjudications[..n], finding)
  }

  /** The entries that p alone stands behind. */
  function SoleEntries(m: ProducerMap, p: string): set<string> {
    set k | k in m && m[k] == {p}
  }

  /** The entries that p stands behind, alone or with others. */
  function Entries(m: ProducerMap, p: string): set<string> {
    set k | k in m && p in m[k]
  }

  function SharedEntries(m: ProducerMap, p: string): set<string> {
    set k | k in m && p in m[k] && |m[k]| > 1
  }

  // ----- the projection -----

  datatype ProducerContribution = ProducerContribution(
    discoveries: seq<string>, uniqueDiscoveries: seq<string>, uniqueCount: nat, supportCount: nat,
    leaveOneOutLoss: nat, coverageDelta: nat, rootCauses: set<string>, soundCount: nat, rejectedCount: nat)

  datatype Projection = Projection(contributions: map<string, ProducerContribution>, totalFindings: nat,
                                   totalUniqueFindings: nat, totalRootCauses: nat)

  /** Of the given findings, those confirmed, open or never adjudicated. */
  ghost function SoundOnes(adjudications: seq<(string, Lifecycle)>, fs: set<string>): set<string> {
    set f | f in fs &&
            var s := StatusOf(adjudications, f);
            s.None? || s.value.ConfirmedCurrent? || s.value.OpenFinding?
  }

  ghost function RejectedOnes(adjudications: seq<(string, Lifecycle)>, fs: set<string>): set<string> {
    set f | f in fs && StatusOf(adjudications, f) == Some(Rejected)
  }

  /** The findings that have a producer, with their producers. */
  ghost function FindingMap(as_: seq<Attribution>): ProducerMap {
    map f | f in Findings(as_) :: ProducersOf(as_, f)
  }

  ghost predicate TellsStatus(adjudications: seq<(string, Lifecycle)>, m: map<string, Lifecycle>) {
    forall f :: StatusOf(adjudications, f) == if f in m then Some(m[f]) else None
  }

  /** What the projection says of one producer. */
  ghost predicate Describes(facts: Facts, p: string, c: ProducerContribution) {
    var as_ := Attributions(facts);
    var findings := FindingMap(as_);
    var rcs, cov := RootCauseProducers(as_, facts.rootCauses), CoverageProducers(as_, facts.coverage);
    && c.discoveries == SortedSet(Entries(findings, p))
    && c.uniqueDiscoveries == SortedSet(SoleEntries(findings, p))
    && c.uniqueCount == |SoleEntries(findings, p)|
    && c.supportCount == |SharedEntries(findings, p)|
    && c.leaveOneOutLoss == |SoleEntries(findings, p)| + |SoleEntries(rcs, p)|
    && c.coverageDelta == |SoleEntries(cov, p)|
    && c.rootCauses == Entries(rcs, p)
    && c.soundCount == |SoundOnes(facts.adjudications, Entries(findings, p))|
    && c.rejectedCount == |RejectedOnes(facts.adjudications, Entries(findings, p))|
  }

  /** What the projection says. */
  ghost predicate Projects(facts: Facts, projection: Projection) {
    var as_ := Attributions(facts);
    var findings := FindingMap(as_);
    && projection.contributions.Keys == AllProducers(as_)
    && (forall p :: p in projection.contributions ==> Describes(facts, p, projection.contributions[p]))
    && projection.totalFindings == |findings|
    && projection.totalUniqueFindings == |set f | f in findings && |findings[f]| == 1|
    && projection.totalRootCauses == |RootCauseProducers(as_, facts.rootCauses)|
  }

  // ----- the loops -----

  function Credit(m: ProducerMap, key: string, more: set<string>): ProducerMap {
    m[key := (if key in m then m[key] else {}) + more]
  }

  /** The producers that one attribution names. */
  function Named(a: Attribution): set<string> {
    if a.producer.Some? then {a.producer.value} else {}
  }

  lemma OneMoreProducer(as_: seq<Attribution>, a: Attribution, f: string)
    ensures ProducersOf(as_ + [a], f) == ProducersOf(as_, f) + if f == a.finding then Named(a) else {}
  {
    var after := as_ + [a];
    assert forall j :: 0 <= j < |as_| ==> after[j] == as_[j];
    assert after[|as_|] == a;
    forall p | p in ProducersOf(as_, f)
      ensures p in ProducersOf(after, f)
    {
      var j :| 0 <= j < |as_| && as_[j].finding == f && as_[j].producer == Some(p);
      assert after[j].producer == Some(p);
    }
  }

  lemma OneMoreFinding(as_: seq<Attribution>, a: Attribution)
    ensures Findings(as_ + [a]) == Findings(as_) + if a.producer.Some? then {a.finding} else {}
    ensures AllProducers(as_ + [a]) == AllProducers(as_) + Named(a)
  {
    var after := as_ + [a];
    assert forall j :: 0 <= j < |as_| ==> after[j] == as_[j];
    assert after[|as_|] == a;
    forall f | f in Findings(as_)
      ensures f in Findings(after)
    {
      var j :| 0 <= j < |as_| && as_[j].finding == f && as_[j].producer.Some?;
      assert after[j].producer.Some?;
    }
    forall p | p in AllProducers(as_)
      ensures p in AllProducers(after)
    {
      var j :| 0 <= j < |as_| && as_[j].producer == Some(p);
      assert after[j].producer == Some(p);
    }
  }

  lemma FindingHasProducer(as_: seq<Attribution>, f: string)
    ensures f in Findings(as_) <==> ProducersOf(as_, f) != {}
  {
    if f in Findings(as_) {
      var j :| 0 <= j < |as_| && as_[j].finding == f && as_[j].producer.Some?;
      assert as_[j].producer.value in ProducersOf(as_, f);
    }
  }

  lemma OneMoreAttribution(as_: seq<Attribution>, a: Attribution)
    ensures a.producer.None? ==> FindingMap(as_ + [a]) == FindingMap(as_)
    ensures a.producer.Some? ==> FindingMap(as_ + [a]) == Credit(FindingMap(as_), a.finding, {a.producer.value})
    ensures AllProducers(as_ + [a]) == AllProducers(as_) + Named(a)
  {
    hide ProducersOf, Findings, AllProducers;
    OneMoreFinding(as_, a);
    FindingHasProducer(as_, a.finding);
    var expected := if a.producer.Some? then Credit(FindingMap(as_), a.finding, Named(a)) else FindingMap(as_);
    forall f | f in Findings(as_ + [a])
      ensures f in expected && expected[f] == ProducersOf(as_ + [a], f)
    {
      OneMoreProducer(as_, a, f);
    }
    assert FindingMap(as_ + [a]) == expected;
  }

  /** The loops over discoveries and claims. */
  method GatherProducers(as_: seq<Attribution>) returns (findings: ProducerMap, producers: set<string>)
    ensures findings == FindingMap(as_) && producers == AllProducers(as_)
  {
    findings, producers := map[], {};
    for i := 0 to |as_|
      invariant findings == FindingMap(as_[..i]) && producers == AllProducers(as_[..i])
    {
      hide FindingMap, AllProducers;
      OneMoreAttribution(as_[..i], as_[i]);
      assert as_[..i + 1] == as_[..i] + [as_[i]];
      if as_[i].producer.Some? {
        producers := producers + {as_[i].producer.value};
        findings := Credit(findings, as_[i].finding, {as_[i].producer.value});
      }
    }
    assert as_[..|as_|] == as_;
  }

  method GatherStatus(adjudications: seq<(string, Lifecycle)>) returns (status: map<string, Lifecycle>)
    ensures TellsStatus(adjudications, status)
  {
    status := map[];
    for i := 0 to |adjudications|
      invariant TellsStatus(adjudications[..i], status)
    {
      assert adjudications[..i + 1][..i] == adjudications[..i];
      status := status[adjudications[i].0 := adjudications[i].1];
    }
    assert adjudications[..|adjudications|] == adjudications;
  }

  /** The producers of a list of findings: the inner loops over membership edges and over evidence. */
  method ProducersBehind(ghost as_: seq<Attribution>, findings: ProducerMap, refs: seq<string>)
    returns (ps: set<string>)
    requires findings == FindingMap(as_)
    ensures ps == ProducersOfAny(as_, refs)
  {
    ps := {};
    for i := 0 to |refs|
      invariant ps == ProducersOfAny(as_, refs[..i])
    {
      FindingHasProducer(as_, refs[i]);
      OneMoreRef(as_, refs[..i], refs[i]);
      assert refs[..i + 1] == refs[..i] + [refs[i]];
      ps := ps + if refs[i] in findings then findings[refs[i]] else {};
    }
    assert refs[..|refs|] == refs;
  }

  lemma OneMoreRef(as_: seq<Attribution>, refs: seq<string>, r: string)
    ensures ProducersOfAny(as_, refs + [r]) == ProducersOfAny(as_, refs) + ProducersOf(as_, r)
  {
    hide ProducersOf;
    var after := refs + [r];
    assert after[|refs|] == r;
    forall p | p in ProducersOfAny(as_, refs)
      ensures p in ProducersOfAny(as_, after)
    {
      var j :| 0 <= j < |refs| && p in ProducersOf(as_, refs[j]);
      assert p in ProducersOf(as_, after[j]);
    }
  }

  method GatherRootCauses(ghost as_: seq<Attribution>, findings: ProducerMap, rcs: seq<RootCause>)
    returns (m: ProducerMap)
    requires findings == FindingMap(as_)
    ensures m == RootCauseProducers(as_, rcs)
  {
    m := map[];
    for i := 0 to |rcs|
      invariant m == RootCauseProducers(as_, rcs[..i])
    {
      hide FindingMap, ProducersOfAny;
      var ps := ProducersBehind(as_, findings, rcs[i].members);
      assert rcs[..i + 1][..i] == rcs[..i];
      m := m[rcs[i].id := ps];
    }
    assert rcs[..|rcs|] == rcs;
  }

  method GatherCoverage(ghost as_: seq<Attribution>, findings: ProducerMap, cs: seq<Coverage>) returns (m: ProducerMap)
    requires findings == FindingMap(as_)
    ensures m == CoverageProducers(as_, cs)
  {
    m := map[];
    for i := 0 to |cs|
      invariant m == CoverageProducers(as_, cs[..i])
    {
      hide FindingMap, ProducersOfAny;
      var ps := ProducersBehind(as_, findings, cs[i].evidence);
      assert cs[..i + 1][..i] == cs[..i];
      if ps != {} {
        m := Credit(m, cs[i].key, ps);
      }
    }
    assert cs[..|cs|] == cs;
  }

  method CountByStatus(ghost adjudications: seq<(string, Lifecycle)>, status: map<string, Lifecycle>, fs: set<string>)
    returns (sound: nat, rejected: nat)
    requires TellsStatus(adjudications, status)
    ensures sound == |SoundOnes(adjudications, fs)| && rejected == |RejectedOnes(adjudications, fs)|
  {
    hide StatusOf;
    var good := set f | f in fs && (f in status ==> status[f].ConfirmedCurrent? || status[f].OpenFinding?);
    var bad := set f | f in fs && f in status && status[f].Rejected?;
    assert good == SoundOnes(adjudications, fs);
    assert bad == RejectedOnes(adjudications, fs);
    return |good|, |bad|;
  }

  /** The counts for one producer. */
  method Contribute(ghost facts: Facts, p: string, status: map<string, Lifecycle>, findings: ProducerMap,
                    rcs: ProducerMap, cov: ProducerMap)
    returns (c: ProducerContribution)
    requires TellsStatus(facts.adjudications, status)
    requires findings == FindingMap(Attributions(facts))
    requires rcs == RootCauseProducers(Attributions(facts), facts.rootCauses)
    requires cov == CoverageProducers(Attributions(facts), facts.coverage)
    ensures Describes(facts, p, c)
  {
    hide FindingMap, RootCauseProducers, CoverageProducers, Attributions, SoleEntries, SharedEntries, Entries,
      TellsStatus, SoundOnes, RejectedOnes, Lists;
    var mine, sole := Entries(findings, p), SoleEntries(findings, p);
    var discoveries := SortSet(mine);
    var unique := SortSet(sole);
    var sound, rejected := CountByStatus(facts.adjudications, status, mine);
    c := ProducerContribution(discoveries, unique, |sole|, |SharedEntries(findings, p)|, |sole| + |SoleEntries(rcs, p)|,
                              |SoleEntries(cov, p)|, Entries(rcs, p), sound, rejected);
  }

  /** The projection: who found what, and what would be lost without each producer. */
  method BuildContributionProjection(facts: Facts) returns (projection: Projection)
    ensures Projects(facts, projection)
  {
    hide FindingMap, RootCauseProducers, CoverageProducers, Describes, AllProducers, TellsStatus;
    ghost var as_ := Attributions(facts);
    var status := GatherStatus(facts.adjudications);
    var findings, producers := GatherProducers(facts.discoveries + facts.claims);
    var rcs := GatherRootCauses(as_, findings, facts.rootCauses);
    var cov := GatherCoverage(as_, findings, facts.coverage);
    var todo, contributions := producers, map[];
    while todo != {}
      invariant todo <= producers && contributions.Keys == producers - todo
      invariant forall p :: p in contributions ==> Describes(facts, p, contributions[p])
      decreases |todo|
    {
      var p :| p in todo;
      var c := Contribute(facts, p, status, findings, rcs, cov);
      contributions, todo := contributions[p := c], todo - {p};
    }
    projection := Projection(contributions, |findings|, |set f | f in findings && |findings[f]| == 1|, |rcs|);
  }

  // ----- what the counts mean -----

  /** The attributions as they stand once producer p is taken away. */
  ghost function Without(as_: seq<Attribution>, p: string): (r: seq<Attribution>)
    ensures |r| == |as_|
  {
    seq(|as_|, i requires 0 <= i < |as_| =>
      if as_[i].producer == Some(p) then as_[i].(producer := None) else as_[i])
  }

  /** The entries that somebody stands behind. */
  ghost function Backed(m: ProducerMap): set<string> {
    set k | k in m && m[k] != {}
  }

  /** What the facts add up to: findings with a producer, and root causes with a producer. */
  ghost function Yield(as_: seq<Attribution>, rcs: seq<RootCause>): nat {
    |Findings(as_)| + |Backed(RootCauseProducers(as_, rcs))|
  }

  lemma ProducersWithout(as_: seq<Attribution>, p: string, f: string)
    ensures ProducersOf(Without(as_, p), f) == ProducersOf(as_, f) - {p}
  {
    var w := Without(as_, p);
    forall q | q in ProducersOf(as_, f) && q != p
      ensures q in ProducersOf(w, f)
    {
      var i :| 0 <= i < |as_| && as_[i].finding == f && as_[i].producer == Some(q);
      assert w[i] == as_[i];
    }
  }

  lemma BehindWithout(as_: seq<Attribution>, p: string, refs: seq<string>)
    ensures ProducersOfAny(Without(as_, p), refs) == ProducersOfAny(as_, refs) - {p}
  {
    hide ProducersOf, Without;
    var w := Without(as_, p);
    forall i | 0 <= i < |refs|
      ensures ProducersOf(w, refs[i]) == ProducersOf(as_, refs[i]) - {p}
    {
      ProducersWithout(as_, p, refs[i]);
    }
    forall q | q in ProducersOfAny(as_, refs) && q != p
      ensures q in ProducersOfAny(w, refs)
    {
      var i :| 0 <= i < |refs| && q in ProducersOf(as_, refs[i]);
      assert q in ProducersOf(w, refs[i]);
    }
  }

  /** m2 is m1 with p struck out everywhere. */
  ghost predicate Struck(m1: ProducerMap, m2: ProducerMap, p: string) {
    m2.Keys == m1.Keys && forall k :: k in m1 ==> m2[k] == m1[k] - {p}
  }

  lemma {:induction false} RootCausesWithout(as_: seq<Attribution>, p: string, rcs: seq<RootCause>)
    ensures Struck(RootCauseProducers(as_, rcs), RootCauseProducers(Without(as_, p), rcs), p)
  {
    hide ProducersOfAny, Without;
    if rcs != [] {
      var n := |rcs| - 1;
      RootCausesWithout(as_, p, rcs[..n]);
      BehindWithout(as_, p, rcs[n].members);
    }
  }

  /** An obligation stays covered just when somebody else covers it. */
  ghost predicate StruckAway(m1: ProducerMap, m2: ProducerMap, p: string) {
    && (forall k :: k in m2 <==> k in m1 && m1[k] - {p} != {})
    && (forall k :: k in m2 ==> m2[k] == m1[k] - {p})
  }

  lemma {:induction false} CoverageWithout(as_: seq<Attribution>, p: string, cs: seq<Coverage>)
    ensures StruckAway(CoverageProducers(as_, cs), CoverageProducers(Without(as_, p), cs), p)
    ensures forall k :: k in CoverageProducers(as_, cs) ==> CoverageProducers(as_, cs)[k] != {}
  {
    hide ProducersOfAny, Without;
    if cs != [] {
      var n := |cs| - 1;
      CoverageWithout(as_, p, cs[..n]);
      BehindWithout(as_, p, cs[n].evidence);
    }
  }

  lemma FindingsWithout(as_: seq<Attribution>, p: string)
    ensures Findings(Without(as_, p)) == Findings(as_) - SoleEntries(FindingMap(as_), p)
  {
    hide ProducersOf, Findings, Without;
    forall f
      ensures f in Findings(Without(as_, p)) <==> f in Findings(as_) && ProducersOf(as_, f) != {p}
    {
      ProducersWithout(as_, p, f);
      FindingHasProducer(as_, f);
      FindingHasProducer(Without(as_, p), f);
    }
  }

  lemma SizeOfDifference<T>(s: set<T>, t: set<T>)
    requires t <= s
    ensures |s - t| == |s| - |t|
  {
    assert s == (s - t) + t;
  }

  /** The leave-one-out loss is what a recount without the producer would come short by. */
  lemma LeaveOneOut(facts: Facts, projection: Projection, p: string)
    requires Projects(facts, projection) && p in projection.contributions
    ensures projection.contributions[p].leaveOneOutLoss
         == Yield(Attributions(facts), facts.rootCauses) - Yield(Without(Attributions(facts), p), facts.rootCauses)
  {
    hide ProducersOf, Findings, Without, RootCauseProducers, CoverageProducers, Attributions;
    var as_ := Attributions(facts);
    assert Describes(facts, p, projection.contributions[p]);
    var m1, m2 := RootCauseProducers(as_, facts.rootCauses), RootCauseProducers(Without(as_, p), facts.rootCauses);
    FindingsWithout(as_, p);
    SizeOfDifference(Findings(as_), SoleEntries(FindingMap(as_), p));
    RootCausesWithout(as_, p, facts.rootCauses);
    StrikingOut(m1, m2, p);
    SizeOfDifference(Backed(m1), SoleEntries(m1, p));
  }

  lemma StrikingOut(m1: ProducerMap, m2: ProducerMap, p: string)
    requires Struck(m1, m2, p)
    ensures Backed(m2) == Backed(m1) - SoleEntries(m1, p)
    ensures SoleEntries(m1, p) <= Backed(m1)
  {
    forall k | k in m1
      ensures m1[k] - {p} == {} <==> m1[k] == {} || m1[k] == {p}
    {
    }
  }

  /** The coverage delta counts the obligations nobody would cover without the producer. */
  lemma CoverageDelta(facts: Facts, projection: Projection, p: string)
    requires Projects(facts, projection) && p in projection.contributions
    ensures projection.contributions[p].coverageDelta
         == |CoverageProducers(Attributions(facts), facts.coverage)|
          - |CoverageProducers(Without(Attributions(facts), p), facts.coverage)|
  {
    hide Without, RootCauseProducers, CoverageProducers, Attributions, FindingMap;
    var as_ := Attributions(facts);
    assert Describes(facts, p, projection.contributions[p]);
    var m1, m2 := CoverageProducers(as_, facts.coverage), CoverageProducers(Without(as_, p), facts.coverage);
    CoverageWithout(as_, p, facts.coverage);
    forall k | k in m1
      ensures k in m2 <==> m1[k] != {p}
    {
    }
    assert m2.Keys == m1.Keys - SoleEntries(m1, p);
    SizeOfDifference(m1.Keys, SoleEntries(m1, p));
  }

  /** Each of a producer's findings is either his alone or shared. */
  lemma UniquePlusSupport(facts: Facts, projection: Projection, p: string)
    requires Projects(facts, projection) && p in projection.contributions
    ensures var c := projection.contributions[p];
            c.uniqueCount + c.supportCount == |c.discoveries|
  {
    hide RootCauseProducers, CoverageProducers, Attributions, FindingMap;
    var m := FindingMap(Attributions(facts));
    assert Describes(facts, p, projection.contributions[p]);
    forall k | k in Entries(m, p)
      ensures m[k] == {p} <==> |m[k]| <= 1
    {
      OnlyMember(m[k], p);
    }
    assert Entries(m, p) == SoleEntries(m, p) + SharedEntries(m, p);
    assert SoleEntries(m, p) !! SharedEntries(m, p);
  }

  lemma OnlyMember(s: set<string>, p: string)
    requires p in s
    ensures s == {p} <==> |s| <= 1
  {
    if |s| <= 1 {
      SizeOfDifference(s, {p});
      assert s == (s - {p}) + {p};
    }
  }

  /** The unique counts of the given producers, added up. */
  ghost function UniqueTotal(contributions: map<string, ProducerContribution>, ps: set<string>): nat
    requires ps <= contributions.Keys
  {
    if ps == {} then 0
    else
      var p :| p in ps;
      contributions[p].uniqueCount + UniqueTotal(contributions, ps - {p})
  }

  lemma {:induction false} UniqueTotalCounts(m: ProducerMap, contributions: map<string, ProducerContribution>,
                                             ps: set<string>)
    requires ps <= contributions.Keys
    requires forall p :: p in ps ==> contributions[p].uniqueCount == |SoleEntries(m, p)|
    ensures UniqueTotal(contributions, ps) == |set k, p | k in m && p in ps && m[k] == {p} :: k|
  {
    if ps != {} {
      var q :| q in ps && UniqueTotal(contributions, ps)
          == contributions[q].uniqueCount + UniqueTotal(contributions, ps - {q});
      UniqueTotalCounts(m, contributions, ps - {q});
      var all, rest := set k, p | k in m && p in ps && m[k] == {p} :: k,
                       set k, p | k in m && p in ps - {q} && m[k] == {p} :: k;
      forall k | k in all && k !in rest
        ensures k in SoleEntries(m, q)
      {
        var p :| p in ps && m[k] == {p};
        assert p == q;
      }
      assert all == SoleEntries(m, q) + rest;
      assert SoleEntries(m, q) !! rest;
    }
  }

  /** The unique counts add up to the number of findings with exactly one producer. */
  lemma UniqueCountsAddUp(facts: Facts, projection: Projection)
    requires Projects(facts, projection)
    ensures UniqueTotal(projection.contributions, projection.contributions.Keys) == projection.totalUniqueFindings
  {
    hide RootCauseProducers, CoverageProducers, Attributions, FindingMap;
    var as_ := Attributions(facts);
    var m, ps := FindingMap(as_), projection.contributions.Keys;
    forall p | p in ps
      ensures projection.contributions[p].uniqueCount == |SoleEntries(m, p)|
    {
      assert Describes(facts, p, projection.contributions[p]);
    }
    UniqueTotalCounts(m, projection.contributions, ps);
    forall k | k in m
      ensures |m[k]| == 1 <==> exists p :: p in ps && m[k] == {p}
    {
      ProducerIsKnown(as_, k);
      if |m[k]| == 1 {
        var p :| p in m[k];
        OnlyMember(m[k], p);
      }
    }
    assert (set k, p | k in m && p in ps && m[k] == {p} :: k) == set k | k in m && |m[k]| == 1;
  }

  lemma ProducerIsKnown(as_: seq<Attribution>, f: string)
    requires f in FindingMap(as_)
    ensures FindingMap(as_)[f] <= AllProducers(as_)
  {
  }
}
